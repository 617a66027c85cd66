/**
  Rows of the two tables of the message service, the responses its handlers
  send, and the table operations the handlers use: a filtered read of the
  users table (`findAll` with a `where` clause) and a point update of the
  `active` column (`update ... where id = target`).
*/
module Records {

  /** The administrator is the user whose id is 1. */
  const Admin: int := 1

  /** A row of the users table. */
  datatype User = User(id: int, username: string, email: string, apiKey: string, active: bool)

  /** A row of the messages table: `src` sent `content` to `dst`. */
  datatype Message = Message(id: int, src: int, dst: int, content: string)

  /** The projection the identity stage attaches to a request: id, username, email, api_key. */
  datatype Identity = Identity(id: int, username: string, email: string, apiKey: string)

  /** The projection the user lookups return: username and email. */
  datatype Profile = Profile(username: string, email: string)

  function IdentityOf(u: User): Identity {
    Identity(u.id, u.username, u.email, u.apiKey)
  }

  function ProfileOf(u: User): Profile {
    Profile(u.username, u.email)
  }

  /** The `data` part of a response envelope. */
  datatype Body =
    | Text(text: string)
    | Created(user: User)
    | Sent(message: Message)
    | Profiles(profiles: seq<Profile>)
    | Messages(messages: seq<Message>)
      /** "id <target> has been blacklisted" */
    | Blacklisted(target: int)
      /** "id <target> is valid" */
    | Whitelisted(target: int)

  /** A response envelope `{code, data}`. */
  datatype Response = Response(code: int, body: Body)

  const NoToken: Response := Response(403, Text("No api token"))
  const InvalidToken: Response := Response(403, Text("Invalid api token or not active"))
  const InternalError: Response := Response(500, Text("Internal server error"))
  const NotAllowed: Response := Response(403, Text("Not allowed"))

  /** The `where` clauses the service puts on the users table. */
  datatype Query =
    | ById(id: int)
    | ByUsername(username: string)
    | ByEmail(email: string)
    | Everyone
    | ByKey(key: string)
    | ByActiveKey(key: string)

  predicate Matches(u: User, q: Query) {
    match q
    case ById(id) => u.id == id
    case ByUsername(name) => u.username == name
    case ByEmail(email) => u.email == email
    case Everyone => true
    case ByKey(key) => u.apiKey == key
    case ByActiveKey(key) => u.apiKey == key && u.active
  }

  /** The rows of `us` that satisfy `q`, in table order. */
  function Select(us: seq<User>, q: Query): (r: seq<User>)
    ensures |r| <= |us|
    ensures forall u :: u in r <==> u in us && Matches(u, q)
  {
    if us == [] then []
    else if Matches(us[0], q) then [us[0]] + Select(us[1..], q)
    else Select(us[1..], q)
  }

  /** `Select` returns each matching row exactly as often as the table holds it, and no other row. */
  lemma {:induction false} SelectCounts(us: seq<User>, q: Query)
    ensures forall u :: multiset(Select(us, q))[u] == if Matches(u, q) then multiset(us)[u] else 0
  {
    if us != [] {
      assert us == [us[0]] + us[1..];
      SelectCounts(us[1..], q);
    }
  }

  /** The users table after `update {active: flag} where id = target`. */
  function SetActive(us: seq<User>, target: int, flag: bool): (r: seq<User>)
    ensures |r| == |us|
    ensures forall i :: 0 <= i < |us| ==>
              r[i] == if us[i].id == target then us[i].(active := flag) else us[i]
  {
    if us == [] then []
    else [if us[0].id == target then us[0].(active := flag) else us[0]] + SetActive(us[1..], target, flag)
  }

  /** No two rows share an api key (the `unique` constraint on that column). */
  predicate UniqueKeys(us: seq<User>) {
    forall i, j :: 0 <= i < j < |us| ==> us[i].apiKey != us[j].apiKey
  }

  predicate UniqueNames(us: seq<User>) {
    forall i, j :: 0 <= i < j < |us| ==> us[i].username != us[j].username
  }

  predicate UniqueEmails(us: seq<User>) {
    forall i, j :: 0 <= i < j < |us| ==> us[i].email != us[j].email
  }

  /** Ids come from the table's sequence: positive, increasing, and below the next value. */
  predicate IdsFromSequence(us: seq<User>, nextId: int) {
    && 1 <= nextId
    && (forall i :: 0 <= i < |us| ==> 1 <= us[i].id < nextId)
    && (forall i, j :: 0 <= i < j < |us| ==> us[i].id < us[j].id)
  }

  /** Every row with the administrator's id is active. */
  predicate AdminActive(us: seq<User>) {
    forall i :: 0 <= i < |us| && us[i].id == Admin ==> us[i].active
  }

  /** What the users table keeps between requests. */
  predicate UsersInvariant(us: seq<User>, nextId: int) {
    && IdsFromSequence(us, nextId)
    && UniqueKeys(us)
    && UniqueNames(us)
    && UniqueEmails(us)
    && AdminActive(us)
  }

  /** A query no row satisfies selects nothing. */
  lemma {:induction false} SelectNone(us: seq<User>, q: Query)
    requires forall u :: u in us ==> !Matches(u, q)
    ensures Select(us, q) == []
  {
    if us != [] {
      assert us[0] in us;
      assert forall u :: u in us[1..] ==> u in us;
      SelectNone(us[1..], q);
    }
  }

  /** With unique keys, the rows holding the key of `u` are exactly `u`. */
  lemma {:induction false} SelectByUniqueKey(us: seq<User>, u: User)
    requires UniqueKeys(us)
    requires u in us
    ensures Select(us, ByKey(u.apiKey)) == [u]
  {
    var t := us[1..];
    assert UniqueKeys(t) by {
      forall i, j | 0 <= i < j < |t| ensures t[i].apiKey != t[j].apiKey {
        assert t[i] == us[i + 1] && t[j] == us[j + 1];
      }
    }
    if us[0] == u {
      forall v | v in t ensures v.apiKey != u.apiKey {
        var j :| 0 <= j < |t| && t[j] == v;
        assert us[j + 1] == v;
      }
      SelectNone(t, ByKey(u.apiKey));
    } else {
      assert u in t;
      var j :| 0 <= j < |t| && t[j] == u;
      assert us[j + 1] == u;
      assert us[0].apiKey != u.apiKey;
      SelectByUniqueKey(t, u);
    }
  }

  /** The point update changes only the `active` column, so every other column keeps its invariant. */
  lemma SetActiveKeepsColumns(us: seq<User>, nextId: int, target: int, flag: bool)
    requires UsersInvariant(us, nextId)
    requires flag || target != Admin
    ensures UsersInvariant(SetActive(us, target, flag), nextId)
  {
    var r := SetActive(us, target, flag);
    forall i | 0 <= i < |us|
      ensures r[i].id == us[i].id && r[i].apiKey == us[i].apiKey
      ensures r[i].username == us[i].username && r[i].email == us[i].email
      ensures r[i].id == Admin ==> r[i].active
    {
      assert r[i] == if us[i].id == target then us[i].(active := flag) else us[i];
    }
  }
}

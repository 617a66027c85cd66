/**
  The service's two tables as one object, the handlers that change them
  (`/register`, `/blacklist/id/:id`, `/whitelist/id/:id`, `/send`), and the
  request entry point: `/register` runs without the gate, every other route
  runs behind it.
*/
module Server {
  import opened Wrappers
  import opened Records
  import opened Access
  import opened Queries

  /** The routes of the service, with their path parameters and body fields. */
  datatype Route =
    | PostRegister(username: Option<string>, email: Option<string>)
    | GetId(id: int)
    | GetUsername(name: string)
    | GetEmail(address: string)
    | GetUsers
    | GetBlacklist(target: int)
    | GetWhitelist(target: int)
    | PostSend(dst: int, content: string)
    | GetRead

  /** A request: the `authorization` header, when sent, and the route. */
  datatype Request = Request(authorization: Option<string>, route: Route)

  /**
    What the surroundings decide for one request: whether the gate's validity
    query, its identity query and the handler's own store call throw, and the
    api key the generator produces for a new user.
  */
  datatype Env = Env(validateFails: bool, attachFails: bool, storeFails: bool, freshKey: string)

  /** The `where` clause of each user lookup route. */
  function LookupQuery(route: Route): Query
    requires route.GetId? || route.GetUsername? || route.GetEmail? || route.GetUsers?
  {
    match route
    case GetId(id) => ById(id)
    case GetUsername(name) => ByUsername(name)
    case GetEmail(email) => ByEmail(email)
    case GetUsers => Everyone
  }

  /** Message ids come from the table's sequence: increasing and below the next value. */
  predicate MessagesInvariant(ms: seq<Message>, nextId: int) {
    && 1 <= nextId
    && (forall i :: 0 <= i < |ms| ==> ms[i].id < nextId)
    && (forall i, j :: 0 <= i < j < |ms| ==> ms[i].id < ms[j].id)
  }

  /** The constraints of the users table that a new row must meet: not null, and unique username, email and key. */
  predicate Admissible(users: seq<User>, username: Option<string>, email: Option<string>, key: string) {
    && username.Some?
    && email.Some?
    && forall u :: u in users ==> u.username != username.value && u.email != email.value && u.apiKey != key
  }

  class Store {
    var users: seq<User>
    var messages: seq<Message>
    /** The next value of the users table's id sequence. */
    var nextUserId: int
    /** The next value of the messages table's id sequence. */
    var nextMessageId: int

    ghost predicate Valid()
      reads this
    {
      UsersInvariant(users, nextUserId) && MessagesInvariant(messages, nextMessageId)
    }

    /** Empty tables whose sequences start at 1. */
    constructor ()
      ensures Valid()
      ensures users == [] && messages == [] && nextUserId == 1 && nextMessageId == 1
    {
      users, messages := [], [];
      nextUserId, nextMessageId := 1, 1;
    }

    /** Nothing in either table changed. */
    twostate predicate Untouched()
      reads this
    {
      users == old(users) && messages == old(messages)
      && nextUserId == old(nextUserId) && nextMessageId == old(nextMessageId)
    }

    /**
      `/register`: a new active row with the next id and the generated key,
      answered with the row; 500 and no change when a constraint of the
      table rejects it or the store call throws.
    */
    twostate predicate RegisterEffect(username: Option<string>, email: Option<string>, freshKey: string,
                                      storeFails: bool, r: Response)
      reads this
    {
      && messages == old(messages) && nextMessageId == old(nextMessageId)
      && if !storeFails && Admissible(old(users), username, email, freshKey) then
           var u := User(old(nextUserId), username.value, email.value, freshKey, true);
           users == old(users) + [u] && nextUserId == old(nextUserId) + 1 && r == Response(200, Created(u))
         else
           users == old(users) && nextUserId == old(nextUserId) && r == InternalError
    }

    /**
      `/blacklist/id/:target`: only the administrator may call it, and not on
      the administrator's own id; then every row with id `target` becomes
      inactive (none may exist, and the answer is still 200).
    */
    twostate predicate BlacklistEffect(callerId: int, target: int, storeFails: bool, r: Response)
      reads this
    {
      && r == (if callerId == Admin && target != Admin then
                 if storeFails then InternalError else Response(200, Blacklisted(target))
               else NotAllowed)
      && users == (if r.code == 200 then SetActive(old(users), target, false) else old(users))
      && messages == old(messages) && nextUserId == old(nextUserId) && nextMessageId == old(nextMessageId)
    }

    /**
      `/whitelist/id/:target`: only the administrator may call it, on any id,
      the administrator's own included; then every row with id `target`
      becomes active.
    */
    twostate predicate WhitelistEffect(callerId: int, target: int, storeFails: bool, r: Response)
      reads this
    {
      && r == (if callerId == Admin then
                 if storeFails then InternalError else Response(200, Whitelisted(target))
               else NotAllowed)
      && users == (if r.code == 200 then SetActive(old(users), target, true) else old(users))
      && messages == old(messages) && nextUserId == old(nextUserId) && nextMessageId == old(nextMessageId)
    }

    /**
      `/send`: one new message from the caller with the next id, the given
      receiver (which need not be a user) and content; the stored messages
      stay as they were.
    */
    twostate predicate SendEffect(callerId: int, dst: int, content: string, storeFails: bool, r: Response)
      reads this
    {
      && users == old(users) && nextUserId == old(nextUserId)
      && if storeFails then
           messages == old(messages) && nextMessageId == old(nextMessageId) && r == InternalError
         else
           var m := Message(old(nextMessageId), callerId, dst, content);
           messages == old(messages) + [m] && nextMessageId == old(nextMessageId) + 1 && r == Response(200, Sent(m))
    }

    /** What a protected route does once the gate has let `callerId` through. */
    twostate predicate RouteEffect(route: Route, callerId: int, env: Env, r: Response)
      reads this
    {
      match route
      case PostRegister(username, email) => RegisterEffect(username, email, env.freshKey, env.storeFails, r)
      case GetId(_) => Untouched() && r == Lookup(old(users), LookupQuery(route), env.storeFails)
      case GetUsername(_) => Untouched() && r == Lookup(old(users), LookupQuery(route), env.storeFails)
      case GetEmail(_) => Untouched() && r == Lookup(old(users), LookupQuery(route), env.storeFails)
      case GetUsers => Untouched() && r == Lookup(old(users), Everyone, env.storeFails)
      case GetBlacklist(target) => BlacklistEffect(callerId, target, env.storeFails, r)
      case GetWhitelist(target) => WhitelistEffect(callerId, target, env.storeFails, r)
      case PostSend(dst, content) => SendEffect(callerId, dst, content, env.storeFails, r)
      case GetRead => Untouched() && r == ReadMessages(old(messages), callerId, env.storeFails)
    }

    method Register(username: Option<string>, email: Option<string>, freshKey: string, storeFails: bool)
      returns (r: Response)
      requires Valid()
      modifies this
      ensures Valid()
      ensures RegisterEffect(username, email, freshKey, storeFails, r)
    {
      if !storeFails && Admissible(users, username, email, freshKey) {
        var u := User(nextUserId, username.value, email.value, freshKey, true);
        assert forall i :: 0 <= i < |users| ==> users[i] in users;
        users := users + [u];
        nextUserId := nextUserId + 1;
        r := Response(200, Created(u));
      } else {
        r := InternalError;
      }
    }

    method Blacklist(callerId: int, target: int, storeFails: bool) returns (r: Response)
      requires Valid()
      modifies this`users
      ensures Valid()
      ensures BlacklistEffect(callerId, target, storeFails, r)
    {
      if callerId == Admin && target != Admin {
        if storeFails {
          r := InternalError;
        } else {
          SetActiveKeepsColumns(users, nextUserId, target, false);
          users := SetActive(users, target, false);
          r := Response(200, Blacklisted(target));
        }
      } else {
        r := NotAllowed;
      }
    }

    method Whitelist(callerId: int, target: int, storeFails: bool) returns (r: Response)
      requires Valid()
      modifies this`users
      ensures Valid()
      ensures WhitelistEffect(callerId, target, storeFails, r)
    {
      if callerId == Admin {
        if storeFails {
          r := InternalError;
        } else {
          SetActiveKeepsColumns(users, nextUserId, target, true);
          users := SetActive(users, target, true);
          r := Response(200, Whitelisted(target));
        }
      } else {
        r := NotAllowed;
      }
    }

    method Send(callerId: int, dst: int, content: string, storeFails: bool) returns (r: Response)
      requires Valid()
      modifies this`messages, this`nextMessageId
      ensures Valid()
      ensures SendEffect(callerId, dst, content, storeFails, r)
    {
      if storeFails {
        r := InternalError;
      } else {
        var m := Message(nextMessageId, callerId, dst, content);
        messages := messages + [m];
        nextMessageId := nextMessageId + 1;
        r := Response(200, Sent(m));
      }
    }

    /**
      One request, handled atomically. `/register` bypasses the gate; any
      other route is answered by the gate when the gate stops it, with
      nothing changed, and otherwise runs with the first attached row as
      the caller.
    */
    method Handle(req: Request, env: Env) returns (r: Response)
      requires Valid()
      modifies this
      ensures Valid()
      ensures req.route.PostRegister? ==>
                RegisterEffect(req.route.username, req.route.email, env.freshKey, env.storeFails, r)
      ensures !req.route.PostRegister? ==>
                var g := Gate(old(users), req.authorization, env.validateFails, env.attachFails);
                && (g.Stop? ==> r == g.response && Untouched())
                && (g.Pass? ==> RouteEffect(req.route, CallerId(g), env, r))
    {
      if req.route.PostRegister? {
        r := Register(req.route.username, req.route.email, env.freshKey, env.storeFails);
        return;
      }
      var g := Gate(users, req.authorization, env.validateFails, env.attachFails);
      if g.Stop? {
        r := g.response;
        return;
      }
      var caller := CallerId(g);
      match req.route
      case GetId(_) =>
        r := Lookup(users, LookupQuery(req.route), env.storeFails);
      case GetUsername(_) =>
        r := Lookup(users, LookupQuery(req.route), env.storeFails);
      case GetEmail(_) =>
        r := Lookup(users, LookupQuery(req.route), env.storeFails);
      case GetUsers =>
        r := Lookup(users, Everyone, env.storeFails);
      case GetBlacklist(target) =>
        r := Blacklist(caller, target, env.storeFails);
      case GetWhitelist(target) =>
        r := Whitelist(caller, target, env.storeFails);
      case PostSend(dst, content) =>
        r := Send(caller, dst, content, env.storeFails);
      case GetRead =>
        r := ReadMessages(messages, caller, env.storeFails);
    }
  }

  /** The stored messages have distinct ids, so `/read` lists them in strictly descending id order. */
  lemma ReadStrictlyNewestFirst(ms: seq<Message>, nextId: int, caller: int)
    requires MessagesInvariant(ms, nextId)
    requires ReadMessages(ms, caller, false).code == 200
    ensures StrictlyNewestFirst(ReadMessages(ms, caller, false).body.messages)
  {
  }

  /** A user that `/register` accepted can use the generated key at once, and is the caller it names. */
  lemma RegisteredUserAdmitted(users: seq<User>, nextId: int, username: string, email: string, key: string)
    requires UsersInvariant(users, nextId)
    requires Admissible(users, Some(username), Some(email), key) && key != ""
    ensures Gate(users + [User(nextId, username, email, key, true)], Some(key), false, false)
            == Pass([Identity(nextId, username, email, key)])
  {
    var u := User(nextId, username, email, key, true);
    var after := users + [u];
    assert UniqueKeys(after) by {
      forall i, j | 0 <= i < j < |after| ensures after[i].apiKey != after[j].apiKey {
        assert after[i] == users[i] && users[i] in users;
        if j < |users| {
          assert after[j] == users[j];
        }
      }
    }
    assert u in after;
    ActiveKeyPasses(after, u);
  }
}

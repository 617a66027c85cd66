/**
  The read-only handlers: the user lookups `/id/:id`, `/username/:username`,
  `/email/:email` and `/users`, and `/read`, which lists the caller's sent
  and received messages newest first.
*/
module Queries {
  import opened Records

  function ProfilesOf(us: seq<User>): (r: seq<Profile>)
    ensures |r| == |us|
    ensures forall i :: 0 <= i < |us| ==> r[i] == ProfileOf(us[i])
  {
    if us == [] then [] else [ProfileOf(us[0])] + ProfilesOf(us[1..])
  }

  /** Some row satisfies `q`. */
  predicate AnyMatch(users: seq<User>, q: Query) {
    exists u :: u in users && Matches(u, q)
  }

  /**
    A user lookup: the username and email of every row that satisfies `q`,
    404 when there is none, 500 when the store query throws.
  */
  function Lookup(users: seq<User>, q: Query, storeFails: bool): (r: Response)
    ensures storeFails ==> r == InternalError
    ensures !storeFails && !AnyMatch(users, q) ==>
              r == Response(404, Text(if q.Everyone? then "users not found" else "user not found"))
    ensures !storeFails && AnyMatch(users, q) ==> r.code == 200 && r.body.Profiles?
    ensures !storeFails && AnyMatch(users, q) ==>
              forall p :: p in r.body.profiles <==> exists u :: u in users && Matches(u, q) && p == ProfileOf(u)
  {
    if storeFails then InternalError
    else
      var found := Select(users, q);
      if found == [] then
        assert !AnyMatch(users, q);
        Response(404, Text(if q.Everyone? then "users not found" else "user not found"))
      else
        var ps := ProfilesOf(found);
        assert forall p :: p in ps ==> exists i :: 0 <= i < |found| && p == ProfileOf(found[i]);
        assert forall i :: 0 <= i < |found| ==> found[i] in found;
        assert forall u :: u in users && Matches(u, q) ==> exists i :: 0 <= i < |found| && found[i] == u;
        Response(200, Profiles(ps))
  }

  /** `m` was sent or received by `caller`. */
  predicate Involves(m: Message, caller: int) {
    m.src == caller || m.dst == caller
  }

  /** No two messages share an id (the primary key). */
  predicate DistinctIds(ms: seq<Message>) {
    forall i, j :: 0 <= i < j < |ms| ==> ms[i].id != ms[j].id
  }

  /** Ordered by descending id. */
  predicate NewestFirst(ms: seq<Message>) {
    forall i, j :: 0 <= i < j < |ms| ==> ms[i].id >= ms[j].id
  }

  /** Ordered by strictly descending id. */
  predicate StrictlyNewestFirst(ms: seq<Message>) {
    forall i, j :: 0 <= i < j < |ms| ==> ms[i].id > ms[j].id
  }

  /** The messages `caller` sent or received, in table order. */
  function Conversation(ms: seq<Message>, caller: int): (r: seq<Message>)
    ensures forall m :: m in r <==> m in ms && Involves(m, caller)
  {
    if ms == [] then []
    else
      assert ms == [ms[0]] + ms[1..];
      if Involves(ms[0], caller) then [ms[0]] + Conversation(ms[1..], caller)
      else Conversation(ms[1..], caller)
  }

  /** The filter keeps each of the caller's messages as often as it is stored, and no other message. */
  lemma {:induction false} ConversationCounts(ms: seq<Message>, caller: int)
    ensures forall m :: multiset(Conversation(ms, caller))[m] == if Involves(m, caller) then multiset(ms)[m] else 0
  {
    if ms != [] {
      assert ms == [ms[0]] + ms[1..];
      ConversationCounts(ms[1..], caller);
    }
  }

  /** Keeping only some messages keeps their ids distinct. */
  lemma {:induction false} ConversationDistinct(ms: seq<Message>, caller: int)
    ensures DistinctIds(ms) ==> DistinctIds(Conversation(ms, caller))
  {
    if ms != [] && DistinctIds(ms) {
      var t := ms[1..];
      assert DistinctIds(t) by {
        forall i, j | 0 <= i < j < |t| ensures t[i].id != t[j].id {
          assert t[i] == ms[i + 1] && t[j] == ms[j + 1];
        }
      }
      ConversationDistinct(t, caller);
      var rest := Conversation(t, caller);
      if Involves(ms[0], caller) {
        forall m | m in rest ensures m.id != ms[0].id {
          var j :| 0 <= j < |t| && t[j] == m;
          assert ms[j + 1] == m;
        }
        var r := [ms[0]] + rest;
        forall i, j | 0 <= i < j < |r| ensures r[i].id != r[j].id {
          assert r[j] == rest[j - 1] && r[j] in rest;
          if i > 0 {
            assert r[i] == rest[i - 1];
          }
        }
      }
    }
  }

  /** In a newest-first list the head is at least as new as everything after it. */
  lemma HeadIsNewest(ms: seq<Message>)
    ensures |ms| > 0 && NewestFirst(ms) ==> forall x :: x in ms[1..] ==> x.id <= ms[0].id
    ensures |ms| > 0 && StrictlyNewestFirst(ms) ==> forall x :: x in ms[1..] ==> x.id < ms[0].id
  {
    if |ms| > 0 {
      forall x | x in ms[1..] ensures (NewestFirst(ms) ==> x.id <= ms[0].id) && (StrictlyNewestFirst(ms) ==> x.id < ms[0].id) {
        var j :| 0 <= j < |ms[1..]| && ms[1..][j] == x;
        assert ms[j + 1] == x;
      }
    }
  }

  /** Putting a message no older than any of `t` in front of the newest-first list `t` keeps it newest first. */
  lemma ConsNewest(h: Message, t: seq<Message>)
    requires NewestFirst(t) && forall x :: x in t ==> x.id <= h.id
    ensures NewestFirst([h] + t)
    ensures StrictlyNewestFirst(t) && (forall x :: x in t ==> x.id < h.id) ==> StrictlyNewestFirst([h] + t)
  {
    var r := [h] + t;
    assert forall k :: 1 <= k < |r| ==> r[k] == t[k - 1] && r[k] in t;
  }

  /** Puts `m` into the newest-first list `ms` just before the first message that is not newer. */
  function InsertNewest(m: Message, ms: seq<Message>): (r: seq<Message>)
    requires NewestFirst(ms)
    ensures NewestFirst(r)
    ensures forall x :: x in r <==> x in ms || x == m
  {
    if ms == [] || ms[0].id <= m.id then
      HeadIsNewest(ms);
      ConsNewest(m, ms);
      [m] + ms
    else
      assert ms == [ms[0]] + ms[1..];
      HeadIsNewest(ms);
      var rest := InsertNewest(m, ms[1..]);
      ConsNewest(ms[0], rest);
      [ms[0]] + rest
  }

  /** Inserting a message whose id is new into a strictly ordered list keeps it strictly ordered. */
  lemma {:induction false} InsertNewestStrict(m: Message, ms: seq<Message>)
    requires StrictlyNewestFirst(ms)
    requires forall x :: x in ms ==> x.id != m.id
    ensures StrictlyNewestFirst(InsertNewest(m, ms))
  {
    HeadIsNewest(ms);
    if ms == [] || ms[0].id <= m.id {
      ConsNewest(m, ms);
    } else {
      assert ms == [ms[0]] + ms[1..];
      InsertNewestStrict(m, ms[1..]);
      ConsNewest(ms[0], InsertNewest(m, ms[1..]));
    }
  }

  /** Inserting adds exactly one occurrence of `m`. */
  lemma {:induction false} InsertNewestPermutes(m: Message, ms: seq<Message>)
    requires NewestFirst(ms)
    ensures multiset(InsertNewest(m, ms)) == multiset(ms) + multiset{m}
  {
    if ms != [] && ms[0].id > m.id {
      assert ms == [ms[0]] + ms[1..];
      InsertNewestPermutes(m, ms[1..]);
    }
  }

  /** The model of `ORDER BY id DESC`: an insertion sort on descending id. */
  function SortNewest(ms: seq<Message>): (r: seq<Message>)
    ensures NewestFirst(r)
    ensures forall x :: x in r <==> x in ms
  {
    if ms == [] then []
    else
      assert ms == [ms[0]] + ms[1..];
      InsertNewest(ms[0], SortNewest(ms[1..]))
  }

  /** With distinct ids the sorted list is strictly ordered. */
  lemma {:induction false} SortNewestStrict(ms: seq<Message>)
    ensures DistinctIds(ms) ==> StrictlyNewestFirst(SortNewest(ms))
  {
    if ms != [] && DistinctIds(ms) {
      var t := ms[1..];
      assert DistinctIds(t) by {
        forall i, j | 0 <= i < j < |t| ensures t[i].id != t[j].id {
          assert t[i] == ms[i + 1] && t[j] == ms[j + 1];
        }
      }
      forall x | x in SortNewest(t) ensures x.id != ms[0].id {
        var j :| 0 <= j < |t| && t[j] == x;
        assert ms[j + 1] == x;
      }
      SortNewestStrict(t);
      InsertNewestStrict(ms[0], SortNewest(t));
    }
  }

  /** Sorting keeps every message exactly as often as it occurs. */
  lemma {:induction false} SortNewestPermutes(ms: seq<Message>)
    ensures multiset(SortNewest(ms)) == multiset(ms)
  {
    if ms != [] {
      assert ms == [ms[0]] + ms[1..];
      SortNewestPermutes(ms[1..]);
      InsertNewestPermutes(ms[0], SortNewest(ms[1..]));
    }
  }

  /**
    `/read`: every message the caller sent or received, each as often as it
    is stored, newest first; 404 when there is none, 500 when the store
    query throws.
  */
  function ReadMessages(ms: seq<Message>, caller: int, storeFails: bool): (r: Response)
    ensures storeFails ==> r == InternalError
    ensures !storeFails ==> (r.code == 200 <==> exists m :: m in ms && Involves(m, caller))
    ensures !storeFails && r.code != 200 ==> r == Response(404, Text("No messages sent or received"))
    ensures !storeFails && r.code == 200 ==>
              && r.body.Messages?
              && NewestFirst(r.body.messages)
              && multiset(r.body.messages) == multiset(Conversation(ms, caller))
              && (forall m :: m in r.body.messages <==> m in ms && Involves(m, caller))
              && (DistinctIds(ms) ==> StrictlyNewestFirst(r.body.messages))
  {
    if storeFails then InternalError
    else
      var mine := Conversation(ms, caller);
      if mine == [] then
        Response(404, Text("No messages sent or received"))
      else
        assert mine[0] in mine;
        var sorted := SortNewest(mine);
        SortNewestPermutes(mine);
        ConversationDistinct(ms, caller);
        SortNewestStrict(mine);
        Response(200, Messages(sorted))
  }

  /**
    A message sent with an id above every stored id is the first message
    `/read` shows to its sender and to its receiver.
  */
  lemma SentMessageReadFirst(ms: seq<Message>, m: Message, reader: int)
    requires forall x :: x in ms ==> x.id < m.id
    requires Involves(m, reader)
    ensures ReadMessages(ms + [m], reader, false).code == 200
    ensures ReadMessages(ms + [m], reader, false).body.messages[0] == m
  {
    var all := ms + [m];
    assert m in all;
    var shown := ReadMessages(all, reader, false).body.messages;
    assert m in shown;
    var k :| 0 <= k < |shown| && shown[k] == m;
    assert shown[0].id >= m.id;
    assert shown[0] in shown;
    assert shown[0] in all;
  }
}

/**
  The access gate that runs before every protected route: the presence check
  of the `authorization` header, the validity-and-activity check of the key,
  and the stage that attaches the caller's identity to the request.
*/
module Access {
  import opened Wrappers
  import opened Records

  /** Either the request goes on with the attached identity rows, or the gate answers and stops. */
  datatype GateOutcome = Pass(attached: seq<Identity>) | Stop(response: Response)

  /** The header counts as present when JavaScript's `!key` is false: absent and "" are both missing. */
  predicate Present(authorization: Option<string>) {
    authorization.Some? && authorization.value != ""
  }

  /** Some active row holds `key`. */
  predicate KeyAdmits(users: seq<User>, key: string) {
    exists u :: u in users && u.apiKey == key && u.active
  }

  function Identities(us: seq<User>): (r: seq<Identity>)
    ensures |r| == |us|
    ensures forall i :: 0 <= i < |us| ==> r[i] == IdentityOf(us[i])
  {
    if us == [] then [] else [IdentityOf(us[0])] + Identities(us[1..])
  }

  /**
    The three stages in order. `validateFails` and `attachFails` say whether
    the store query of the second and of the third stage throws.
  */
  function Gate(users: seq<User>, authorization: Option<string>, validateFails: bool, attachFails: bool): (g: GateOutcome)
    ensures !Present(authorization) ==> g == Stop(NoToken)
    ensures Present(authorization) && validateFails ==> g == Stop(InternalError)
    ensures Present(authorization) && !validateFails && !KeyAdmits(users, authorization.value) ==> g == Stop(InvalidToken)
    ensures Present(authorization) && !validateFails && KeyAdmits(users, authorization.value) && attachFails ==>
              g == Stop(InternalError)
    ensures g.Pass? <==> Present(authorization) && !validateFails && !attachFails && KeyAdmits(users, authorization.value)
    ensures g.Stop? ==> g.response.code == 403 || g.response.code == 500
    ensures g.Pass? ==> |g.attached| > 0
    ensures g.Pass? ==> forall i :: 0 <= i < |g.attached| ==>
              exists u :: u in users && u.apiKey == authorization.value && g.attached[i] == IdentityOf(u)
  {
    if !Present(authorization) then Stop(NoToken)
    else
      var key := authorization.value;
      var admitted := Select(users, ByActiveKey(key));
      if validateFails then Stop(InternalError)
      else if admitted == [] then
        assert !KeyAdmits(users, key);
        Stop(InvalidToken)
      else
        assert admitted[0] in admitted;
        if attachFails then Stop(InternalError)
        else
          var holders := Select(users, ByKey(key));
          assert admitted[0] in holders;
          assert forall i :: 0 <= i < |holders| ==> holders[i] in holders;
          Pass(Identities(holders))
  }

  /** The id of the caller, as the handlers read it from the first attached row. */
  function CallerId(g: GateOutcome): int
    requires g.Pass? && |g.attached| > 0
  {
    g.attached[0].id
  }

  /** An active user whose key is unique and non-empty passes the gate, and is the caller. */
  lemma ActiveKeyPasses(users: seq<User>, u: User)
    requires UniqueKeys(users)
    requires u in users && u.active && u.apiKey != ""
    ensures Gate(users, Some(u.apiKey), false, false) == Pass([IdentityOf(u)])
  {
    SelectByUniqueKey(users, u);
    assert Identities([u]) == [IdentityOf(u)];
  }

  /** An inactive user's key, however valid, is refused once the validity check runs. */
  lemma InactiveKeyRefused(users: seq<User>, u: User, attachFails: bool)
    requires UniqueKeys(users)
    requires u in users && !u.active && u.apiKey != ""
    ensures Gate(users, Some(u.apiKey), false, attachFails) == Stop(InvalidToken)
  {
  }

  /** After the administrator blacklists user `b`, every request carrying `b`'s key gets 403. */
  lemma BlacklistLocksOut(users: seq<User>, b: User, attachFails: bool)
    requires UniqueKeys(users)
    requires b in users
    ensures Gate(SetActive(users, b.id, false), Some(b.apiKey), false, attachFails).Stop?
    ensures Gate(SetActive(users, b.id, false), Some(b.apiKey), false, attachFails).response.code == 403
  {
    var after := SetActive(users, b.id, false);
    var i :| 0 <= i < |users| && users[i] == b;
    assert after[i] == b.(active := false);
    assert UniqueKeys(after) by {
      assert forall k :: 0 <= k < |users| ==> after[k].apiKey == users[k].apiKey;
    }
    if b.apiKey != "" {
      InactiveKeyRefused(after, after[i], attachFails);
    }
  }

  /** After the administrator whitelists user `b`, `b`'s key passes the gate again and identifies `b`. */
  lemma WhitelistRestores(users: seq<User>, b: User)
    requires UniqueKeys(users)
    requires b in users && b.apiKey != ""
    ensures Gate(SetActive(users, b.id, true), Some(b.apiKey), false, false) == Pass([IdentityOf(b)])
  {
    var after := SetActive(users, b.id, true);
    var i :| 0 <= i < |users| && users[i] == b;
    assert after[i] == b.(active := true);
    assert UniqueKeys(after) by {
      assert forall k :: 0 <= k < |users| ==> after[k].apiKey == users[k].apiKey;
    }
    ActiveKeyPasses(after, after[i]);
  }

  /** Blacklisting `b` and then whitelisting `b` shuts `b` out and then lets `b` in. */
  lemma BlacklistThenWhitelist(users: seq<User>, b: User)
    requires UniqueKeys(users)
    requires b in users && b.apiKey != ""
    ensures Gate(SetActive(users, b.id, false), Some(b.apiKey), false, false) == Stop(InvalidToken)
    ensures Gate(SetActive(SetActive(users, b.id, false), b.id, true), Some(b.apiKey), false, false)
            == Pass([IdentityOf(b)])
  {
    var mid := SetActive(users, b.id, false);
    var i :| 0 <= i < |users| && users[i] == b;
    assert mid[i] == b.(active := false);
    assert UniqueKeys(mid) by {
      assert forall k :: 0 <= k < |users| ==> mid[k].apiKey == users[k].apiKey;
    }
    InactiveKeyRefused(mid, mid[i], false);
    WhitelistRestores(mid, mid[i]);
    assert IdentityOf(mid[i]) == IdentityOf(b);
  }

  /**
    While the users table keeps its invariant, an administrator row with a key
    always passes the gate. Ids are integers here, so this is the guarantee for
    integer path ids.
  */
  lemma AdminAlwaysAdmitted(users: seq<User>, nextId: int, admin: User)
    requires UsersInvariant(users, nextId)
    requires admin in users && admin.id == Admin && admin.apiKey != ""
    ensures Gate(users, Some(admin.apiKey), false, false).Pass?
    ensures CallerId(Gate(users, Some(admin.apiKey), false, false)) == Admin
  {
  }
}

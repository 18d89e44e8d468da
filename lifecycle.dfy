/**
 * Properties that span several requests against the same list of records:
 * generate, then verify, renew or generate again, and cleanup beside
 * verify's own prune.
 */
module Lifecycle {
  import opened Wrappers
  import opened Text
  import opened Keys
  import opened GenerateKey
  import opened RenewKey
  import opened VerifyKey
  import opened CleanupKeys

  /** After a generation at `now`, no earlier record of that user is active at `now` or later. */
  lemma {:induction false} NoEarlierActive(keys: seq<Record>, username: string, duration: string, key: string,
                                           now: int, later: int)
    requires Generate(keys, username, duration, key, now).Created?
    requires now <= later
    ensures forall j :: 0 <= j < |keys| ==> !(keys[j].username == username && IsActive(keys[j], later))
  {
    assert !HasActiveKey(keys, username, now);
    forall j | 0 <= j < |keys|
      ensures !(keys[j].username == username && IsActive(keys[j], later))
    {
      if keys[j].username == username {
        ExpiryIsFinal(keys[j], now, later);
      }
    }
  }

  /**
   * A newly generated key is reported valid with the data it was created
   * with for as long as it is active. No earlier record of the user is
   * active, so none can stand in for it, whatever its key string.
   */
  lemma {:induction false} GenerateThenVerify(keys: seq<Record>, username: string, duration: string, key: string,
                                              now: int, later: int)
    requires key != ""
    requires now <= later
    requires Generate(keys, username, duration, key, now).Created?
    requires IsActive(Generate(keys, username, duration, key, now).entry, later)
    ensures var e := Generate(keys, username, duration, key, now).entry;
            Verify(Some(keys + [e]), key, username, later).response == Valid(username, duration, now, e.expiresAt)
  {
    var e := Generate(keys, username, duration, key, now).entry;
    var s := keys + [e];
    NoEarlierActive(keys, username, duration, key, now, later);
    forall j | 0 <= j < |keys|
      ensures !(Matches(KeyOf(key, username), s[j]) && IsActive(s[j], later))
    {
      assert s[j] == keys[j];
    }
    assert s[|keys|] == e;
    FindFirstActive(s, KeyOf(key, username), |keys|, later);
  }

  /**
   * While the new record is active, a second generation for the same user
   * is refused and reports that record's key, expiry and duration.
   */
  lemma {:induction false} SecondGenerateRejected(keys: seq<Record>, username: string, duration: string, key: string,
                                                  now: int, duration2: string, key2: string, later: int)
    requires Generate(keys, username, duration, key, now).Created?
    requires now <= later
    requires IsActive(Generate(keys, username, duration, key, now).entry, later)
    requires ValidDuration(duration2)
    ensures var e := Generate(keys, username, duration, key, now).entry;
            Generate(keys + [e], username, duration2, key2, later) == Rejected(ActiveKeyExists(key, e.expiresAt, duration))
  {
    var e := Generate(keys, username, duration, key, now).entry;
    var s := keys + [e];
    NoEarlierActive(keys, username, duration, key, now, later);
    assert s[|keys|] == e;
    assert HasActiveKey(s, username, later);
    forall j | 0 <= j < |keys|
      ensures !Matches(ActiveOf(username, later), s[j])
    {
      assert s[j] == keys[j];
    }
  }

  /**
   * Once its expiry has passed, a generated timed key is not reported as
   * expired: verify prunes it first, so the answer is the same as for a
   * wrong key, and the prune is written back.
   */
  lemma {:induction false} LapsedKeyReadsAsInvalid(keys: seq<Record>, username: string, duration: string, key: string,
                                                   now: int, later: int)
    requires key != ""
    requires Generate(keys, username, duration, key, now).Created?
    requires duration != "permanent"
    requires later >= Generate(keys, username, duration, key, now).entry.expiresAt.value
    ensures var e := Generate(keys, username, duration, key, now).entry;
            var out := Verify(Some(keys + [e]), key, username, later);
            && out.response == InvalidOrMismatch
            && out.write == Some(FilterActive(keys, later))
  {
    var e := Generate(keys, username, duration, key, now).entry;
    var s := keys + [e];
    NoEarlierActive(keys, username, duration, key, now, later);
    assert !IsActive(e, later);
    assert FilterActive([e], later) == [];
    FilterActiveAppend(keys, [e], later);
    assert FilterActive(s, later) == FilterActive(keys, later);
    FilterActiveCount(s, later);
    forall j | 0 <= j < |s|
      ensures !(Matches(KeyOf(key, username), s[j]) && IsActive(s[j], later))
    {
      if j < |keys| {
        assert s[j] == keys[j];
      }
    }
    assert !HasActiveMatch(s, key, username, later);
  }

  /**
   * A renewed key verifies, with its new expiry, at any time from the
   * renewal until that expiry.
   */
  lemma {:induction false} RenewThenVerify(keys: seq<Record>, key: string, username: string, now: int, later: int)
    requires key != "" && username != ""
    requires Renew(keys, key, username, now).Renewed?
    requires later < Renew(keys, key, username, now).updated.expiresAt.value
    ensures var r := Renew(keys, key, username, now);
            var t := keys[r.index];
            Verify(Some(keys[r.index := r.updated]), key, username, later).response
              == Valid(username, t.duration, t.createdAt, r.updated.expiresAt)
  {
    var r := Renew(keys, key, username, now);
    var s := keys[r.index := r.updated];
    forall j | 0 <= j < r.index
      ensures !(Matches(KeyOf(key, username), s[j]) && IsActive(s[j], later))
    {
      assert s[j] == keys[j];
    }
    FindFirstActive(s, KeyOf(key, username), r.index, later);
  }

  /**
   * Verifying on the list a cleanup left gives the same answer as verifying
   * on the original list at the same time, and writes nothing.
   */
  lemma {:induction false} CleanupPreservesVerify(authorization: Option<string>, secret: string, keys: seq<Record>,
                                                  key: string, username: string, now: int)
    requires Authorized(authorization, secret)
    ensures var left := Remaining(keys, Cleanup(authorization, secret, Some(keys), now));
            var after := Verify(Some(left), key, username, now);
            && after.response == Verify(Some(keys), key, username, now).response
            && after.write == None
  {
    CleanupIdempotent(authorization, secret, keys, now);
    var left := FilterActive(keys, now);
    FilterActiveIdempotent(keys, now);
    FilterActiveCount(left, now);
    assert HasActiveMatch(left, key, username, now) <==> HasActiveMatch(keys, key, username, now) by {
      if HasActiveMatch(keys, key, username, now) {
        var i :| 0 <= i < |keys| && Matches(KeyOf(key, username), keys[i]) && IsActive(keys[i], now);
        assert keys[i] in left;
        var k :| 0 <= k < |left| && left[k] == keys[i];
      }
      if HasActiveMatch(left, key, username, now) {
        var i :| 0 <= i < |left| && Matches(KeyOf(key, username), left[i]) && IsActive(left[i], now);
        assert left[i] in keys;
        var k :| 0 <= k < |keys| && keys[k] == left[i];
      }
    }
  }

  /** Verify's prune writes back exactly what an authorized cleanup at the same time would. */
  lemma VerifyPruneIsCleanup(authorization: Option<string>, secret: string, keys: seq<Record>,
                             key: string, username: string, now: int)
    requires Authorized(authorization, secret)
    requires key != "" && username != ""
    ensures Verify(Some(keys), key, username, now).write == Cleanup(authorization, secret, Some(keys), now).write
  {
  }

  /** Twenty-four hours read as one day. */
  lemma OneDayLabel()
    ensures DurationLabel(24) == "1 Day"
  {
    assert Digit(1) == '1';
    assert NatToDecimal(1) == "1";
    assert DurationLabel(24) == IntToDecimal(1) + " Day" + "";
  }

  /** "24" reads as 24 hours. */
  lemma TwentyFourHours()
    ensures ParseInt("24") == Some(24)
  {
    assert NatToDecimal(24) == "24" by {
      assert NatToDecimal(2) == "2";
    }
    assert IntToDecimal(24) + "" == "24";
    ParseIntOfDecimal(24, "");
  }

  /** "alice" asking for "24" on an empty store gets this record, labelled "1 Day". */
  lemma AliceGenerates(key: string, now: int)
    ensures Generate([], "alice", "24", key, now)
              == Created(Record(key, "alice", "24", now, Some(now + 86400000), Some(0), None, None), "1 Day")
  {
    assert ValidUsername("alice");
    assert ValidDuration("24");
    assert !HasActiveKey([], "alice", now);
    TwentyFourHours();
    OneDayLabel();
  }

  /** Alice's one-record store verifies up to just before the expiry. */
  lemma AliceVerifies(key: string, now: int)
    requires key != ""
    ensures var e := Record(key, "alice", "24", now, Some(now + 86400000), Some(0), None, None);
            Verify(Some([e]), key, "alice", now + 86399999).response == Valid("alice", "24", now, Some(now + 86400000))
  {
    var e := Record(key, "alice", "24", now, Some(now + 86400000), Some(0), None, None);
    FindFirstActive([e], KeyOf(key, "alice"), 0, now + 86399999);
  }

  /** Twenty-five hours on, the same store reads as invalid and is pruned to empty. */
  lemma AliceLapses(key: string, now: int)
    requires key != ""
    ensures var e := Record(key, "alice", "24", now, Some(now + 86400000), Some(0), None, None);
            Verify(Some([e]), key, "alice", now + 90000000) == VerifyOutcome(InvalidOrMismatch, Some([]))
  {
    var e := Record(key, "alice", "24", now, Some(now + 86400000), Some(0), None, None);
    assert !IsActive(e, now + 90000000);
    assert FilterActive([e], now + 90000000) == [];
    FilterActiveCount([e], now + 90000000);
    assert !HasActiveMatch([e], key, "alice", now + 90000000);
  }

  /**
   * The worked case: "alice" asks for a 24-hour key on an empty store. She
   * gets "1 Day" with an expiry 86400000 ms later; that key verifies until
   * just before the expiry, and 25 hours after creation it reads as invalid
   * (not as expired) while the prune empties the store.
   */
  lemma AliceDay(key: string, now: int)
    requires key != ""
    ensures var r := Generate([], "alice", "24", key, now);
            && r.Created?
            && r.durationText == "1 Day"
            && r.entry.expiresAt == Some(now + 86400000)
            && Verify(Some([r.entry]), key, "alice", now + 86399999).response == Valid("alice", "24", now, Some(now + 86400000))
            && Verify(Some([r.entry]), key, "alice", now + 90000000) == VerifyOutcome(InvalidOrMismatch, Some([]))
  {
    AliceGenerates(key, now);
    AliceVerifies(key, now);
    AliceLapses(key, now);
  }

  /** Renewal with fifty minutes left is refused, citing fifty minutes. */
  lemma FiftyMinutesLeft(keys: seq<Record>, key: string, username: string, now: int)
    requires FindIndex(keys, KeyOf(key, username)) >= 0
    requires IsTimed(keys[FindIndex(keys, KeyOf(key, username))])
    requires keys[FindIndex(keys, KeyOf(key, username))].expiresAt.value == now + 3000000
    ensures Renew(keys, key, username, now) == Failed(TooCloseToExpiry(50))
  {
    RenewRefusals(keys, key, username, now);
  }
}

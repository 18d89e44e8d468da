/**
 * The key record, the activity test shared by all four handlers, the
 * `filter` that drops expired records and the `findIndex`/`find` searches.
 * Times are integer milliseconds since the epoch.
 */
module Keys {
  import opened Wrappers
  import opened Text

  /** One hour in milliseconds (60 * 60 * 1000). */
  const HourMillis: int := 3600000

  /** h hours in milliseconds, as `h * 60 * 60 * 1000`. */
  function HoursInMillis(h: int): (ms: int) {
    h * HourMillis
  }

  /** The durations a key may be generated with: hour counts, or "permanent". */
  const ValidDurations: seq<string> := ["1", "24", "72", "168", "720", "permanent"]

  predicate ValidDuration(d: string) {
    d in ValidDurations
  }

  /** Every whitelisted hour count is read by `parseInt` as the number it spells. */
  lemma WhitelistedHours(d: string)
    requires ValidDuration(d) && d != "permanent"
    ensures ParseInt(d).Some? && ParseInt(d).value in {1, 24, 72, 168, 720}
    ensures IntToDecimal(ParseInt(d).value) == d
  {
    assert NatToDecimal(1) == "1";
    assert NatToDecimal(2) == "2" && NatToDecimal(24) == "24";
    assert NatToDecimal(7) == "7" && NatToDecimal(72) == "72" && NatToDecimal(720) == "720";
    assert NatToDecimal(16) == "16" && NatToDecimal(168) == "168";
    var h := if d == "1" then 1 else if d == "24" then 24 else if d == "72" then 72
             else if d == "168" then 168 else 720;
    assert IntToDecimal(h) == d;
    ParseIntOfDecimal(h, "");
    assert IntToDecimal(h) + "" == d;
  }

  /**
   * One entry of keys.json. `duration` is the string form of the stored
   * value; `expiresAt` is None when it is null; `renewCount` is None when
   * the field is missing. Renewal writes `renewedAt`, while generation
   * initialises `lastRenewedAt`, so a record carries both.
   */
  datatype Record = Record(
    key: string,
    username: string,
    duration: string,
    createdAt: int,
    expiresAt: Option<int>,
    renewCount: Option<nat>,
    lastRenewedAt: Option<int>,
    renewedAt: Option<int>)

  /** A record is active when it has no expiry or expires strictly after now. */
  predicate IsActive(r: Record, now: int) {
    r.expiresAt.None? || r.expiresAt.value > now
  }

  /** Expiry is final: a record inactive at some time stays inactive later. */
  lemma ExpiryIsFinal(r: Record, now: int, later: int)
    requires !IsActive(r, now) && now <= later
    ensures !IsActive(r, later)
  {
  }

  /** `keys.filter(active)`: the active records, in their original order. */
  function FilterActive(keys: seq<Record>, now: int): (active: seq<Record>)
    ensures |active| <= |keys|
    ensures forall r :: r in active <==> r in keys && IsActive(r, now)
  {
    if keys == [] then []
    else
      assert keys == [keys[0]] + keys[1..];
      (if IsActive(keys[0], now) then [keys[0]] else []) + FilterActive(keys[1..], now)
  }

  /** The filter keeps every active record as often as it occurs, and no other record. */
  lemma {:induction false} FilterActiveMultiset(keys: seq<Record>, now: int, r: Record)
    ensures multiset(FilterActive(keys, now))[r] == if IsActive(r, now) then multiset(keys)[r] else 0
  {
    if keys != [] {
      FilterActiveMultiset(keys[1..], now, r);
      assert keys == [keys[0]] + keys[1..];
    }
  }

  /** The filter works element by element: it distributes over concatenation. */
  lemma {:induction false} FilterActiveAppend(a: seq<Record>, b: seq<Record>, now: int)
    ensures FilterActive(a + b, now) == FilterActive(a, now) + FilterActive(b, now)
  {
    if a == [] {
      assert a + b == b;
    } else {
      assert (a + b)[0] == a[0];
      assert (a + b)[1..] == a[1..] + b;
      FilterActiveAppend(a[1..], b, now);
    }
  }

  /** A list whose records are all active passes the filter unchanged. */
  lemma {:induction false} FilterActiveOfActive(s: seq<Record>, now: int)
    requires forall i :: 0 <= i < |s| ==> IsActive(s[i], now)
    ensures FilterActive(s, now) == s
  {
    if s != [] {
      FilterActiveOfActive(s[1..], now);
      assert s == [s[0]] + s[1..];
    }
  }

  /** Filtering twice at the same time removes nothing more. */
  lemma FilterActiveIdempotent(s: seq<Record>, now: int)
    ensures FilterActive(FilterActive(s, now), now) == FilterActive(s, now)
  {
    var a := FilterActive(s, now);
    forall i | 0 <= i < |a|
      ensures IsActive(a[i], now)
    {
      assert a[i] in a;
    }
    FilterActiveOfActive(a, now);
  }

  /** When the filter keeps as many records as it was given, it kept them all. */
  lemma {:induction false} FilterActiveKeepsAll(s: seq<Record>, now: int)
    requires |FilterActive(s, now)| == |s|
    ensures FilterActive(s, now) == s
  {
    if s != [] {
      assert IsActive(s[0], now);
      FilterActiveKeepsAll(s[1..], now);
      assert s == [s[0]] + s[1..];
    }
  }

  /** The number of records that are no longer active at now. */
  function CountExpired(s: seq<Record>, now: int): (n: nat) {
    if s == [] then 0 else (if IsActive(s[0], now) then 0 else 1) + CountExpired(s[1..], now)
  }

  /** The filter drops exactly the expired records. */
  lemma {:induction false} FilterActiveCount(s: seq<Record>, now: int)
    ensures |FilterActive(s, now)| + CountExpired(s, now) == |s|
  {
    if s != [] {
      FilterActiveCount(s[1..], now);
    }
  }

  /** The two searches of the handlers: by key and username, or by user among the active records. */
  datatype Query = KeyOf(key: string, username: string) | ActiveOf(username: string, now: int)

  predicate Matches(q: Query, r: Record) {
    match q
    case KeyOf(key, username) => r.key == key && r.username == username
    case ActiveOf(username, now) => r.username == username && IsActive(r, now)
  }

  /** `findIndex`: the index of the first matching record, or -1. */
  function FindIndex(s: seq<Record>, q: Query): (i: int)
    ensures -1 <= i < |s|
    ensures 0 <= i ==> Matches(q, s[i])
    ensures forall j :: 0 <= j < |s| && (i == -1 || j < i) ==> !Matches(q, s[j])
  {
    if s == [] then -1
    else if Matches(q, s[0]) then 0
    else
      var k := FindIndex(s[1..], q);
      if k == -1 then -1 else k + 1
  }

  /** `find`: the first matching record, if there is one. */
  function Find(s: seq<Record>, q: Query): (r: Option<Record>)
    ensures r.Some? ==> r.value in s && Matches(q, r.value)
    ensures r.None? <==> forall j :: 0 <= j < |s| ==> !Matches(q, s[j])
    ensures r.Some? ==> exists i :: 0 <= i < |s| && s[i] == r.value && forall j :: 0 <= j < i ==> !Matches(q, s[j])
  {
    var i := FindIndex(s, q);
    if i == -1 then None else Some(s[i])
  }

  lemma FindSkip(x: Record, t: seq<Record>, q: Query)
    requires !Matches(q, x)
    ensures Find([x] + t, q) == Find(t, q)
  {
    assert ([x] + t)[1..] == t;
  }

  /**
   * Searching the filtered list finds the first record that both matches
   * and is active.
   */
  lemma {:induction false} FindFirstActive(s: seq<Record>, q: Query, i: nat, now: int)
    requires i < |s| && Matches(q, s[i]) && IsActive(s[i], now)
    requires forall j :: 0 <= j < i ==> !(Matches(q, s[j]) && IsActive(s[j], now))
    ensures Find(FilterActive(s, now), q) == Some(s[i])
  {
    var rest := FilterActive(s[1..], now);
    if i == 0 {
      assert FilterActive(s, now) == [s[0]] + rest;
    } else {
      FindFirstActive(s[1..], q, i - 1, now);
      if IsActive(s[0], now) {
        assert FilterActive(s, now) == [s[0]] + rest;
        FindSkip(s[0], rest, q);
      } else {
        assert FilterActive(s, now) == rest;
      }
    }
  }

  /** Searching the filtered list finds nothing when no active record matches. */
  lemma FindNoActive(s: seq<Record>, q: Query, now: int)
    requires forall j :: 0 <= j < |s| ==> !(Matches(q, s[j]) && IsActive(s[j], now))
    ensures Find(FilterActive(s, now), q) == None
  {
    var a := FilterActive(s, now);
    forall j | 0 <= j < |a|
      ensures !Matches(q, a[j])
    {
      assert a[j] in s;
    }
  }

  /**
   * The record shape generation produces: a whitelisted duration, and no
   * expiry exactly for "permanent".
   */
  predicate WellFormed(r: Record) {
    ValidDuration(r.duration) && (r.expiresAt.None? <==> r.duration == "permanent")
  }

  predicate AllWellFormed(keys: seq<Record>) {
    forall i :: 0 <= i < |keys| ==> WellFormed(keys[i])
  }

  /** The filter keeps the records' shape. */
  lemma FilterActiveWellFormed(keys: seq<Record>, now: int)
    requires AllWellFormed(keys)
    ensures AllWellFormed(FilterActive(keys, now))
  {
    var a := FilterActive(keys, now);
    forall i | 0 <= i < |a|
      ensures WellFormed(a[i])
    {
      assert a[i] in keys;
    }
  }

  /** The uniqueness generation enforces: no user holds two active records at now. */
  predicate OneActivePerUser(keys: seq<Record>, now: int) {
    forall i, j :: 0 <= i < j < |keys| && keys[i].username == keys[j].username ==>
      !(IsActive(keys[i], now) && IsActive(keys[j], now))
  }

  /** Uniqueness at one time holds at every later time. */
  lemma OneActivePerUserLater(keys: seq<Record>, now: int, later: int)
    requires OneActivePerUser(keys, now) && now <= later
    ensures OneActivePerUser(keys, later)
  {
    forall i, j | 0 <= i < j < |keys| && keys[i].username == keys[j].username
      ensures !(IsActive(keys[i], later) && IsActive(keys[j], later))
    {
      if IsActive(keys[i], later) && IsActive(keys[j], later) {
        assert IsActive(keys[i], now) && IsActive(keys[j], now);
      }
    }
  }

  /** The prune keeps every user to at most one active record. */
  lemma {:induction false} FilterActiveKeepsOneActivePerUser(keys: seq<Record>, now: int)
    requires OneActivePerUser(keys, now)
    ensures OneActivePerUser(FilterActive(keys, now), now)
  {
    if keys != [] {
      var tail := keys[1..];
      assert OneActivePerUser(tail, now) by {
        forall i, j | 0 <= i < j < |tail| && tail[i].username == tail[j].username
          ensures !(IsActive(tail[i], now) && IsActive(tail[j], now))
        {
          assert tail[i] == keys[i + 1] && tail[j] == keys[j + 1];
        }
      }
      FilterActiveKeepsOneActivePerUser(tail, now);
      var rest := FilterActive(tail, now);
      if IsActive(keys[0], now) {
        assert FilterActive(keys, now) == [keys[0]] + rest;
        assert forall r :: r in rest ==> r in tail && IsActive(r, now);
      } else {
        assert FilterActive(keys, now) == [] + rest;
        assert [] + rest == rest;
      }
    }
  }
}

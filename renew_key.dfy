/**
 * Renewal of a timed key (api/renew-key.js): the record is found by key
 * and username, permanent, expired and nearly expired keys are refused,
 * and the expiry is pushed forward by the record's own duration.
 */
module RenewKey {
  import opened Wrappers
  import opened Text
  import opened Keys
  import opened Store

  datatype RenewError =
    | MissingField
    | KeyFileMissing
    | NotFound
    | NotRenewable
    | AlreadyExpired
    | TooCloseToExpiry(minutesLeft: int)
    | InvalidDate      // the new expiry could not be rendered (a RangeError)

  datatype RenewResult = Failed(error: RenewError) | Renewed(index: nat, updated: Record)

  /** `Math.round(ms / 60000)`: a duration in minutes, halves rounded up. */
  function RoundedMinutes(ms: nat): (m: nat)
    ensures m * 60000 - 30000 <= ms < m * 60000 + 30000
  {
    (ms + 30000) / 60000
  }

  /** `renewCount || 0`: the renewals so far, a missing count read as zero. */
  function PriorCount(k: Record): (n: nat) {
    if k.renewCount.Some? then k.renewCount.value else 0
  }

  predicate IsTimed(k: Record) {
    k.expiresAt.Some? && k.duration != "permanent"
  }

  /**
   * The renewed record: expiry moved on by `hours`, `renewedAt` set to
   * now, the count bumped; every other field is kept.
   */
  function Extend(t: Record, hours: int, now: int): (u: Record)
    requires t.expiresAt.Some?
    ensures u.expiresAt == Some(t.expiresAt.value + HoursInMillis(hours))
    ensures u.renewedAt == Some(now) && u.renewCount == Some(PriorCount(t) + 1)
    ensures u.key == t.key && u.username == t.username && u.duration == t.duration
    ensures u.createdAt == t.createdAt && u.lastRenewedAt == t.lastRenewedAt
  {
    t.(expiresAt := Some(t.expiresAt.value + HoursInMillis(hours)),
       renewedAt := Some(now),
       renewCount := Some(PriorCount(t) + 1))
  }

  /**
   * Renewal within the stored records `keys`: the first record with this
   * key and username is the target; it is renewed only when it is timed
   * and has at least one hour left.
   */
  function Renew(keys: seq<Record>, key: string, username: string, now: int): (r: RenewResult)
    ensures r == Failed(NotFound) <==> forall i :: 0 <= i < |keys| ==> !Matches(KeyOf(key, username), keys[i])
    ensures r.Renewed? ==>
      && r.index == FindIndex(keys, KeyOf(key, username))
      && r.index < |keys|
      && IsTimed(keys[r.index])
      && keys[r.index].expiresAt.value - now >= HourMillis
      && ParseInt(keys[r.index].duration).Some?
      && r.updated == Extend(keys[r.index], ParseInt(keys[r.index].duration).value, now)
  {
    var i := FindIndex(keys, KeyOf(key, username));
    if i == -1 then Failed(NotFound)
    else
      var k := keys[i];
      if k.expiresAt.None? || k.duration == "permanent" then Failed(NotRenewable)
      else if k.expiresAt.value < now then Failed(AlreadyExpired)
      else if k.expiresAt.value - now < HourMillis then
        Failed(TooCloseToExpiry(RoundedMinutes(k.expiresAt.value - now)))
      else if ParseInt(k.duration).None? then Failed(InvalidDate)
      else Renewed(i, Extend(k, ParseInt(k.duration).value, now))
  }

  /**
   * Which refusal a found target draws: permanent keys are never renewed,
   * even with an expiry set; a passed expiry is AlreadyExpired; under an
   * hour left is TooCloseToExpiry with the rounded minutes.
   */
  lemma RenewRefusals(keys: seq<Record>, key: string, username: string, now: int)
    requires FindIndex(keys, KeyOf(key, username)) >= 0
    ensures var t := keys[FindIndex(keys, KeyOf(key, username))];
            var r := Renew(keys, key, username, now);
            && (r == Failed(NotRenewable) <==> !IsTimed(t))
            && (r == Failed(AlreadyExpired) <==> IsTimed(t) && t.expiresAt.value < now)
            && (r.Failed? && r.error.TooCloseToExpiry? <==>
                  IsTimed(t) && now <= t.expiresAt.value < now + HourMillis)
            && (r.Failed? && r.error.TooCloseToExpiry? ==>
                  r.error.minutesLeft == RoundedMinutes(t.expiresAt.value - now) <= 60)
            && (r == Failed(InvalidDate) <==>
                  IsTimed(t) && t.expiresAt.value >= now + HourMillis && ParseInt(t.duration).None?)
  {
  }

  /**
   * The other direction of the guard chain: a found target that is timed,
   * has at least an hour left and a duration `parseInt` can read is renewed.
   */
  lemma RenewAccepts(keys: seq<Record>, key: string, username: string, now: int)
    requires FindIndex(keys, KeyOf(key, username)) >= 0
    ensures var t := keys[FindIndex(keys, KeyOf(key, username))];
            Renew(keys, key, username, now).Renewed? <==>
              IsTimed(t) && t.expiresAt.value >= now + HourMillis && ParseInt(t.duration).Some?
  {
  }

  /**
   * For a timed target, "less than an hour left" is refused, and exactly
   * one of AlreadyExpired and TooCloseToExpiry applies; an expiry equal to
   * now is not yet expired and counts as zero minutes left.
   */
  lemma {:induction false} NearExpiryRefused(keys: seq<Record>, key: string, username: string, now: int)
    requires FindIndex(keys, KeyOf(key, username)) >= 0
    requires IsTimed(keys[FindIndex(keys, KeyOf(key, username))])
    ensures var t := keys[FindIndex(keys, KeyOf(key, username))];
            var r := Renew(keys, key, username, now);
            && (t.expiresAt.value - now < HourMillis <==>
                  r == Failed(AlreadyExpired) || (r.Failed? && r.error.TooCloseToExpiry?))
            && (t.expiresAt.value == now ==> r == Failed(TooCloseToExpiry(0)))
  {
    RenewRefusals(keys, key, username, now);
  }

  /**
   * A key created by generation moves forward by exactly its own number of
   * hours, so its expiry strictly increases, and its count goes up by one.
   */
  lemma RenewExtendsByDuration(keys: seq<Record>, key: string, username: string, now: int)
    requires Renew(keys, key, username, now).Renewed?
    requires ValidDuration(keys[Renew(keys, key, username, now).index].duration)
    ensures var r := Renew(keys, key, username, now);
            var t := keys[r.index];
            var hours := ParseInt(t.duration).value;
            && IntToDecimal(hours) == t.duration && hours > 0
            && r.updated.expiresAt.value == t.expiresAt.value + HoursInMillis(hours)
            && r.updated.expiresAt.value > t.expiresAt.value
            && r.updated.renewCount.value > PriorCount(t)
  {
    var r := Renew(keys, key, username, now);
    var t := keys[r.index];
    WhitelistedHours(t.duration);
  }

  /** Renewal keeps every record in the shape generation produces. */
  lemma RenewKeepsWellFormed(keys: seq<Record>, key: string, username: string, now: int)
    requires AllWellFormed(keys)
    requires Renew(keys, key, username, now).Renewed?
    ensures var r := Renew(keys, key, username, now);
            AllWellFormed(keys[r.index := r.updated])
  {
    var r := Renew(keys, key, username, now);
    assert WellFormed(keys[r.index]);
  }

  /**
   * Renewal keeps every user to at most one active record: the renewed
   * record was active and stays active, and nothing else changes.
   */
  lemma RenewKeepsOneActivePerUser(keys: seq<Record>, key: string, username: string, now: int)
    requires OneActivePerUser(keys, now)
    requires Renew(keys, key, username, now).Renewed?
    ensures var r := Renew(keys, key, username, now);
            OneActivePerUser(keys[r.index := r.updated], now)
  {
    var r := Renew(keys, key, username, now);
    var keys' := keys[r.index := r.updated];
    forall i | 0 <= i < |keys|
      ensures keys'[i].username == keys[i].username
      ensures IsActive(keys'[i], now) ==> IsActive(keys[i], now)
    {
    }
  }

  /** The whole request: both fields are required, then the file must exist. */
  function RenewRequest(content: Option<seq<Record>>, key: string, username: string, now: int): (r: RenewResult)
    ensures r == Failed(MissingField) <==> key == "" || username == ""
    ensures r == Failed(KeyFileMissing) <==> key != "" && username != "" && content.None?
    ensures r.Renewed? ==> content.Some? && r.index < |content.value|
    ensures key != "" && username != "" && content.Some? ==> r == Renew(content.value, key, username, now)
  {
    if key == "" || username == "" then Failed(MissingField)
    else if content.None? then Failed(KeyFileMissing)
    else Renew(content.value, key, username, now)
  }

  /**
   * The in-place update of `keys[keyIndex]` (its expiry, renewal time and
   * count); nothing else in the array changes.
   */
  method RenewInPlace(keys: array<Record>, key: string, username: string, now: int) returns (r: RenewResult)
    modifies keys
    ensures r == Renew(old(keys[..]), key, username, now)
    ensures r.Renewed? ==> keys[..] == old(keys[..])[r.index := r.updated]
    ensures r.Failed? ==> keys[..] == old(keys[..])
  {
    r := Renew(keys[..], key, username, now);
    if r.Renewed? {
      var i := r.index;
      keys[i] := Extend(keys[i], ParseInt(keys[i].duration).value, now);
      assert keys[..] == old(keys[..])[i := r.updated];
    }
  }

  /** The handler: check the fields, read keys.json, renew in place, write back. */
  method HandleRenew(file: KeyFile, key: string, username: string, now: int) returns (r: RenewResult)
    modifies file
    ensures r == RenewRequest(old(file.content), key, username, now)
    ensures r.Renewed? ==>
      && old(file.content).Some? && file.content == Some(old(file.content).value[r.index := r.updated])
      && file.revision == old(file.revision) + 1
    ensures r.Failed? ==> file.content == old(file.content) && file.revision == old(file.revision)
  {
    if key == "" || username == "" {
      return Failed(MissingField);
    }
    var doc := file.Fetch();
    if doc.None? {
      return Failed(KeyFileMissing);
    }
    var stored := doc.value.keys;
    var keys := new Record[|stored|](i requires 0 <= i < |stored| => stored[i]);
    assert keys[..] == stored;
    r := RenewInPlace(keys, key, username, now);
    if r.Renewed? {
      var saved := file.Replace(keys[..], Some(doc.value.sha));
      assert saved;
    }
  }
}

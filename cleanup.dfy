/**
 * The scheduled cleanup (api/cleanup.js): behind a shared-secret check,
 * drop every expired record and write the list back when anything was
 * dropped.
 */
module CleanupKeys {
  import opened Wrappers
  import opened Keys
  import opened Store

  datatype CleanupResponse =
    | Unauthorized
    | NoKeyFile(deletedCount: int)
    | Cleaned(deletedCount: int, remainingKeys: nat)

  /** The answer and the list written back to keys.json, if any. */
  datatype CleanupOutcome = CleanupOutcome(response: CleanupResponse, write: Option<seq<Record>>)

  /** The Authorization header must be exactly "Bearer " followed by the secret. */
  predicate Authorized(authorization: Option<string>, secret: string) {
    authorization == Some("Bearer " + secret)
  }

  /** A cleanup request against keys.json, whose content is None when the file is absent. */
  function Cleanup(authorization: Option<string>, secret: string, content: Option<seq<Record>>, now: int)
    : (r: CleanupOutcome)
    ensures r.response == Unauthorized <==> !Authorized(authorization, secret)
    ensures r.response == Unauthorized ==> r.write == None
    ensures Authorized(authorization, secret) && content.None? ==>
      r.response == NoKeyFile(0) && r.write == None
    ensures Authorized(authorization, secret) && content.Some? ==> r.response.Cleaned?
    ensures r.response.Cleaned? ==>
      && content.Some?
      && r.response.deletedCount >= 0
      && r.response.deletedCount + r.response.remainingKeys == |content.value|
      && r.response.deletedCount == CountExpired(content.value, now)
    ensures r.write.Some? <==> r.response.Cleaned? && r.response.deletedCount > 0
    ensures r.write.Some? ==>
      && r.write.value == FilterActive(content.value, now)
      && |r.write.value| == r.response.remainingKeys
      && forall i :: 0 <= i < |content.value| && content.value[i].expiresAt.None? ==>
           content.value[i] in r.write.value
  {
    if !Authorized(authorization, secret) then CleanupOutcome(Unauthorized, None)
    else if content.None? then CleanupOutcome(NoKeyFile(0), None)
    else
      var keys := content.value;
      var activeKeys := FilterActive(keys, now);
      var deletedCount := |keys| - |activeKeys|;
      FilterActiveCount(keys, now);
      CleanupOutcome(Cleaned(deletedCount, |activeKeys|), if deletedCount > 0 then Some(activeKeys) else None)
  }

  /** The list a cleanup leaves in keys.json. */
  function Remaining(content: seq<Record>, out: CleanupOutcome): (left: seq<Record>) {
    if out.write.Some? then out.write.value else content
  }

  /**
   * Cleanup is idempotent: run again at the same time on what it left, it
   * deletes nothing, writes nothing and leaves the same list, which is the
   * active records of the original.
   */
  lemma CleanupIdempotent(authorization: Option<string>, secret: string, keys: seq<Record>, now: int)
    requires Authorized(authorization, secret)
    ensures var left := Remaining(keys, Cleanup(authorization, secret, Some(keys), now));
            && left == FilterActive(keys, now)
            && Cleanup(authorization, secret, Some(left), now) == CleanupOutcome(Cleaned(0, |left|), None)
  {
    var out := Cleanup(authorization, secret, Some(keys), now);
    if out.write.None? {
      FilterActiveKeepsAll(keys, now);
    }
    FilterActiveIdempotent(keys, now);
  }

  /** The handler: check the secret before touching keys.json, then clean up. */
  method HandleCleanup(file: KeyFile, authorization: Option<string>, secret: string, now: int)
    returns (response: CleanupResponse)
    modifies file
    ensures var out := Cleanup(authorization, secret, old(file.content), now);
            && response == out.response
            && file.content == (if out.write.Some? then out.write else old(file.content))
            && file.revision == old(file.revision) + (if out.write.Some? then 1 else 0)
  {
    if !Authorized(authorization, secret) {
      return Unauthorized;
    }
    var doc := file.Fetch();
    var out := Cleanup(authorization, secret, if doc.Some? then Some(doc.value.keys) else None, now);
    if out.write.Some? {
      var saved := file.Replace(out.write.value, Some(doc.value.sha));
      assert saved;
    }
    response := out.response;
  }
}

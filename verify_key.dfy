/**
 * Verification of a key (api/verify-key.js): expired records are pruned
 * first (and the pruned list written back when anything was removed),
 * then the key and username are looked up in what remains.
 */
module VerifyKey {
  import opened Wrappers
  import opened Keys
  import opened Store

  /** The answer; only Valid carries `valid: true`. */
  datatype VerifyResponse =
    | MissingField
    | NoKeysRegistered
    | InvalidOrMismatch   // one answer for a wrong key and a wrong username
    | Expired
    | Valid(username: string, duration: string, createdAt: int, expiresAt: Option<int>)

  /** The answer and the list written back to keys.json, if any. */
  datatype VerifyOutcome = VerifyOutcome(response: VerifyResponse, write: Option<seq<Record>>)

  predicate HasActiveMatch(keys: seq<Record>, key: string, username: string, now: int) {
    exists i :: 0 <= i < |keys| && Matches(KeyOf(key, username), keys[i]) && IsActive(keys[i], now)
  }

  /** A verify request against keys.json, whose content is None when the file is absent. */
  function Verify(content: Option<seq<Record>>, key: string, username: string, now: int): (r: VerifyOutcome)
    ensures r.response == MissingField <==> key == "" || username == ""
    ensures r.response == NoKeysRegistered <==> key != "" && username != "" && content.None?
    ensures r.write.Some? <==>
      key != "" && username != "" && content.Some? && CountExpired(content.value, now) > 0
    ensures r.write.Some? ==>
      r.write.value == FilterActive(content.value, now)
      && |content.value| - |r.write.value| == CountExpired(content.value, now)
    ensures r.response != Expired
    ensures r.response.Valid? <==>
      key != "" && username != "" && content.Some? && HasActiveMatch(content.value, key, username, now)
    ensures r.response.Valid? ==>
      var found := Find(FilterActive(content.value, now), KeyOf(key, username));
      && found.Some? && r.response.username == username
      && r.response == Valid(found.value.username, found.value.duration, found.value.createdAt, found.value.expiresAt)
  {
    if key == "" || username == "" then VerifyOutcome(MissingField, None)
    else if content.None? then VerifyOutcome(NoKeysRegistered, None)
    else
      var keys := content.value;
      var activeKeys := FilterActive(keys, now);
      var pruned := |activeKeys| < |keys|;
      var current := if pruned then activeKeys else keys;
      assert current == activeKeys && |keys| - |activeKeys| == CountExpired(keys, now) by {
        FilterActiveCount(keys, now);
        if !pruned { FilterActiveKeepsAll(keys, now); }
      }
      var found := Find(current, KeyOf(key, username));
      var response :=
        if found.None? then InvalidOrMismatch
        else if found.value.expiresAt.Some? && found.value.expiresAt.value < now then Expired
        else Valid(found.value.username, found.value.duration, found.value.createdAt, found.value.expiresAt);
      VerifyOutcome(response, if pruned then Some(activeKeys) else None)
  }

  /**
   * The handler: read keys.json, write the pruned list back under the
   * revision read when something expired, and answer.
   */
  method HandleVerify(file: KeyFile, key: string, username: string, now: int) returns (response: VerifyResponse)
    modifies file
    ensures var out := Verify(old(file.content), key, username, now);
            && response == out.response
            && file.content == (if out.write.Some? then out.write else old(file.content))
            && file.revision == old(file.revision) + (if out.write.Some? then 1 else 0)
  {
    var doc := file.Fetch();
    var out := Verify(if doc.Some? then Some(doc.value.keys) else None, key, username, now);
    if out.write.Some? {
      var saved := file.Replace(out.write.value, Some(doc.value.sha));
      assert saved;
    }
    response := out.response;
  }
}

/**
 * Generation of a new key for a user (api/generate-key.js): request
 * validation, the expiry and its human-readable label, the refusal when
 * the user still holds an active key, and the append of the new record.
 * The random key itself is an input.
 */
module GenerateKey {
  import opened Wrappers
  import opened Text
  import opened Keys
  import opened Store

  predicate IsUsernameChar(c: char) {
    'A' <= c <= 'Z' || 'a' <= c <= 'z' || '0' <= c <= '9' || c == '_'
  }

  /** The pattern ^[A-Za-z0-9_]{3,20}$. */
  predicate ValidUsername(u: string) {
    3 <= |u| <= 20 && forall i :: 0 <= i < |u| ==> IsUsernameChar(u[i])
  }

  /** The label of a timed duration: whole hours below a day, whole days from there on. */
  function DurationLabel(hours: int): (text: string) {
    if hours < 24 then
      IntToDecimal(hours) + " Hour" + (if hours > 1 then "s" else "")
    else
      var days := hours / 24;
      IntToDecimal(days) + " Day" + (if days > 1 then "s" else "")
  }

  /**
   * What a label says: `parseInt` reads back the count (hours below 24,
   * whole days otherwise), the unit is Hour exactly below 24 hours, and
   * the unit is plural exactly when the count exceeds one.
   */
  lemma {:induction false} LabelMeaning(hours: int)
    ensures var count := if hours < 24 then hours else hours / 24;
            var text := DurationLabel(hours);
            && ParseInt(text) == Some(count)
            && |text| > 0 && (text[|text| - 1] == 's' <==> count > 1)
            && ('H' in text <==> hours < 24)
            && ('D' in text <==> hours >= 24)
  {
    if hours < 24 {
      LabelParts(hours, " Hour", if hours > 1 then "s" else "");
    } else {
      LabelParts(hours / 24, " Day", if hours / 24 > 1 then "s" else "");
    }
  }

  lemma {:induction false} LabelParts(count: int, word: string, plural: string)
    requires word == " Hour" || word == " Day"
    requires plural == if count > 1 then "s" else ""
    ensures var text := IntToDecimal(count) + word + plural;
            && ParseInt(text) == Some(count)
            && |text| > 0 && (text[|text| - 1] == 's' <==> count > 1)
            && ('H' in text <==> word == " Hour")
            && ('D' in text <==> word == " Day")
  {
    var n := IntToDecimal(count);
    var tail := word + plural;
    assert n + word + plural == n + tail;
    ParseIntOfDecimal(count, tail);
    UnitLetters(n, word, plural);
  }

  lemma {:induction false} UnitLetters(n: string, word: string, plural: string)
    requires forall k :: 0 <= k < |n| ==> IsDigit(n[k]) || n[k] == '-'
    requires word == " Hour" || word == " Day"
    requires plural == "s" || plural == ""
    ensures var text := n + word + plural;
            && |text| > 0 && (text[|text| - 1] == 's' <==> plural == "s")
            && ('H' in text <==> word == " Hour")
            && ('D' in text <==> word == " Day")
  {
    var tail := word + plural;
    var text := n + word + plural;
    assert text == n + tail;
    assert 'H' !in n && 'D' !in n;
    assert 'H' in text <==> 'H' in tail;
    assert 'D' in text <==> 'D' in tail;
    assert text[|text| - 1] == tail[|tail| - 1];
    if word == " Hour" {
      assert tail[1] == 'H';
      assert forall k :: 0 <= k < |tail| ==> tail[k] != 'D';
    } else {
      assert tail[1] == 'D';
      assert forall k :: 0 <= k < |tail| ==> tail[k] != 'H';
    }
  }

  datatype GenerateError =
    | MissingField
    | InvalidUsername
    | InvalidDuration
    | InvalidDate      // the expiry date could not be rendered (a RangeError)
    | ActiveKeyExists(key: string, expiresAt: Option<int>, duration: string)

  datatype GenerateResult = Rejected(error: GenerateError) | Created(entry: Record, durationText: string)

  predicate Acceptable(username: string, duration: string) {
    username != "" && duration != "" && ValidUsername(username) && ValidDuration(duration)
  }

  predicate HasActiveKey(keys: seq<Record>, username: string, now: int) {
    exists i :: 0 <= i < |keys| && keys[i].username == username && IsActive(keys[i], now)
  }

  /**
   * The outcome of a generate request against the stored records `keys`.
   * A missing field is the empty string.
   */
  function Generate(keys: seq<Record>, username: string, duration: string, key: string, now: int): (r: GenerateResult)
    ensures r == Rejected(MissingField) <==> username == "" || duration == ""
    ensures r == Rejected(InvalidUsername) <==> username != "" && duration != "" && !ValidUsername(username)
    ensures r == Rejected(InvalidDuration) <==>
      username != "" && duration != "" && ValidUsername(username) && !ValidDuration(duration)
    ensures r != Rejected(InvalidDate)
    ensures r.Rejected? && r.error.ActiveKeyExists? <==>
      Acceptable(username, duration) && HasActiveKey(keys, username, now)
    ensures r.Rejected? && r.error.ActiveKeyExists? ==>
      var i := FindIndex(keys, ActiveOf(username, now));
      0 <= i && r.error == ActiveKeyExists(keys[i].key, keys[i].expiresAt, keys[i].duration)
    ensures r.Created? ==>
      && r.entry.key == key && r.entry.username == username && r.entry.duration == duration
      && r.entry.createdAt == now && r.entry.renewCount == Some(0)
      && r.entry.lastRenewedAt == None && r.entry.renewedAt == None
      && WellFormed(r.entry) && IsActive(r.entry, now)
    ensures r.Created? && duration == "permanent" ==> r.entry.expiresAt == None && r.durationText == "Permanent"
    ensures r.Created? && duration != "permanent" ==>
      && ParseInt(duration).Some?
      && r.entry.expiresAt == Some(now + HoursInMillis(ParseInt(duration).value))
      && r.durationText == DurationLabel(ParseInt(duration).value)
  {
    if username == "" || duration == "" then Rejected(MissingField)
    else if !ValidUsername(username) then Rejected(InvalidUsername)
    else if !ValidDuration(duration) then Rejected(InvalidDuration)
    else
      assert duration != "permanent" ==> ParseInt(duration).Some? && ParseInt(duration).value > 0 by {
        if duration != "permanent" { WhitelistedHours(duration); }
      }
      if duration != "permanent" && ParseInt(duration).None? then Rejected(InvalidDate)
      else
        var expiresAt := if duration == "permanent" then None else Some(now + HoursInMillis(ParseInt(duration).value));
        var durationText := if duration == "permanent" then "Permanent" else DurationLabel(ParseInt(duration).value);
        var i := FindIndex(keys, ActiveOf(username, now));
        if i != -1 then Rejected(ActiveKeyExists(keys[i].key, keys[i].expiresAt, keys[i].duration))
        else Created(Record(key, username, duration, now, expiresAt, Some(0), None, None), durationText)
  }

  /** Generation keeps every stored record in the shape generation produces. */
  lemma GenerateKeepsWellFormed(keys: seq<Record>, username: string, duration: string, key: string, now: int)
    requires AllWellFormed(keys)
    requires Generate(keys, username, duration, key, now).Created?
    ensures AllWellFormed(keys + [Generate(keys, username, duration, key, now).entry])
  {
    var keys' := keys + [Generate(keys, username, duration, key, now).entry];
    assert forall i :: 0 <= i < |keys| ==> keys'[i] == keys[i];
  }

  /** Generation keeps every user to at most one active record. */
  lemma GenerateKeepsOneActivePerUser(keys: seq<Record>, username: string, duration: string, key: string, now: int)
    requires OneActivePerUser(keys, now)
    requires Generate(keys, username, duration, key, now).Created?
    ensures OneActivePerUser(keys + [Generate(keys, username, duration, key, now).entry], now)
  {
    var e := Generate(keys, username, duration, key, now).entry;
    var keys' := keys + [e];
    forall i, j | 0 <= i < j < |keys'| && keys'[i].username == keys'[j].username
      ensures !(IsActive(keys'[i], now) && IsActive(keys'[j], now))
    {
      if j == |keys| {
        assert keys'[i] == keys[i];
        assert !(keys[i].username == username && IsActive(keys[i], now));
      } else {
        assert keys'[i] == keys[i] && keys'[j] == keys[j];
      }
    }
  }

  /**
   * The handler: validate the request, read keys.json (absent means no records), decide, append
   * the new record with `push` and write the list back under the revision
   * that was read. With no other writer in between the write succeeds.
   */
  method HandleGenerate(file: KeyFile, username: string, duration: string, key: string, now: int)
    returns (r: GenerateResult)
    modifies file
    ensures r == Generate(StoredKeys(old(file.content)), username, duration, key, now)
    ensures r.Created? ==>
      file.content == Some(StoredKeys(old(file.content)) + [r.entry]) && file.revision == old(file.revision) + 1
    ensures r.Rejected? ==> file.content == old(file.content) && file.revision == old(file.revision)
  {
    if !Acceptable(username, duration) {
      // The field, username and duration checks answer before keys.json is read.
      r := Generate([], username, duration, key, now);
      return;
    }
    var doc := file.Fetch();
    var keys := if doc.Some? then doc.value.keys else [];
    r := Generate(keys, username, duration, key, now);
    if r.Created? {
      keys := keys + [r.entry];
      var saved := file.Replace(keys, if doc.Some? then Some(doc.value.sha) else None);
      assert saved;
    }
  }
}

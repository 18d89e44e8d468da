# Key lifecycle of roblox-key-system

This project models the key-lifecycle engine behind the four HTTP handlers of
the key system: generate, renew, verify and cleanup. Each handler reads
`keys.json` (a list of key records), applies one rule to the list in memory,
and writes the list back.

- A record is **active** when it has no `expiresAt` (a permanent key) or when
  `expiresAt > now`. The same test appears in three places.
- **Generate** validates the username and the duration, computes the expiry
  and the duration label, and refuses a user who already has an active key.
  Otherwise it appends one fresh record.
- **Renew** finds the record with this key and username. It refuses
  permanent keys, expired keys and keys with less than an hour left.
  Otherwise it moves `expiresAt` forward by the key's own duration and bumps
  `renewCount`.
- **Verify** prunes expired records first and writes the pruned list back
  when anything was removed. It then looks up the key and username in the
  pruned list.
- **Cleanup** checks the `Authorization` header against the shared secret,
  drops expired records, and reports how many were deleted and how many
  remain.

Modules, one per concern:

- `Wrappers`: the Option type.
- `Text`: how JavaScript's `parseInt` reads a string and how `${n}` renders
  an integer.
- `Keys`: the record, the active test, `filter`, `findIndex` and `find`, and
  the store-wide invariants.
- `Store`: `keys.json` as a `KeyFile` object holding its content and a
  revision token. This plays the role of the GitHub `sha`.
- `GenerateKey`, `RenewKey`, `VerifyKey` and `CleanupKeys`: one module per
  handler. Each has a pure decision function and a handler method that reads
  the file, decides and writes.
- `Lifecycle`: properties that span several requests.

Modelling choices:

- Time is an integer number of milliseconds. Each request reads the clock
  once, as the parameter `now`.
- `expiresAt` is `Option<int>`.
- `duration` is kept in its string form, because renewal re-parses it with
  `parseInt`.
- An absent or empty request field is the empty string.
- The random key is a parameter of generation.
- Renewal updates one element of an `array` in place, as
  `keys[keyIndex].… = …` does.
- Generation appends to the list before writing it.

Two behaviours of the code differ from what one would expect of it; the
model follows the code:

- **Verify never answers "expired".** One would expect a 24-hour key checked
  25 hours after its generation to be reported as "expired". The handler filters
  expired records out before the lookup and then searches the filtered
  list. A lapsed key is therefore not found, and the answer is "invalid key
  or username mismatch". The second expiry test in the handler is
  unreachable. `Verify` states this (`r.response != Expired`), and so do
  `Lifecycle.LapsedKeyReadsAsInvalid` and `Lifecycle.AliceDay`.
- **Renewal writes `renewedAt`.** `lastRenewedAt`, which generation sets to
  null, is never updated. A `Record` carries both fields.

Three definitions are the reference the contracts are stated against; they
carry no contract of their own and so have no row below:

- `Keys.IsActive` is the active test: no `expiresAt`, or an expiry later than
  `now` (api/generate-key.js:179-182, api/verify-key.js:95-98,
  api/cleanup.js:78-84).
- `GenerateKey.ValidUsername` is `/^[A-Za-z0-9_]{3,20}$/`: 3 to 20
  characters, each a letter, a digit or `_` (api/generate-key.js:98).
- `GenerateKey.DurationLabel` is the duration text: `h Hour(s)` below 24
  hours, otherwise `d Day(s)` with `d` the whole days (api/generate-key.js:144-149).

## Model

| member | source | states |
|---|---|---|
| Text.ParseIntOfNumeral | api/renew-key.js:125 | `parseInt` of white space, an optional sign, digits (leading zeros allowed) and text not starting with a digit is the value of the digits, negated exactly for '-'; the exception is a lone "0" followed by "x" or "X", which JavaScript reads as hexadecimal and the model does not |
| Text.ParseIntNaN | api/generate-key.js:139 | `parseInt` is NaN when, after the white space and an optional sign, the text does not start with a digit; after a sign that includes a second sign or white space; text that starts with non-ASCII white space (such as U+00A0), which JavaScript skips, is NaN in the model |
| Text.ParseIntOfDecimal | api/generate-key.js:139 | `parseInt` reads back any rendered integer followed by a non-digit suffix, except 0 followed by "x" or "X", which JavaScript reads as hexadecimal and the model does not |
| Text.DigitsValueOfDecimal | api/generate-key.js:145 | the decimal rendering of a natural number has that number as its value |
| Keys.WhitelistedHours | api/generate-key.js:106-107 | every non-permanent whitelisted duration parses to 1, 24, 72, 168 or 720, and that number renders back as the same string |
| Keys.ExpiryIsFinal | api/cleanup.js:78-84 | a record inactive at one time stays inactive at every later time |
| Keys.FilterActive | api/verify-key.js:95-98 | the prune keeps exactly the records active at `now`, so permanent records are never dropped, and is never longer than its input |
| Keys.FilterActiveMultiset | api/cleanup.js:78-84 | each active record keeps its multiplicity and each expired one disappears entirely |
| Keys.FilterActiveAppend | api/cleanup.js:78-84 | the filter distributes over concatenation, so it keeps the original order |
| Keys.FilterActiveOfActive | api/verify-key.js:95-98 | a list of active records is left as it is |
| Keys.FilterActiveIdempotent | api/cleanup.js:78-84 | filtering twice at the same time is filtering once |
| Keys.FilterActiveKeepsAll | api/verify-key.js:101-113 | a filter that removes nothing returns its input unchanged, so with no write-back the list searched is the pruned list |
| Keys.FilterActiveCount | api/cleanup.js:86 | kept plus expired records make up the initial count |
| Keys.FindIndex | api/renew-key.js:87 | `findIndex` returns the first matching index, or -1 exactly when nothing matches |
| Keys.Find | api/verify-key.js:117 | `find` returns the first matching element of the list, or nothing exactly when no element matches |
| Keys.FindSkip | api/verify-key.js:117 | a leading non-matching record does not change the result of `find` |
| Keys.FindFirstActive | api/verify-key.js:95-117 | looking up in the pruned list finds the first record that both matches and is active |
| Keys.FindNoActive | api/verify-key.js:95-124 | with no active match, the lookup in the pruned list finds nothing |
| Keys.FilterActiveWellFormed | api/verify-key.js:95-98 | pruning keeps every record well formed: a whitelisted duration, with no expiry exactly when permanent |
| Keys.FilterActiveKeepsOneActivePerUser | api/verify-key.js:95-98 | the prune shared by verify and cleanup keeps at most one active record per user |
| Keys.OneActivePerUserLater | api/generate-key.js:175-185 | "at most one active record per user" stays true as time passes |
| Store.KeyFile.Fetch | api/cleanup.js:2-18 | a read returns nothing exactly when the file is absent, and otherwise returns the records with the current revision |
| Store.KeyFile.Replace | api/cleanup.js:21-39 | a write succeeds exactly when it names the current revision, or names none and creates the file; a refused write changes nothing |
| GenerateKey.LabelMeaning | api/generate-key.js:143-149 | the label's number is the hours below 24 and whole days otherwise; its unit is Hour exactly below 24 and Day from 24 on; it is plural exactly when that number exceeds one |
| GenerateKey.Generate | api/generate-key.js:88-212 | in order of checking: missing field; invalid username (3-20 of [A-Za-z0-9_]); invalid duration; refusal exactly when the user has an active record, reporting the key, expiry and duration of the first one. Otherwise a record with the given key, username and duration, created now, renewCount 0, no renewal dates, active and well formed, expiring `now + hours*3600000` (or never, labelled "Permanent") |
| GenerateKey.GenerateKeepsWellFormed | api/generate-key.js:202-212 | appending the generated record keeps every record well formed |
| GenerateKey.GenerateKeepsOneActivePerUser | api/generate-key.js:175-212 | appending the generated record keeps at most one active record per user |
| GenerateKey.HandleGenerate | api/generate-key.js:88-212 | the file afterwards holds the old records with exactly the new one appended, at the next revision, or is untouched on a refusal; an absent file counts as no records |
| RenewKey.RoundedMinutes | api/renew-key.js:120 | the reported minutes are the remaining time rounded to the nearest minute |
| RenewKey.Extend | api/renew-key.js:125-131 | the expiry moves by the given hours, `renewedAt` becomes now, the count goes up by one from its old value (0 when missing), and nothing else changes |
| RenewKey.Renew | api/renew-key.js:86-131 | NotFound exactly when no record has this key and username; a renewal targets the first such record, is timed, had at least an hour left, and is that record extended by its own parsed duration |
| RenewKey.RenewRefusals | api/renew-key.js:97-122 | for a found record: NotRenewable exactly when it has no expiry or its duration is "permanent"; AlreadyExpired exactly when its expiry is before now; TooCloseToExpiry exactly when less than an hour is left (at most 60 rounded minutes) |
| RenewKey.RenewAccepts | api/renew-key.js:97-131 | a found target is renewed exactly when it is timed, has at least an hour left and its duration parses |
| RenewKey.NearExpiryRefused | api/renew-key.js:105-122 | under an hour left is always refused, by exactly one of the two checks; an expiry equal to now passes the expired check and is refused with 0 minutes |
| RenewKey.RenewExtendsByDuration | api/renew-key.js:124-131 | for a whitelisted duration the expiry moves forward by exactly that many hours, so it strictly increases, and the count strictly increases |
| RenewKey.RenewKeepsWellFormed | api/renew-key.js:128-131 | the renewed list stays well formed |
| RenewKey.RenewKeepsOneActivePerUser | api/renew-key.js:128-131 | renewal keeps at most one active record per user |
| RenewKey.RenewRequest | api/renew-key.js:57-93 | a missing field is refused first, an absent file next; otherwise the answer is the renewal decision over the stored list, whose index lies inside that list |
| RenewKey.RenewInPlace | api/renew-key.js:86-131 | the array afterwards equals the old one with only the target element replaced by its renewal, or is unchanged on a refusal |
| RenewKey.HandleRenew | api/renew-key.js:73-143 | the file afterwards holds the stored list with only the target replaced, at the next revision, or is untouched on a refusal |
| VerifyKey.Verify | api/verify-key.js:57-146 | missing field and absent file are answered first; the pruned list is written exactly when something expired, and the write is the active records; Expired is never answered; Valid exactly when an active record has this key and username, with the first such record's username, duration, createdAt and expiresAt |
| VerifyKey.HandleVerify | api/verify-key.js:77-146 | the file afterwards holds the pruned list when something expired, and is otherwise untouched |
| CleanupKeys.Cleanup | api/cleanup.js:44-106 | Unauthorized exactly when the header is not "Bearer " + secret, with no write; an absent file gives deletedCount 0; an authorized request on an existing file is Cleaned, where deleted is the number of expired records and deleted plus remaining is the initial count; a write happens exactly when deleted > 0, holding the active records and every permanent one |
| CleanupKeys.CleanupIdempotent | api/cleanup.js:78-86 | a second cleanup at the same time on what the first left deletes 0, writes nothing and leaves the same list |
| CleanupKeys.HandleCleanup | api/cleanup.js:44-106 | an unauthorized request leaves the file untouched; otherwise the file afterwards holds the active records when something expired |
| Lifecycle.NoEarlierActive | api/generate-key.js:175-185 | after a successful generation, no other record of that user is active then or later |
| Lifecycle.GenerateThenVerify | api/verify-key.js:117-146 | a freshly generated key verifies, with its creation data, at any time from its creation while it is active, whatever its non-empty key string |
| Lifecycle.SecondGenerateRejected | api/generate-key.js:175-198 | while the new key is active, generating again for the same user is refused and reports that key, its expiry and its duration |
| Lifecycle.LapsedKeyReadsAsInvalid | api/verify-key.js:95-135 | from its expiry on, a generated timed key reads as invalid or mismatched, not expired, whatever its non-empty key string, and the prune that drops it is written back |
| Lifecycle.RenewThenVerify | api/verify-key.js:117-146 | a renewed key verifies with its new expiry until that expiry |
| Lifecycle.CleanupPreservesVerify | api/verify-key.js:95-146 | verifying after a cleanup gives the same answer as before it, and writes nothing |
| Lifecycle.VerifyPruneIsCleanup | api/verify-key.js:95-113 | verify's write-back is exactly what an authorized cleanup at the same time writes |
| Lifecycle.OneDayLabel | api/generate-key.js:146-148 | 24 hours are labelled "1 Day" |
| Lifecycle.TwentyFourHours | api/generate-key.js:139 | "24" parses to 24 hours |
| Lifecycle.AliceGenerates | api/generate-key.js:135-212 | "alice" with "24" on an empty store gets a record created now, expiring 86400000 ms later, with count 0, labelled "1 Day" |
| Lifecycle.AliceVerifies | api/verify-key.js:117-146 | that record verifies with its own data 1 ms before its expiry |
| Lifecycle.AliceLapses | api/verify-key.js:95-124 | 25 hours after creation it reads as invalid and the store is pruned to empty |
| Lifecycle.AliceDay | api/generate-key.js:135-149 | "alice" with "24" on an empty store gets "1 Day" and an expiry 86400000 ms on; the key verifies until just before then, and 25 hours after creation it reads as invalid and the store is pruned to empty |
| Lifecycle.FiftyMinutesLeft | api/renew-key.js:115-122 | renewal with 50 minutes left is refused, citing 50 minutes |

## Left out

- The GitHub contents API is reduced to one `KeyFile` object with content and a revision token. This covers `getGitHubFile` and `updateGitHubFile`, the HTTP requests, base64, JSON parsing and serialisation, and commit messages.
- Unchecked write responses and the read error that generation swallows are left out: a write with the revision just read always succeeds in the model.
- Concurrent requests and optimistic-concurrency conflicts are left out. There is no retry loop in the code to model.
- `generateKey` (`crypto.randomBytes`) is left out. The key is an input, and its randomness and uniqueness are not modelled; no lemma depends on uniqueness. The source's keys are 32 upper-case hexadecimal characters (api/generate-key.js:7); the lemmas about generated keys use only that a key is non-empty.
- `Date` parsing, ISO-8601 formatting and the date range limit are left out, and so is `toLocaleString('id-ID')` in messages. Times are integer milliseconds. A NaN duration, which makes `toISOString` throw, becomes the InvalidDate error. No whitelisted duration reaches it.
- Generation reads the clock three times (expiry, duplicate check, createdAt). The model uses one `now`.
- `hoursRemaining` is float division in renewal. The model uses the integer comparison `remaining < 3600000` and rounds integer milliseconds to minutes.
- Text.ParseInt: leaves out the `0x` prefix, non-ASCII whitespace and the loss of precision in very long numerals.
- Text.IntToDecimal: matches `${n}` only for magnitudes below 1e21; from there on JavaScript writes the exponent form. Durations and timestamps stay far below that bound.
- Durations sent as JSON numbers are left out. `duration.toString()` passes the whitelist check, but `duration === 'permanent'` and the stored value differ for them. The model takes the string form.
- CORS headers, HTTP method checks, environment-variable checks, status codes, console logging and the message texts are left out. The field checks treat a missing field as the empty string. An unset CRON_SECRET is the secret "undefined", which the model does not single out.
- All four handlers treat an existing file with empty content as an absent one (generate-key.js:160, renew-key.js:77, verify-key.js:81, cleanup.js:64), and in generation `sha` then stays null; the model's file is either absent or holds a list, and does not represent the empty-content case.

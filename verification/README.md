# ssh-auto-update: the credential vault, modelled in Dafny

ssh-auto-update keeps SSH credentials for a fleet of Linux hosts in `connections.json`. That
file is a JSON list of blobs. Each blob is one connection record (user, ip, port, password,
passwordless-sudo answer, package manager), produced in four steps:

1. `json.dumps` the record;
2. encode the text as UTF-8;
3. encrypt it with Fernet under a key that PBKDF2-HMAC-SHA256 derives from a passphrase;
4. wrap the token in standard base64.

The model covers:

- that codec;
- the operations that read and rewrite the vault: add, the import from `list.json`, edit and
  remove;
- the smaller rules around them: listing, the log tail, and the sudo-password guard.

Modules, one per file:

- `Basics` (`basics.dfy`): `Option`, bytes, ASCII.
- `Base64` (`base64.dfy`): the standard and URL-safe alphabets of section 4 and section 5 of
  RFC 4648, with their round trips.
- `Utf8` (`utf8.dfy`): UTF-8 encoding and a strict decoder, with the ASCII round trip.
- `Json` (`json.dfy`): `json.dumps` and `json.loads` for the flat objects the program stores.
  - Values are strings, integers, booleans and null.
  - A record is an association list, so insertion order is kept as Python's `dict` keeps it.
  - Strings are escaped as `json.dumps` escapes them with `ensure_ascii`, surrogate pairs
    included.
  - The full round trip `Loads(Dumps(d)) == Some(d)` is proved.
  - `decrypt_credentials` turns every apostrophe into a double quote before parsing. Two
    families of records with an apostrophe in a string value are proved to go wrong:
    - a value `a'b`, where `b` does not start with whitespace, `,` or `}`, makes parsing fail;
    - a value `a', 'k2': 'v` parses without error as a different record, with the value cut
      to `a` and a member `k2` holding `v` added after it.
- `Crypto` (`crypto.dfy`): `derive_key`, `encrypt_credentials` and `decrypt_credentials`.
  - PBKDF2 and Fernet are library code, so they are parameters of the model.
  - What the vault needs of Fernet is stated as two hypotheses on that parameter:
    - `Sound`: a token opens under its own key;
    - `Authenticated`: a token does not open under another key.
  - `ToyFernet` shows that the two hypotheses can hold together.
  - `Codec` packages decryption and encryption under one key. `RecordCodecFaithful` proves that
    the real codec has the two properties the vault lemmas assume of a codec.
- `Vault` (`vault.dfy`): `connections.json` as the class `ConnectionsFile`.
  - Each method updates the file's state the way one program operation does.
  - Each method is proved equal to a function of the old state: `AppendOutcome`,
    `AddOutcome`, `RemoveOutcome`, `EditOutcome` and `ImportOutcome`.
  - The import runs `loop_add` as written, log line included. `IntendedPlan` is the import
    with that log line corrected.
  - Lemmas about those functions state what each operation does to the decrypted records.
  - How an operation ends is a `Status`: normally, after a printed error, through `exit()`, or
    with an uncaught exception.
- `Console` (`console.dfy`): `read_log`, the "Passwordless sudo" column and the listing of
  `list_connections`, and the guard of `update_system` / `test_connection`.

Behaviour of the code that the model keeps:

- `edit_credentials` re-encrypts and rewrites only the slot it edits. The other blobs stay
  byte for byte as they were.
- When the host is not found, `edit_credentials` still sets the attribute on the LAST record
  and writes it (`EditFallsThroughToLast`).
- A missing vault file is empty for add and import, but `edit_credentials` then crashes, with
  `connection` unbound.

## Model

| member | source | states |
|---|---|---|
| Base64.Encode | app.py:28 | the encoding has a length that is a multiple of 4, and is non-empty for non-empty input |
| Base64.DecodeGroup | app.py:41 | a 4-character group decodes to one to three bytes |
| Base64.SymbolRoundTrip | app.py:35 | each 6-bit value's symbol decodes back to it, and no symbol is the pad character |
| Base64.EncodeToStandard | app.py:28 | the URL-safe encoding is the standard one with `-`/`_` in place of `+`/`/` |
| Base64.GroupRoundTrip | app.py:35 | three bytes survive a standard encode then decode of their group |
| Base64.Final1RoundTrip | app.py:35 | a one-byte final group (`xx==`) decodes back to its byte |
| Base64.Final2RoundTrip | app.py:35 | a two-byte final group (`xxx=`) decodes back to its bytes |
| Base64.DecodeEncode | app.py:35 | `b64decode(b64encode(b)) == b` for every byte string |
| Base64.UrlsafeDecodeEncode | app.py:28 | URL-safe decoding inverts URL-safe encoding |
| Utf8.EncodeChar | app.py:19 | a character encodes to 1 to 4 bytes, and an ASCII character to its own code |
| Utf8.DecodeFirst | app.py:43 | a decoded character consumes between 1 and the available number of bytes |
| Utf8.AsciiRoundTrip | app.py:43 | ASCII text decodes back from its encoding |
| Json.Get | app.py:179 | `d[k]` succeeds exactly when `k` is a key, and then yields that key's member |
| Json.Set | app.py:211 | assignment adds exactly `k` to the keys, keeps keys distinct, and appends a new key at the end |
| Json.SetThenGet | app.py:211 | after `d[k] = v`, `d[k]` is `v` and every other key reads as before |
| Json.SetOverwrites | app.py:211 | assigning an existing key keeps the length and order, and replaces only that key's member |
| Json.Loads | app.py:44 | whatever parses has distinct keys |
| Json.HexNumber | app.py:44 | a parsed hex number is below 16 to the power of its digit count |
| Json.Hex4RoundTrip | app.py:33 | the four hex digits of a code unit parse back to it |
| Json.SurrogatePairParses | app.py:33 | a character beyond the BMP, escaped as a surrogate pair, parses back to itself |
| Json.EscapeCharParses | app.py:33 | every escaped character parses back to itself |
| Json.EscapeParses | app.py:33 | an escaped string followed by a quote parses back to the string, leaving the rest |
| Json.NatTextDigits | app.py:33 | the decimal text of `n` is digits with value `n` and no leading zero |
| Json.IntTextParses | app.py:33 | the text of any integer, sign included, parses back to it |
| Json.ValueParses | app.py:33 | every value's text parses back to the value |
| Json.MembersParse | app.py:33 | the members of a record parse back, in order, after whatever was already parsed |
| Json.LoadsDumps | app.py:33 | `json.loads(json.dumps(d)) == d` for every record with distinct keys |
| Json.ReplaceApostrophes | app.py:44 | `.replace("'", "\"")` keeps the length and changes exactly the apostrophes |
| Json.DumpsPlain | app.py:33 | `json.dumps` output is ASCII, and holds an apostrophe exactly when a key or string value does |
| Json.LoadsReplacedDumps | app.py:44 | with no apostrophe in the record, the replace-then-parse of `decrypt_credentials` gives the record back |
| Json.ApostropheBreaksLoads | app.py:44 | in a one-member record, a string value `a'b` whose `b` does not start with whitespace, `,` or `}` makes the replace-then-parse fail |
| Json.ApostropheInjectsMember | app.py:44 | a string value `a', 'k2': 'v` makes the replace-then-parse yield a different record: the value is cut to `a`, and `k2` is added holding `v` |
| Crypto.FernetKey | app.py:32 | `Fernet(key)` accepts exactly URL-safe base64 of 32 bytes |
| Crypto.DerivedKeyIsFernetKey | app.py:18-28 | a derived key is a valid Fernet key holding exactly the PBKDF2 output |
| Crypto.DerivedKeysDiffer | app.py:18-28 | passphrases with different PBKDF2 outputs derive different keys |
| Crypto.Decrypt | app.py:38-47 | a blob that decrypts was decrypted with a valid key, and gives a record with distinct keys |
| Crypto.DecryptEncrypt | app.py:31-47 | a record with distinct keys and no apostrophe decrypts to itself under the key that encrypted it |
| Crypto.ApostropheExits | app.py:44-47 | a one-member record whose value is `a'b`, with `b` not starting with whitespace, `,` or `}`, ends the program when it is decrypted |
| Crypto.InjectedRecordDecrypts | app.py:31-44 | a record whose value is `a', 'k2': 'v` decrypts without error to a different record: the value is cut to `a`, and `k2` holds `v` |
| Crypto.DecryptIntended | app.py:38-44 | decryption without the replacement succeeds only under a valid key, and yields a record with distinct keys |
| Crypto.IntendedDecryptEncrypt | app.py:31-44 | without the replacement, every record with distinct keys decrypts to itself, apostrophes included |
| Crypto.WrongKeyExits | app.py:38-47 | a blob decrypted under a different key ends the program |
| Crypto.ToyFernetMeetsHypotheses | app.py:8 | the Fernet hypotheses are satisfiable together |
| Crypto.Seal | app.py:31-35 | encryption fails exactly when the key is invalid |
| Crypto.Plaintext | app.py:40-43 | the base64, Fernet and UTF-8 steps succeed only under a valid key; `PlaintextOfEncrypt` proves they give back the `json.dumps` text of the record that was encrypted |
| Crypto.RecordCodecFaithful | app.py:31-47 | the codec of any key round-trips storable records, and a key that decrypts anything can encrypt |
| Vault.DecryptAll | app.py:197-198 | all blobs decrypt, in order, or the program exits |
| Vault.EncryptAll | app.py:253-254 | the list holds one blob per record in order, failing exactly when some record fails |
| Vault.DecryptAllEncryptAll | app.py:252-254 | re-encrypting storable records gives a list that decrypts back to them |
| Vault.DecryptAllUpdate | app.py:215 | replacing one blob by a blob of a new record replaces exactly that record |
| Vault.DecryptAllConcat | app.py:280 | the decryption of a concatenation is the concatenation of the decryptions |
| Vault.DecryptEach | app.py:230-231 | the decryption loop computes `DecryptAll` |
| Vault.EncryptEach | app.py:253-254 | the encryption loop computes `EncryptAll` |
| Vault.FirstMatch | app.py:241-244 | the search result is the first record whose "ip" equals the host, or absence, or the KeyError of an earlier record without "ip" |
| Vault.FirstMatchUnique | app.py:241-244 | the first match is unique |
| Vault.Locate | app.py:241-244 | the search loop computes `FirstMatch` |
| Vault.TrimStart | app.py:192 | `int()` removes exactly the leading whitespace: what is dropped is whitespace, and what is kept is a suffix that does not start with it |
| Vault.TrimEnd | app.py:192 | `int()` removes exactly the trailing whitespace: what is dropped is whitespace, and what is kept is a prefix that does not end with it |
| Vault.ParseInt | app.py:192 | `int()` succeeds only on text holding a digit |
| Vault.ParseIntText | app.py:192 | `int(str(i)) == i` for every integer |
| Vault.AppendOutcome | app.py:272-283 | `add()` writes nothing unless it completes |
| Vault.AddOutcome | app.py:342-360 | the add loop writes nothing unless it completes |
| Vault.RemoveOutcome | app.py:222-260 | `remove_connection` writes nothing unless it completes |
| Vault.EditValue | app.py:191-192 | the new value is `int(change)` for "port", failing with it, and the text otherwise |
| Vault.EditSlot | app.py:203-211 | the slot written is inside the vault |
| Vault.EditVault | app.py:203-219 | edit leaves the file unchanged unless it ends normally or with "not found" |
| Vault.EditOutcome | app.py:188-219 | `edit_credentials` leaves the file unchanged unless it ends normally or with "not found"; `EditOutcomeStored`, `EditReplacesMatch` and `EditFallsThroughToLast` state what it writes |
| Vault.AppendExtends | app.py:272-283 | `add()` appends one blob, and the vault decrypts to the old records plus the new one |
| Vault.AddExtends | app.py:342-360 | given the new records, the add loop completes, and the vault decrypts to the old records plus the new ones, in order |
| Vault.RemoveWritesOnlyOnSuccess | app.py:227-248 | a missing file, an unreadable file and an unknown host are reported and nothing is written |
| Vault.RemoveDeletesFirstMatch | app.py:241-258 | remove drops exactly the first matching record, and the vault decrypts to the others in order |
| Vault.EditVaultWrites | app.py:203-216 | edit writes back the vault with only the chosen slot replaced by the edited record |
| Vault.EditReplacesMatch | app.py:188-216 | editing a present host changes only its blob; it decrypts to the old record with the attribute set |
| Vault.EditFallsThroughToLast | app.py:203-216 | editing an absent host reports it, and still sets the attribute on the last record and writes it |
| Vault.EditOutcomeStored | app.py:188-216 | edit first converts the port, then edits the vault it read |
| Vault.EditPortIsInt | app.py:191-192 | a port given as decimal text is stored as that integer |
| Vault.AppendAllStops | app.py:301-315 | the import's `add()` calls stop at the first crash |
| Vault.RunOutcome | app.py:292-316 | an import whose plan ends in an exception never ends normally; `AppendAllExtends` and `RunOneThenCrash` state what it appends |
| Vault.LoopPlan | app.py:292-315 | one import loop adds at most one record per item; `LoopPlanAll` proves it adds them all, in order, when every record builds and the log line cannot raise |
| Vault.AppendAllExtends | app.py:301-315 | `add()` calls that all succeed append one blob per record, in order |
| Vault.SharedRecordIp | app.py:293-300 | a shared-credentials record carries the ip it was built for |
| Vault.LoopPlanAll | app.py:292-315 | a loop whose records all build, and whose log line cannot raise, adds them all in order |
| Vault.IntendedPlanShape | app.py:290-316 | a well-formed import adds the shared records, one per ip, then every own-credentials record, in order |
| Vault.SharedPlanShape | app.py:290-302 | the shared loop adds one record per ip, in order, each with its ip |
| Vault.ImportStopsAfterFirstConnection | app.py:304-316 | as written, without the shared loop, the import crashes after the first own-credentials record |
| Vault.ImportAgreesAfterSharedLoop | app.py:290-316 | with no separate-credentials connections, or after a non-empty shared loop, the import as written does what was intended |
| Vault.ImportExtends | app.py:269-316 | a well-formed import with no separate-credentials connections, or with a non-empty shared loop before them, completes into a readable vault; the vault decrypts to the old records plus the imported ones |
| Vault.ImportCrashesAfterFirstConnection | app.py:304-316 | a separate-credentials-only import appends the first connection, then crashes; the vault decrypts to the old records plus that one connection |
| Vault.ConnectionsFile.Append | app.py:272-283 | the file's new state and the status are `AppendOutcome` of the old state |
| Vault.ConnectionsFile.AddConnections | app.py:342-360 | the file's new state and the status are `AddOutcome` of the old state |
| Vault.ConnectionsFile.Remove | app.py:222-260 | the file's new state and the status are `RemoveOutcome` of the old state |
| Vault.ConnectionsFile.Edit | app.py:188-219 | the file's new state and the status are `EditOutcome` of the old state |
| Vault.ConnectionsFile.Import | app.py:269-316 | the file's new state and the status are `ImportOutcome` of the old state: the records of `loop_add` as written, appended in order, then its exception |
| Vault.ConnectionsFile.Run | app.py:301-315 | the file's new state and the status are `RunOutcome`: the plan's records appended in order, then its exception |
| Console.ReadLog | app.py:263-266 | the result is the newest `min(n, lines)` log lines in order, and it fails for a missing log or a bad or negative count |
| Console.SudoDisplay | app.py:179-183 | the column shows "No" exactly for the strings '', 'n' and 'no', and "Yes" for every other value, non-strings included |
| Console.PasswordGuardAlwaysHolds | app.py:78 | the guard as written holds for every answer, 'y' and 'yes' included |
| Console.SendPasswordMatchesDisplay | app.py:101 | for each accepted answer, the corrected guard sends the password exactly when the listing shows "No" |
| Console.ConnectionLine | app.py:179-185 | a line is printed exactly when the record has all five fields it reads |
| Console.ListConnections | app.py:175-185 | each record gives one line, in order; the listing stops at the first blob that does not decrypt or the first record with a missing field |

## Left out

- SSH (paramiko), threads, `time.sleep`, `getpass`, `input` and argparse are not modelled.
  - `update_system` and `test_connection` are modelled only through their sudo-password
    guard.
  - `add_new_connection`'s prompts are not modelled; its records are inputs to
    `AddConnections`.
  - The `main` dispatch is not modelled.
- Logging is not modelled: neither the `log` file writes nor the printed messages. A message
  is a `Status`, and the text of the log lines is not kept.
- PBKDF2-HMAC-SHA256 and Fernet (AES-CBC and HMAC-SHA256) are parameters, not definitions.
  The clock and the random IV Fernet draws become a `Nonce` parameter per encryption (`iv`
  for loops).
- Vault.AddOutcome: the modelled add loop takes the new records as given. As written,
  `add_new_connection` never returns one. Its port prompt calls `isinstance(port)` with one
  argument (app.py:132), which raises TypeError. So `main`'s add loop ends in that exception
  before any encryption, and `connections.json` is never written. `Vault.AddExtends` and
  `Vault.ConnectionsFile.AddConnections` share this assumption.
- Crypto.DeriveKey: it has no ensures of its own; `DerivedKeyIsFernetKey` states its
  property.
- Crypto.Encrypt (app.py:31-35): it has no ensures of its own; `DecryptEncrypt`,
  `PlaintextOfEncrypt` and `WrongKeyExits` state its properties.
- Json.Dumps (app.py:33): it has no ensures of its own; `LoadsDumps`, `DumpsPlain` and
  `TwoStringsDumps` state its properties.
- Vault.ImportPlanWith, Vault.ImportPlan, Vault.IntendedPlan, Vault.SharedPlan (app.py:286-316):
  they have no ensures of their own. `IntendedPlanShape`, `SharedPlanShape`,
  `ImportStopsAfterFirstConnection` and `ImportAgreesAfterSharedLoop` state their properties.
- Vault.LogLineError (app.py:316): it has no ensures of its own.
  `ImportStopsAfterFirstConnection` and `ImportAgreesAfterSharedLoop` state when the log line
  raises and when it cannot.
- Vault.ImportOutcome, Vault.AppendAll (app.py:269-316): they have no ensures of their own.
  `ImportExtends`, `ImportCrashesAfterFirstConnection`, `AppendAllStops` and
  `AppendAllExtends` state their properties.
- Console.PasswordGuardAsWritten (app.py:78, app.py:101): it has no ensures of its own;
  `PasswordGuardAlwaysHolds` states its property.
- Base64.Decode: it is strict, so it accepts only canonical padded text. `b64decode`'s
  leniency about non-alphabet characters is not modelled.
- Utf8.Decode: it rejects encoded surrogates, and only ASCII is round-tripped, which is all
  `json.dumps` produces.
- Utf8.DecodeFirst: its contract states only how many bytes a decoded character consumes,
  not which character it is. Only the ASCII round trip (`AsciiRoundTrip`) is proved.
- Json.Loads: it covers the objects this program writes: flat objects of strings, integers,
  booleans and null.
  - Floats, nested objects, lists and exponents are not parsed.
  - A top-level JSON value that is not an object fails, as decryption failure.
  - A lone surrogate escape (`\ud800` with no low half, or a low half alone) fails here.
    Python's `json.loads` accepts it. `json.dumps` never writes one for a record it was
    given.
- Records are association lists, not hash maps. Equality is order-sensitive, which matches
  `json.dumps` output rather than `dict` equality.
- `connections.json` is modelled by `FileState`:
  - `Missing`;
  - `Garbled` (what `json.load` rejects);
  - the list of blobs.

  The JSON text of that file is not modelled, and failing writes are not modelled.
- `list.json` is given already parsed, as `ImportList`. A field of the wrong JSON type is not
  modelled.
- Vault.ParseInt: it follows `int()` on ASCII text (whitespace, sign, digits). Underscores
  between digits and non-ASCII digits or whitespace are not accepted.
- The vault lemmas take `Faithful` and `Coherent` codecs. `Crypto.RecordCodecFaithful` proves
  that the real codec is both.

## Findings

| source | as written | input that shows it | evidently intended | confidence | as-written member | corrected member |
|---|---|---|---|---|---|---|
| app.py:78 | `not sudo_password == 'y' or 'yes'` parses as `(not (...)) or 'yes'`, which is always truthy | `passwordSudo` = "y": the password is still typed into the remote prompt | type the password only when sudo is not passwordless (answer not 'y' or 'yes') | high, not executed | Console.PasswordGuardAlwaysHolds | Console.SendPasswordMatchesDisplay |
| app.py:44 | `.replace("'", "\"")` runs over the whole decrypted JSON text, string contents included | a record whose value for "k" is `x', 'y': 'z` decrypts to `{"k": "x", "y": "z"}`; a value `it's` ends the program | decrypt to the record that was encrypted | medium, not executed | Crypto.InjectedRecordDecrypts | Crypto.IntendedDecryptEncrypt |
| app.py:316 | the log line after each separate-credentials `add()` reads `cons["creds"]` and the `ip` of the shared loop | `{"loop": false, "connections": [c1, c2]}`: `c1` is added, then the log line raises (KeyError without "creds", NameError otherwise), so `c2` is never added | log the connection just added; import every connection | high, not executed | Vault.ImportStopsAfterFirstConnection | Vault.IntendedPlanShape |

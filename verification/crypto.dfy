/**
 * Key derivation and the record codec: `derive_key`, `encrypt_credentials` and
 * `decrypt_credentials`.  PBKDF2-HMAC-SHA256 (section 5.2 of RFC 8018) and the Fernet
 * token format are library calls; they enter the model as function-valued parameters,
 * and what the codec needs of Fernet is stated as hypotheses (`Sound`, `Authenticated`)
 * on that parameter rather than assumed.
 */
module Crypto {
  import opened Basics
  import Base64
  import Utf8
  import opened Json

  /** The 32 raw bytes of a Fernet key (16 signing bytes, then 16 encryption bytes). */
  type Key = k: seq<byte> | |k| == 32 witness seq(32, _ => 0)

  /**
   * The per-token values Fernet draws itself: the 8-byte timestamp and the 16-byte IV.
   * They make two encryptions of one record differ.
   */
  type Nonce = n: seq<byte> | |n| == 24 witness seq(24, _ => 0)

  /**
   * A Fernet implementation: `seal` builds a token, `open` checks and decrypts one,
   * failing (InvalidToken) with `None`.
   */
  datatype Fernet = Fernet(seal: (Key, Nonce, seq<byte>) -> seq<byte>, open: (Key, seq<byte>) -> Option<seq<byte>>)

  /** Opening a token with the key that sealed it gives back the plaintext. */
  ghost predicate Sound(f: Fernet)
  {
    forall k: Key, n: Nonce, p: seq<byte> :: f.open(k, f.seal(k, n, p)) == Some(p)
  }

  /** A token sealed under one key does not open under another (its HMAC does not verify). */
  ghost predicate Authenticated(f: Fernet)
  {
    forall k: Key, k': Key, n: Nonce, p: seq<byte> :: k != k' ==> f.open(k', f.seal(k, n, p)).None?
  }

  /** PBKDF2-HMAC-SHA256 with a 32-byte output: passphrase bytes, salt, iteration count. */
  type Pbkdf2 = (seq<byte>, seq<byte>, nat) -> Key

  /** The fixed salt b'salt1234'. */
  const Salt: seq<byte> := [0x73, 0x61, 0x6c, 0x74, 0x31, 0x32, 0x33, 0x34]

  const Iterations: nat := 100000

  /** `Fernet(key)`: the key text must be URL-safe base64 of exactly 32 bytes. */
  function FernetKey(key: string): (r: Option<Key>)
    ensures r.Some? <==> (Base64.UrlsafeDecode(key).Some? && |Base64.UrlsafeDecode(key).value| == 32)
  {
    match Base64.UrlsafeDecode(key)
    case None => None
    case Some(b) => if |b| == 32 then Some(b) else None
  }

  /** `derive_key(passphrase)`: PBKDF2 over the UTF-8 passphrase, as URL-safe base64 text. */
  function DeriveKey(pbkdf2: Pbkdf2, passphrase: string): (key: string)
  {
    Base64.Encode(pbkdf2(Utf8.Encode(passphrase), Salt, Iterations), true)
  }

  /** A derived key is a valid Fernet key, and it holds exactly the PBKDF2 output. */
  lemma DerivedKeyIsFernetKey(pbkdf2: Pbkdf2, passphrase: string)
    ensures FernetKey(DeriveKey(pbkdf2, passphrase)) == Some(pbkdf2(Utf8.Encode(passphrase), Salt, Iterations))
  {
    Base64.UrlsafeDecodeEncode(pbkdf2(Utf8.Encode(passphrase), Salt, Iterations));
  }

  /** Two passphrases give the same key text only when PBKDF2 gives them the same bytes. */
  lemma DerivedKeysDiffer(pbkdf2: Pbkdf2, p: string, p': string)
    requires pbkdf2(Utf8.Encode(p), Salt, Iterations) != pbkdf2(Utf8.Encode(p'), Salt, Iterations)
    ensures DeriveKey(pbkdf2, p) != DeriveKey(pbkdf2, p')
  {
    DerivedKeyIsFernetKey(pbkdf2, p);
    DerivedKeyIsFernetKey(pbkdf2, p');
  }

  /**
   * `encrypt_credentials(record, key)`: `json.dumps`, UTF-8, a Fernet token, then a second
   * (standard) base64 layer.  Every key the program uses comes from `derive_key`.
   */
  function Encrypt(f: Fernet, key: string, n: Nonce, record: Dict): (blob: string)
    requires FernetKey(key).Some?
  {
    Base64.Encode(f.seal(FernetKey(key).value, n, Utf8.Encode(Dumps(record))), false)
  }

  /**
   * `decrypt_credentials(blob, key)`: every failure (bad key, bad base64, a token that does
   * not verify, bad UTF-8, bad JSON) is caught, logged and ends the program with `exit()`;
   * `None` stands for that exit.  Apostrophes become double quotes before parsing.
   */
  function Decrypt(f: Fernet, key: string, blob: string): (r: Option<Dict>)
    ensures r.Some? ==> FernetKey(key).Some? && DistinctKeys(r.value)
  {
    match Plaintext(f, key, blob)
    case None => None
    case Some(text) => Loads(ReplaceApostrophes(text))
  }

  /** The JSON text inside a blob: base64, then Fernet, then UTF-8. */
  function Plaintext(f: Fernet, key: string, blob: string): (r: Option<string>)
    ensures r.Some? ==> FernetKey(key).Some?
  {
    match FernetKey(key)
    case None => None
    case Some(k) =>
      match Base64.Decode(blob)
      case None => None
      case Some(token) =>
        match f.open(k, token)
        case None => None
        case Some(plain) => Utf8.Decode(plain)
  }

  /** `decrypt_credentials` as evidently intended: the JSON text is parsed as it was written. */
  function DecryptIntended(f: Fernet, key: string, blob: string): (r: Option<Dict>)
    ensures r.Some? ==> FernetKey(key).Some? && DistinctKeys(r.value)
  {
    match Plaintext(f, key, blob)
    case None => None
    case Some(text) => Loads(text)
  }

  /** The plaintext of a token is the JSON text itself (it is ASCII, so UTF-8 is the identity on it). */
  lemma PlaintextDecodes(record: Dict)
    ensures Utf8.Decode(Utf8.Encode(Dumps(record))) == Some(Dumps(record))
  {
    DumpsPlain(record);
    Utf8.AsciiRoundTrip(Dumps(record));
  }

  /** What `decrypt_credentials` computes on a token that opens, from the JSON text inside it. */
  lemma DecryptOpened(f: Fernet, key: string, n: Nonce, record: Dict)
    requires Sound(f) && FernetKey(key).Some?
    ensures Decrypt(f, key, Encrypt(f, key, n, record)) == Loads(ReplaceApostrophes(Dumps(record)))
  {
    PlaintextOfEncrypt(f, key, n, record);
  }

  /**
   * The codec round trip: with the key that encrypted it, a record whose keys are distinct
   * and whose keys and string values hold no apostrophe decrypts to itself.
   */
  lemma DecryptEncrypt(f: Fernet, key: string, n: Nonce, record: Dict)
    requires Sound(f) && FernetKey(key).Some?
    requires DistinctKeys(record) && NoApostrophe(record)
    ensures Decrypt(f, key, Encrypt(f, key, n, record)) == Some(record)
  {
    DecryptOpened(f, key, n, record);
    LoadsReplacedDumps(record);
  }

  /** The plaintext of a blob is the `json.dumps` text of the record that was encrypted. */
  lemma PlaintextOfEncrypt(f: Fernet, key: string, n: Nonce, record: Dict)
    requires Sound(f) && FernetKey(key).Some?
    ensures Plaintext(f, key, Encrypt(f, key, n, record)) == Some(Dumps(record))
  {
    var k := FernetKey(key).value;
    var token := f.seal(k, n, Utf8.Encode(Dumps(record)));
    Base64.DecodeEncode(token);
    PlaintextDecodes(record);
  }

  /**
   * Without the replacement, every record with distinct keys decrypts to itself under the
   * key that encrypted it, apostrophes included.
   */
  lemma IntendedDecryptEncrypt(f: Fernet, key: string, n: Nonce, record: Dict)
    requires Sound(f) && FernetKey(key).Some? && DistinctKeys(record)
    ensures DecryptIntended(f, key, Encrypt(f, key, n, record)) == Some(record)
  {
    PlaintextOfEncrypt(f, key, n, record);
    LoadsDumps(record);
  }

  /**
   * A value of the form a', 'k2': 'v decrypts, without any error, to a different record: the
   * value cut to `a`, and a member `k2` holding `v` added after it.
   */
  lemma InjectedRecordDecrypts(f: Fernet, key: string, n: Nonce, k: string, a: string, k2: string, v: string)
    requires Sound(f) && FernetKey(key).Some?
    requires PlainText(k) && PlainText(a) && PlainText(k2) && PlainText(v)
    requires '\'' !in k && '\'' !in a && '\'' !in k2 && '\'' !in v
    requires k != k2
    ensures Decrypt(f, key, Encrypt(f, key, n, [Member(k, Str(a + InjectedComma + k2 + InjectedColon + v))]))
      == Some([Member(k, Str(a)), Member(k2, Str(v))])
  {
    DecryptOpened(f, key, n, [Member(k, Str(a + InjectedComma + k2 + InjectedColon + v))]);
    ApostropheInjectsMember(k, a, k2, v);
  }

  /**
   * The apostrophe precondition cannot be dropped: a one-field record whose string value
   * is, say, "it's" does not survive, and decryption ends in `exit()`.
   */
  lemma ApostropheExits(f: Fernet, key: string, n: Nonce, k: string, a: string, b: string)
    requires Sound(f) && FernetKey(key).Some?
    requires PlainText(k) && PlainText(a) && PlainText(b)
    requires '\'' !in k && '\'' !in a && '\'' !in b
    requires b != [] && !IsWhitespace(b[0]) && b[0] != ',' && b[0] != '}'
    ensures Decrypt(f, key, Encrypt(f, key, n, [Member(k, Str(a + ['\''] + b))])).None?
  {
    DecryptOpened(f, key, n, [Member(k, Str(a + ['\''] + b))]);
    ApostropheBreaksLoads(k, a, b);
  }

  /** A blob encrypted under one key ends in `exit()` when decrypted with a different key. */
  lemma WrongKeyExits(f: Fernet, key: string, key': string, n: Nonce, record: Dict)
    requires Authenticated(f) && FernetKey(key).Some?
    requires FernetKey(key') != FernetKey(key)
    ensures Decrypt(f, key', Encrypt(f, key, n, record)).None?
  {
    if FernetKey(key').Some? {
      var token := f.seal(FernetKey(key).value, n, Utf8.Encode(Dumps(record)));
      Base64.DecodeEncode(token);
    }
  }

  /**
   * A stand-in Fernet that meets both hypotheses: the token is key, nonce and plaintext
   * side by side, and opening checks the key.  It shows `Sound` and `Authenticated` can
   * hold together; it is not a cipher.
   */
  function ToyFernet(): Fernet
  {
    Fernet(
      (k: Key, n: Nonce, p: seq<byte>) => k + n + p,
      (k: Key, t: seq<byte>) => if |t| >= 56 && t[..32] == k then Some(t[56..]) else None)
  }

  lemma ToyFernetMeetsHypotheses()
    ensures Sound(ToyFernet()) && Authenticated(ToyFernet())
  {
    var f := ToyFernet();
    forall k: Key, n: Nonce, p: seq<byte> ensures f.open(k, f.seal(k, n, p)) == Some(p) {
      var t := k + n + p;
      assert t[..32] == k && t[56..] == p;
    }
    forall k: Key, k': Key, n: Nonce, p: seq<byte> | k != k' ensures f.open(k', f.seal(k, n, p)).None? {
      var t := k + n + p;
      assert t[..32] == k;
    }
  }
  // ---------------------------------------------------------------- the codec a key fixes

  /**
   * `decrypt_credentials(_, key)` and `encrypt_credentials(_, key)` for one key, as the vault
   * operations use them: `dec` fails where the program exits, `enc` fails where `Fernet(key)`
   * raises ValueError.
   */
  datatype Codec = Codec(dec: string -> Option<Dict>, enc: (Nonce, Dict) -> Option<string>)

  /** `encrypt_credentials` with the ValueError of an invalid key made explicit. */
  function Seal(f: Fernet, key: string, n: Nonce, record: Dict): (r: Option<string>)
    ensures r.Some? <==> FernetKey(key).Some?
  {
    if FernetKey(key).Some? then Some(Encrypt(f, key, n, record)) else None
  }

  function RecordCodec(f: Fernet, key: string): Codec
  {
    Codec((blob: string) => Decrypt(f, key, blob), (n: Nonce, record: Dict) => Seal(f, key, n, record))
  }

  /** Records the codec carries unchanged: distinct keys, and no apostrophe in a key or a string value. */
  predicate Storable(record: Dict)
  {
    DistinctKeys(record) && NoApostrophe(record)
  }

  /** What the vault needs of a codec: a storable record it encrypts decrypts to itself. */
  ghost predicate Faithful(c: Codec)
  {
    forall n: Nonce, r: Dict :: Storable(r) && c.enc(n, r).Some? ==> c.dec(c.enc(n, r).value) == Some(r)
  }

  /** Whatever decrypts proves the key valid, so encryption with it cannot raise. */
  ghost predicate Coherent(c: Codec)
  {
    forall b: string, n: Nonce, r: Dict :: c.dec(b).Some? ==> c.enc(n, r).Some?
  }

  /** Every codec the program builds from a sound Fernet meets both hypotheses. */
  lemma RecordCodecFaithful(f: Fernet, key: string)
    requires Sound(f)
    ensures Faithful(RecordCodec(f, key)) && Coherent(RecordCodec(f, key))
  {
    var c := RecordCodec(f, key);
    forall n: Nonce, r: Dict | Storable(r) && c.enc(n, r).Some? ensures c.dec(c.enc(n, r).value) == Some(r) {
      DecryptEncrypt(f, key, n, r);
    }
  }
}

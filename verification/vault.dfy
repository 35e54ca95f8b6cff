/**
 * The credential vault: `connections.json`, a JSON list of encrypted record blobs, and the
 * operations that read and rewrite it (`remove_connection`, `edit_credentials`, the `add`
 * closure of `loop_add`, the add loop of `main`, and the `loop_add` import).
 */
module Vault {
  import opened Basics
  import opened Json
  import opened Crypto

  /** What `json.load` finds in `connections.json`: no file, a file it cannot parse, or the blobs. */
  datatype FileState = Missing | Garbled | Stored(blobs: seq<string>)

  /** The exceptions that escape an operation and end the program with a traceback. */
  datatype Error = KeyError | ValueError | NameError | JsonDecodeError

  /**
   * How an operation ends: normally, after one of the messages the source prints for a
   * missing file, an unreadable file or an unknown host, through `exit()` in
   * `decrypt_credentials`, or with an uncaught exception.
   */
  datatype Status = Done | NoVault | Unreadable | NotFound | Exited | Crashed(error: Error)

  /** The blobs an operation starts from: a missing file counts as an empty list. */
  function Existing(fs: FileState): (bs: seq<string>)
    requires !fs.Garbled?
    ensures fs.Missing? ==> bs == []
  {
    if fs.Stored? then fs.blobs else []
  }

  // ---------------------------------------------------------------- decrypting and encrypting all records

  /** Decrypting every blob in order; one failure ends the program, so there is no partial list. */
  function DecryptAll(c: Codec, bs: seq<string>): (r: Option<seq<Dict>>)
    ensures r.Some? <==> forall i :: 0 <= i < |bs| ==> c.dec(bs[i]).Some?
    ensures r.Some? ==> |r.value| == |bs| && forall i :: 0 <= i < |bs| ==> c.dec(bs[i]) == Some(r.value[i])
  {
    if bs == [] then Some([])
    else
      match c.dec(bs[0])
      case None => None
      case Some(d) =>
        match DecryptAll(c, bs[1..])
        case None => None
        case Some(ds) => Some([d] + ds)
  }

  /**
   * Encrypting records in order, the i-th with the i-th nonce Fernet draws; the first
   * encryption that raises ends the program.
   */
  function EncryptAll(c: Codec, iv: nat -> Nonce, rs: seq<Dict>): (r: Option<seq<string>>)
    ensures r.Some? <==> forall i :: 0 <= i < |rs| ==> c.enc(iv(i), rs[i]).Some?
    ensures r.Some? ==> |r.value| == |rs| && forall i :: 0 <= i < |rs| ==> c.enc(iv(i), rs[i]) == Some(r.value[i])
    decreases |rs|
  {
    if rs == [] then Some([])
    else
      var k := |rs| - 1;
      assert forall i :: 0 <= i < k ==> rs[..k][i] == rs[i];
      match EncryptAll(c, iv, rs[..k])
      case None => None
      case Some(bs) =>
        match c.enc(iv(k), rs[k])
        case None => None
        case Some(b) => Some(bs + [b])
  }

  predicate AllStorable(rs: seq<Dict>)
  {
    forall i :: 0 <= i < |rs| ==> Storable(rs[i])
  }

  lemma StorableWithout(rs: seq<Dict>, i: nat)
    requires i < |rs| && AllStorable(rs)
    ensures AllStorable(rs[..i] + rs[i + 1..])
  {
    var t := rs[..i] + rs[i + 1..];
    assert forall j :: 0 <= j < |t| ==> t[j] == rs[if j < i then j else j + 1];
  }

  /** Storable records, encrypted and decrypted again, come back in order. */
  lemma DecryptAllEncryptAll(c: Codec, iv: nat -> Nonce, rs: seq<Dict>)
    requires Faithful(c) && AllStorable(rs) && EncryptAll(c, iv, rs).Some?
    ensures DecryptAll(c, EncryptAll(c, iv, rs).value) == Some(rs)
  {
    var bs := EncryptAll(c, iv, rs).value;
    forall i | 0 <= i < |bs| ensures c.dec(bs[i]) == Some(rs[i]) {
      assert c.enc(iv(i), rs[i]) == Some(bs[i]);
      assert Storable(rs[i]);
    }
    var d := DecryptAll(c, bs);
    assert d.Some?;
    assert |d.value| == |rs|;
    assert forall i :: 0 <= i < |rs| ==> d.value[i] == rs[i];
    assert d.value == rs;
    assert d == Some(rs);
  }

  /** Replacing one blob by one that decrypts to `rec` replaces that record. */
  lemma DecryptAllUpdate(c: Codec, bs: seq<string>, recs: seq<Dict>, i: nat, b: string, rec: Dict)
    requires DecryptAll(c, bs) == Some(recs) && i < |bs| && c.dec(b) == Some(rec)
    ensures DecryptAll(c, bs[i := b]) == Some(recs[i := rec])
  {
    var bs' := bs[i := b];
    assert forall j :: 0 <= j < |bs'| ==> c.dec(bs'[j]) == Some(recs[i := rec][j]);
    var d := DecryptAll(c, bs');
    assert d.Some? && |d.value| == |recs|;
    assert d.value == recs[i := rec];
  }

  /** A key that decrypted some blob encrypts every record list. */
  lemma EncryptAllSucceeds(c: Codec, bs: seq<string>, iv: nat -> Nonce, rs: seq<Dict>)
    requires Coherent(c) && bs != [] && DecryptAll(c, bs).Some?
    ensures EncryptAll(c, iv, rs).Some?
  {
    assert c.dec(bs[0]).Some?;
  }

  /** Blobs appended after a readable vault decrypt after its records. */
  lemma DecryptAllConcat(c: Codec, bs: seq<string>, bs': seq<string>)
    ensures DecryptAll(c, bs + bs') ==
      match (DecryptAll(c, bs), DecryptAll(c, bs'))
      case (Some(rs), Some(rs')) => Some(rs + rs')
      case _ => None
  {
    var all := bs + bs';
    var r, r' := DecryptAll(c, bs), DecryptAll(c, bs');
    if r.Some? && r'.Some? {
      forall i | 0 <= i < |all| ensures c.dec(all[i]) == Some((r.value + r'.value)[i]) {
        if i < |bs| {
          assert all[i] == bs[i];
        } else {
          assert all[i] == bs'[i - |bs|];
        }
      }
      assert DecryptAll(c, all).value == r.value + r'.value;
    } else if r.None? {
      var i :| 0 <= i < |bs| && c.dec(bs[i]).None?;
      assert all[i] == bs[i];
    } else {
      var i :| 0 <= i < |bs'| && c.dec(bs'[i]).None?;
      assert all[|bs| + i] == bs'[i];
    }
  }

  /** The loop `for data in encrypted_data: decrypted_data.append(decrypt_credentials(data, key))`. */
  method DecryptEach(c: Codec, bs: seq<string>) returns (r: Option<seq<Dict>>)
    ensures r == DecryptAll(c, bs)
  {
    var out: seq<Dict> := [];
    var i := 0;
    while i < |bs|
      invariant 0 <= i <= |bs| && |out| == i
      invariant forall j :: 0 <= j < i ==> c.dec(bs[j]) == Some(out[j])
    {
      var d := c.dec(bs[i]);
      if d.None? {
        return None;
      }
      out := out + [d.value];
      i := i + 1;
    }
    assert DecryptAll(c, bs).value == out;
    return Some(out);
  }

  /** The loop `for data in decrypted_data: encrypted_data.append(encrypt_credentials(data, key))`. */
  method EncryptEach(c: Codec, iv: nat -> Nonce, rs: seq<Dict>) returns (r: Option<seq<string>>)
    ensures r == EncryptAll(c, iv, rs)
  {
    var bs: seq<string> := [];
    var i := 0;
    while i < |rs|
      invariant 0 <= i <= |rs| && |bs| == i
      invariant forall j :: 0 <= j < i ==> c.enc(iv(j), rs[j]) == Some(bs[j])
    {
      var b := c.enc(iv(i), rs[i]);
      if b.None? {
        return None;
      }
      bs := bs + [b.value];
      i := i + 1;
    }
    assert EncryptAll(c, iv, rs).value == bs;
    return Some(bs);
  }

  // ---------------------------------------------------------------- finding a host

  /** Where the search `for index, connection in enumerate(...): if connection["ip"] == ip` stops. */
  datatype Match = At(index: nat) | Absent | NoIpKey(index: nat)

  /** The record has an "ip" entry and it is not the host asked for. */
  predicate Misses(rec: Dict, ip: string)
  {
    Get(rec, "ip").Some? && Get(rec, "ip") != Some(Str(ip))
  }

  /**
   * `m` is where the search stops: the first record whose "ip" is `ip`, or the first record
   * without an "ip" key (a KeyError), every record before it missing; or nowhere.
   */
  predicate IsFirstMatch(recs: seq<Dict>, ip: string, m: Match)
  {
    match m
    case At(i) => i < |recs| && Get(recs[i], "ip") == Some(Str(ip)) && forall j :: 0 <= j < i ==> Misses(recs[j], ip)
    case NoIpKey(i) => i < |recs| && Get(recs[i], "ip").None? && forall j :: 0 <= j < i ==> Misses(recs[j], ip)
    case Absent => forall j :: 0 <= j < |recs| ==> Misses(recs[j], ip)
  }

  function Shift(m: Match): Match
  {
    match m
    case At(i) => At(i + 1)
    case NoIpKey(i) => NoIpKey(i + 1)
    case Absent => Absent
  }

  function FirstMatch(recs: seq<Dict>, ip: string): (m: Match)
    ensures IsFirstMatch(recs, ip, m)
  {
    if recs == [] then Absent
    else
      match Get(recs[0], "ip")
      case None => NoIpKey(0)
      case Some(v) =>
        if v == Str(ip) then At(0)
        else
          var m := FirstMatch(recs[1..], ip);
          ShiftFirstMatch(recs, ip, m);
          Shift(m)
  }

  lemma ShiftFirstMatch(recs: seq<Dict>, ip: string, m: Match)
    requires recs != [] && Misses(recs[0], ip) && IsFirstMatch(recs[1..], ip, m)
    ensures IsFirstMatch(recs, ip, Shift(m))
  {
    assert forall j :: 1 <= j < |recs| ==> recs[j] == recs[1..][j - 1];
  }

  /** The search result is determined: whatever meets `IsFirstMatch` is `FirstMatch`. */
  lemma FirstMatchUnique(recs: seq<Dict>, ip: string, m: Match)
    requires IsFirstMatch(recs, ip, m)
    ensures m == FirstMatch(recs, ip)
  {
    var m' := FirstMatch(recs, ip);
    if !m.Absent? {
      assert !Misses(recs[m.index], ip);
    }
    if !m'.Absent? {
      assert !Misses(recs[m'.index], ip);
    }
  }

  /** The search loop of `remove_connection` and `edit_credentials`, with its `found` flag. */
  method Locate(recs: seq<Dict>, ip: string) returns (m: Match)
    ensures m == FirstMatch(recs, ip)
  {
    var found := false;
    var index := 0;
    var missing := false;
    while index < |recs| && !found && !missing
      invariant 0 <= index <= |recs|
      invariant forall j :: 0 <= j < index ==> Misses(recs[j], ip)
      invariant found ==> index < |recs| && Get(recs[index], "ip") == Some(Str(ip))
      invariant missing ==> !found && index < |recs| && Get(recs[index], "ip").None?
      decreases |recs| - index, if found || missing then 0 else 1
    {
      var v := Get(recs[index], "ip");
      if v.None? {
        missing := true;
      } else if v.value == Str(ip) {
        found := true;
      } else {
        index := index + 1;
      }
    }
    m := if found then At(index) else if missing then NoIpKey(index) else Absent;
    FirstMatchUnique(recs, ip, m);
  }
  // ---------------------------------------------------------------- int()

  /** The whitespace `int()` strips: space, tab to carriage return, and the separators 0x1c to 0x1f. */
  predicate IsSpace(c: char)
  {
    c == ' ' || 9 <= c as int <= 13 || 28 <= c as int <= 31
  }

  function TrimStart(s: string): (t: string)
    ensures |t| <= |s| && t == s[|s| - |t|..]
    ensures t == [] || !IsSpace(t[0])
    ensures forall i :: 0 <= i < |s| - |t| ==> IsSpace(s[i])
  {
    if s != [] && IsSpace(s[0]) then TrimStart(s[1..]) else s
  }

  function TrimEnd(s: string): (t: string)
    ensures |t| <= |s| && t == s[..|t|]
    ensures t == [] || !IsSpace(t[|t| - 1])
    ensures forall i :: |t| <= i < |s| ==> IsSpace(s[i])
  {
    if s != [] && IsSpace(s[|s| - 1]) then TrimEnd(s[..|s| - 1]) else s
  }

  /** `int(s)` on a string: surrounding whitespace, an optional sign, decimal digits; None is ValueError. */
  function ParseInt(s: string): (r: Option<int>)
    ensures r.Some? ==> exists c :: c in s && IsDigit(c)
  {
    var t := TrimEnd(TrimStart(s));
    var r := ParseSigned(t);
    assert r.Some? ==> t[|t| - 1] in s;
    r
  }

  /** An optional sign, then one or more decimal digits and nothing else. */
  function ParseSigned(t: string): (r: Option<int>)
    ensures r.Some? ==> t != [] && IsDigit(t[|t| - 1])
  {
    var body := if t != [] && (t[0] == '+' || t[0] == '-') then t[1..] else t;
    if body != [] && forall i :: 0 <= i < |body| ==> IsDigit(body[i]) then
      assert body[|body| - 1] == t[|t| - 1];
      Some(if t[0] == '-' then -(DecimalValue(body) as int) else DecimalValue(body))
    else None
  }

  lemma TrimNothing(t: string)
    requires t != [] && !IsSpace(t[0]) && !IsSpace(t[|t| - 1])
    ensures TrimEnd(TrimStart(t)) == t
  {
  }

  /** `int` reads back what `str` of an int writes. */
  lemma ParseIntText(i: int)
    ensures ParseInt(IntText(i)) == Some(i)
  {
    var t := IntText(i);
    ParseSignedText(i);
    TrimNothing(t);
  }

  lemma ParseSignedText(i: int)
    ensures var t := IntText(i);
      && t != [] && !IsSpace(t[0]) && !IsSpace(t[|t| - 1])
      && ParseSigned(t) == Some(i)
  {
    var n := if i < 0 then -i else i;
    NatTextDigits(n);
    var t := IntText(i);
    var ds := NatText(n);
    assert IsDigit(ds[0]) && IsDigit(ds[|ds| - 1]);
    if i < 0 {
      assert t == ['-'] + ds;
      assert t[1..] == ds && t[|t| - 1] == ds[|ds| - 1];
    } else {
      assert t == ds;
    }
  }

  // ---------------------------------------------------------------- what each operation does to the vault

  /** The `add` closure of `loop_add`: read the vault (missing is empty), append one blob, write it back. */
  function AppendOutcome(c: Codec, fs: FileState, n: Nonce, record: Dict): (r: (FileState, Status))
    ensures r.1 != Done ==> r.0 == fs
  {
    if fs.Garbled? then (fs, Crashed(JsonDecodeError))
    else
      match c.enc(n, record)
      case None => (fs, Crashed(ValueError))
      case Some(b) => (Stored(Existing(fs) + [b]), Done)
  }

  /** The add loop of `main`: read once, append one blob per new connection, write once at the end. */
  function AddOutcome(c: Codec, fs: FileState, iv: nat -> Nonce, records: seq<Dict>): (r: (FileState, Status))
    ensures r.1 != Done ==> r.0 == fs
  {
    if fs.Garbled? then (fs, Crashed(JsonDecodeError))
    else
      match EncryptAll(c, iv, records)
      case None => (fs, Crashed(ValueError))
      case Some(bs) => (Stored(Existing(fs) + bs), Done)
  }

  /**
   * `remove_connection(key, ip)`: a missing or unreadable vault and an unknown host are
   * reported and nothing is written; otherwise the first record for the host is deleted and
   * every survivor is encrypted anew.
   */
  function RemoveOutcome(c: Codec, fs: FileState, iv: nat -> Nonce, ip: string): (r: (FileState, Status))
    ensures r.1 != Done ==> r.0 == fs
  {
    match fs
    case Missing => (fs, NoVault)
    case Garbled => (fs, Unreadable)
    case Stored(bs) =>
      match DecryptAll(c, bs)
      case None => (fs, Exited)
      case Some(recs) =>
        match FirstMatch(recs, ip)
        case NoIpKey(_) => (fs, Crashed(KeyError))
        case Absent => (fs, NotFound)
        case At(i) =>
          match EncryptAll(c, iv, recs[..i] + recs[i + 1..])
          case None => (fs, Crashed(ValueError))
          case Some(bs') => (Stored(bs'), Done)
  }

  /** The new value `edit_credentials` stores: `int(change)` for "port", the text itself otherwise. */
  function EditValue(attribute: string, change: string): (v: Option<Val>)
    ensures attribute != "port" ==> v == Some(Str(change))
    ensures attribute == "port" ==> (v.Some? <==> ParseInt(change).Some?)
    ensures attribute == "port" && v.Some? ==> v.value == Int(ParseInt(change).value)
  {
    if attribute == "port" then
      match ParseInt(change)
      case None => None
      case Some(i) => Some(Int(i))
    else Some(Str(change))
  }

  /** The slot `edit_credentials` writes: the match, or, when the search runs off the end, the last record. */
  function EditSlot(recs: seq<Dict>, m: Match): (i: nat)
    requires recs != [] && !m.NoIpKey? && (m.At? ==> m.index < |recs|)
    ensures i < |recs|
  {
    if m.At? then m.index else |recs| - 1
  }

  /**
   * `edit_credentials(key, ip, attribute, change)`: `int(change)` first for the port, then the
   * vault.  A missing file is reported but the function carries on with no records, and then
   * `connection` is unbound and the assignment raises.
   */
  function EditOutcome(c: Codec, fs: FileState, n: Nonce, ip: string, attribute: string, change: string): (r: (FileState, Status))
    ensures r.1 != Done && r.1 != NotFound ==> r.0 == fs
  {
    match EditValue(attribute, change)
    case None => (fs, Crashed(ValueError))
    case Some(v) =>
      match fs
      case Garbled => (fs, Crashed(JsonDecodeError))
      case Missing => (fs, Crashed(NameError))
      case Stored(bs) => EditVault(c, bs, n, ip, attribute, v)
  }

  /**
   * `edit_credentials` on a vault that was read: the record in the chosen slot gets
   * `attribute` set and only that slot is re-encrypted.  On an empty vault `connection` is
   * unbound and the assignment raises.
   */
  function EditVault(c: Codec, bs: seq<string>, n: Nonce, ip: string, attribute: string, v: Val): (r: (FileState, Status))
    ensures r.1 != Done && r.1 != NotFound ==> r.0 == Stored(bs)
  {
    match DecryptAll(c, bs)
    case None => (Stored(bs), Exited)
    case Some(recs) =>
      var m := FirstMatch(recs, ip);
      if m.NoIpKey? then (Stored(bs), Crashed(KeyError))
      else if recs == [] then (Stored(bs), Crashed(NameError))
      else
        var i := EditSlot(recs, m);
        match c.enc(n, Set(recs[i], attribute, v))
        case None => (Stored(bs), Crashed(ValueError))
        case Some(b) => (Stored(bs[i := b]), if m.At? then Done else NotFound)
  }

  /** Records appended one `add()` at a time, each re-reading the vault; the first crash stops the import. */
  function AppendAll(c: Codec, fs: FileState, iv: nat -> Nonce, records: seq<Dict>): (r: (FileState, Status))
    decreases |records|
  {
    if records == [] then (fs, Done)
    else
      var k := |records| - 1;
      var r := AppendAll(c, fs, iv, records[..k]);
      if r.1 != Done then r else AppendOutcome(c, r.0, iv(k), records[k])
  }

  // ---------------------------------------------------------------- lemmas about the outcomes

  /**
   * Appending a record leaves the vault as the old blobs followed by the new one, a missing
   * file counting as empty, and the vault then decrypts to the old records followed by it.
   */
  lemma AppendExtends(c: Codec, fs: FileState, n: Nonce, record: Dict, recs: seq<Dict>)
    requires Faithful(c) && Storable(record)
    requires !fs.Garbled? && c.enc(n, record).Some? && DecryptAll(c, Existing(fs)) == Some(recs)
    ensures AppendOutcome(c, fs, n, record) == (Stored(Existing(fs) + [c.enc(n, record).value]), Done)
    ensures DecryptAll(c, AppendOutcome(c, fs, n, record).0.blobs) == Some(recs + [record])
  {
    var b := c.enc(n, record).value;
    assert c.dec(b) == Some(record);
    var d := DecryptAll(c, [b]);
    assert d.Some? && d.value[0] == record;
    assert d.value == [record];
    DecryptAllConcat(c, Existing(fs), [b]);
  }

  /** The add loop leaves the old blobs followed by one new blob per connection, in prompt order. */
  lemma AddExtends(c: Codec, fs: FileState, iv: nat -> Nonce, records: seq<Dict>, recs: seq<Dict>)
    requires Faithful(c) && AllStorable(records)
    requires !fs.Garbled? && EncryptAll(c, iv, records).Some? && DecryptAll(c, Existing(fs)) == Some(recs)
    ensures AddOutcome(c, fs, iv, records).1 == Done
    ensures DecryptAll(c, AddOutcome(c, fs, iv, records).0.blobs) == Some(recs + records)
  {
    DecryptAllEncryptAll(c, iv, records);
    DecryptAllConcat(c, Existing(fs), EncryptAll(c, iv, records).value);
  }

  /** The outcomes of `remove_connection` that write nothing: every status but Done. */
  lemma RemoveWritesOnlyOnSuccess(c: Codec, fs: FileState, iv: nat -> Nonce, ip: string)
    ensures fs.Missing? ==> RemoveOutcome(c, fs, iv, ip) == (fs, NoVault)
    ensures fs.Garbled? ==> RemoveOutcome(c, fs, iv, ip) == (fs, Unreadable)
    ensures fs.Stored? && DecryptAll(c, fs.blobs).Some? && (forall j :: 0 <= j < |fs.blobs| ==> Misses(DecryptAll(c, fs.blobs).value[j], ip))
      ==> RemoveOutcome(c, fs, iv, ip) == (fs, NotFound)
  {
    if fs.Stored? && DecryptAll(c, fs.blobs).Some? {
      var recs := DecryptAll(c, fs.blobs).value;
      if forall j :: 0 <= j < |fs.blobs| ==> Misses(recs[j], ip) {
        FirstMatchUnique(recs, ip, Absent);
      }
    }
  }

  /**
   * Removing a host that is present leaves one blob fewer, and the vault decrypts to the old
   * records with the first one for that host deleted, the survivors in their old order.
   */
  lemma RemoveDeletesFirstMatch(c: Codec, bs: seq<string>, iv: nat -> Nonce, ip: string, recs: seq<Dict>, i: nat)
    requires Faithful(c) && Coherent(c)
    requires DecryptAll(c, bs) == Some(recs) && AllStorable(recs) && FirstMatch(recs, ip) == At(i)
    ensures RemoveOutcome(c, Stored(bs), iv, ip).1 == Done
    ensures |RemoveOutcome(c, Stored(bs), iv, ip).0.blobs| == |bs| - 1
    ensures DecryptAll(c, RemoveOutcome(c, Stored(bs), iv, ip).0.blobs) == Some(recs[..i] + recs[i + 1..])
  {
    var survivors := recs[..i] + recs[i + 1..];
    EncryptAllSucceeds(c, bs, iv, survivors);
    StorableWithout(recs, i);
    DecryptAllEncryptAll(c, iv, survivors);
    assert RemoveOutcome(c, Stored(bs), iv, ip) == (Stored(EncryptAll(c, iv, survivors).value), Done);
  }

  /** Where the search ends in a slot and its record encrypts, that one blob is replaced. */
  lemma EditVaultWrites(c: Codec, bs: seq<string>, n: Nonce, ip: string, attribute: string, v: Val, recs: seq<Dict>, i: nat)
    requires DecryptAll(c, bs) == Some(recs) && recs != [] && !FirstMatch(recs, ip).NoIpKey?
    requires i == EditSlot(recs, FirstMatch(recs, ip)) && c.enc(n, Set(recs[i], attribute, v)).Some?
    ensures EditVault(c, bs, n, ip, attribute, v) ==
      (Stored(bs[i := c.enc(n, Set(recs[i], attribute, v)).value]), if FirstMatch(recs, ip).At? then Done else NotFound)
  {
  }

  /**
   * Editing a host that is present keeps the vault's length and every other blob byte for
   * byte; the one rewritten blob decrypts to the old record with `attribute` set, and the
   * vault to the old records with that one replaced.
   */
  lemma EditReplacesMatch(c: Codec, bs: seq<string>, n: Nonce, ip: string, attribute: string, v: Val,
                          recs: seq<Dict>, i: nat)
    requires Faithful(c) && Coherent(c)
    requires DecryptAll(c, bs) == Some(recs) && FirstMatch(recs, ip) == At(i)
    requires Storable(Set(recs[i], attribute, v))
    ensures var r := EditVault(c, bs, n, ip, attribute, v);
      && r.1 == Done && r.0.Stored? && |r.0.blobs| == |bs|
      && (forall j :: 0 <= j < |bs| && j != i ==> r.0.blobs[j] == bs[j])
      && DecryptAll(c, r.0.blobs) == Some(recs[i := Set(recs[i], attribute, v)])
      && Get(Set(recs[i], attribute, v), attribute) == Some(v)
  {
    assert c.dec(bs[0]).Some?;
    var rec := Set(recs[i], attribute, v);
    var b := c.enc(n, rec).value;
    EditVaultWrites(c, bs, n, ip, attribute, v, recs, i);
    assert c.dec(b) == Some(rec);
    DecryptAllUpdate(c, bs, recs, i, b, rec);
    SetThenGet(recs[i], attribute, v);
  }

  /**
   * Editing a host that is absent from a non-empty vault reports it and still overwrites the
   * last record: the search loop leaves `connection` and `index` at the last entry.
   */
  lemma EditFallsThroughToLast(c: Codec, bs: seq<string>, n: Nonce, ip: string, attribute: string, v: Val, recs: seq<Dict>)
    requires Faithful(c) && Coherent(c)
    requires DecryptAll(c, bs) == Some(recs) && recs != [] && forall j :: 0 <= j < |recs| ==> Misses(recs[j], ip)
    requires Storable(Set(recs[|recs| - 1], attribute, v))
    ensures var r := EditVault(c, bs, n, ip, attribute, v);
      && r.1 == NotFound && r.0.Stored? && |r.0.blobs| == |bs|
      && (forall j :: 0 <= j < |bs| - 1 ==> r.0.blobs[j] == bs[j])
      && DecryptAll(c, r.0.blobs) == Some(recs[|recs| - 1 := Set(recs[|recs| - 1], attribute, v)])
  {
    FirstMatchUnique(recs, ip, Absent);
    assert c.dec(bs[0]).Some?;
    var k := |recs| - 1;
    var rec := Set(recs[k], attribute, v);
    var b := c.enc(n, rec).value;
    EditVaultWrites(c, bs, n, ip, attribute, v, recs, k);
    assert EditVault(c, bs, n, ip, attribute, v) == (Stored(bs[k := b]), NotFound);
    assert c.dec(b) == Some(rec);
    DecryptAllUpdate(c, bs, recs, k, b, rec);
  }

  /** On a stored vault, once `change` converts, editing is `EditVault` with the converted value. */
  lemma EditOutcomeStored(c: Codec, bs: seq<string>, n: Nonce, ip: string, attribute: string, change: string)
    ensures EditOutcome(c, Stored(bs), n, ip, attribute, change) ==
      match EditValue(attribute, change)
      case None => (Stored(bs), Crashed(ValueError))
      case Some(v) => EditVault(c, bs, n, ip, attribute, v)
  {
  }

  /** `int(change)` for the port: a decimal written by `str` is stored as that int. */
  lemma EditPortIsInt(i: int)
    ensures EditValue("port", IntText(i)) == Some(Int(i))
  {
    ParseIntText(i);
  }

  /** One more record: the import so far, then its `add()`. */
  lemma AppendAllStep(c: Codec, fs: FileState, iv: nat -> Nonce, records: seq<Dict>, k: nat)
    requires k < |records| && AppendAll(c, fs, iv, records[..k]).1 == Done
    ensures AppendAll(c, fs, iv, records[..k + 1]) == AppendOutcome(c, AppendAll(c, fs, iv, records[..k]).0, iv(k), records[k])
  {
    assert records[..k + 1][..k] == records[..k];
  }

  /** An `add()` that crashes ends the import: nothing appended after it. */
  lemma {:induction false} AppendAllStops(c: Codec, fs: FileState, iv: nat -> Nonce, records: seq<Dict>, k: nat)
    requires k <= |records| && AppendAll(c, fs, iv, records[..k]).1 != Done
    ensures AppendAll(c, fs, iv, records) == AppendAll(c, fs, iv, records[..k])
    decreases |records| - k
  {
    if k < |records| {
      var front := records[..|records| - 1];
      assert front[..k] == records[..k];
      AppendAllStops(c, fs, iv, front, k);
    } else {
      assert records[..k] == records;
    }
  }

  /** Appending records one `add()` at a time is appending all their blobs at once. */
  lemma {:induction false} AppendAllExtends(c: Codec, fs: FileState, iv: nat -> Nonce, records: seq<Dict>)
    requires !fs.Garbled? && EncryptAll(c, iv, records).Some?
    ensures AppendAll(c, fs, iv, records) ==
      (if records == [] then fs else Stored(Existing(fs) + EncryptAll(c, iv, records).value), Done)
    decreases |records|
  {
    if records != [] {
      var k := |records| - 1;
      var front := records[..k];
      var bs := EncryptAll(c, iv, records).value;
      EncryptAllFront(c, iv, records);
      AppendAllExtends(c, fs, iv, front);
      var r := AppendAll(c, fs, iv, front);
      assert r.1 == Done && !r.0.Garbled?;
      assert Existing(r.0) == Existing(fs) + bs[..k];
      assert c.enc(iv(k), records[k]) == Some(bs[k]);
      assert AppendOutcome(c, r.0, iv(k), records[k]) == (Stored(Existing(r.0) + [bs[k]]), Done);
      assert Existing(r.0) + [bs[k]] == Existing(fs) + bs;
      assert AppendAll(c, fs, iv, records) == AppendOutcome(c, r.0, iv(k), records[k]);
    }
  }

  /** Encrypting all but the last record gives all but the last blob. */
  lemma EncryptAllFront(c: Codec, iv: nat -> Nonce, records: seq<Dict>)
    requires records != [] && EncryptAll(c, iv, records).Some?
    ensures EncryptAll(c, iv, records[..|records| - 1]) == Some(EncryptAll(c, iv, records).value[..|records| - 1])
  {
    var k := |records| - 1;
    var front := records[..k];
    assert forall i :: 0 <= i < k ==> front[i] == records[i];
    var e := EncryptAll(c, iv, front);
    assert e.Some?;
    assert e.value == EncryptAll(c, iv, records).value[..k];
  }

  // ---------------------------------------------------------------- loop_add

  /**
   * `list.json` as `json.load` gives it to `loop_add`; a field is None when the key is absent.
   * "ips" is a list, "creds" an object, "connections" a list of objects.
   */
  datatype ImportList = ImportList(loop: Option<Val>, ips: Option<seq<Val>>, creds: Option<Dict>, connections: Option<seq<Dict>>)

  /** Records appended before the import stops, and the exception that stops it, if any. */
  datatype Plan = Plan(records: seq<Dict>, error: Option<Error>)

  /** Python's `v == True`: also true of the integer 1. */
  predicate IsTrue(v: Val)
  {
    v == Bool(true) || v == Int(1)
  }

  /** The record `loop_add` builds, with its fields in the order the source writes them. */
  function Connection(user: Val, ip: Val, port: Val, password: Val, sudo: Val, manager: Val): Dict
  {
    [Member("user", user), Member("ip", ip), Member("port", port),
     Member("password", password), Member("passwordSudo", sudo), Member("manager", manager)]
  }

  /** A built record has the ip it was given. */
  lemma ConnectionIp(user: Val, ip: Val, port: Val, password: Val, sudo: Val, manager: Val)
    ensures Get(Connection(user, ip, port, password, sudo, manager), "ip") == Some(ip)
  {
    var d := Connection(user, ip, port, password, sudo, manager);
    assert d[0].key != "ip" && d[1..][0].key == "ip";
  }

  /** A shared-credentials record for one ip; None is the KeyError of a missing credential. */
  function SharedRecord(creds: Dict, ip: Val): Option<Dict>
  {
    match (Get(creds, "user"), Get(creds, "port"), Get(creds, "password"), Get(creds, "passwordSudo"), Get(creds, "manager"))
    case (Some(u), Some(p), Some(pw), Some(s), Some(m)) => Some(Connection(u, ip, p, pw, s, m))
    case _ => None
  }

  lemma SharedRecordIp(creds: Dict, ip: Val)
    requires SharedRecord(creds, ip).Some?
    ensures Get(SharedRecord(creds, ip).value, "ip") == Some(ip)
  {
    var u, p, pw, s, m := Get(creds, "user").value, Get(creds, "port").value, Get(creds, "password").value,
      Get(creds, "passwordSudo").value, Get(creds, "manager").value;
    ConnectionIp(u, ip, p, pw, s, m);
  }

  /** A record with its own credentials; None is the KeyError of a missing field. */
  function OwnRecord(conn: Dict): Option<Dict>
  {
    match (Get(conn, "user"), Get(conn, "ip"), Get(conn, "port"), Get(conn, "password"), Get(conn, "passwordSudo"), Get(conn, "manager"))
    case (Some(u), Some(i), Some(p), Some(pw), Some(s), Some(m)) => Some(Connection(u, i, p, pw, s, m))
    case _ => None
  }

  function Then(r: Dict, p: Plan): Plan
  {
    Plan([r] + p.records, p.error)
  }

  /** The shared-credentials records, one per ip; with no "creds" every one is a KeyError. */
  function SharedRecords(creds: Option<Dict>, ips: seq<Val>): (rs: seq<Option<Dict>>)
    ensures |rs| == |ips|
  {
    seq(|ips|, i requires 0 <= i < |ips| => if creds.None? then None else SharedRecord(creds.value, ips[i]))
  }

  function OwnRecords(conns: seq<Dict>): (rs: seq<Option<Dict>>)
    ensures |rs| == |conns|
  {
    seq(|conns|, j requires 0 <= j < |conns| => OwnRecord(conns[j]))
  }

  /**
   * One import loop over the records it builds: a record that cannot be built is a KeyError
   * before its `add()`; otherwise it is added, and then the log line runs, raising `logError`.
   */
  function LoopPlan(built: seq<Option<Dict>>, logError: Option<Error>): (p: Plan)
    ensures |p.records| <= |built|
  {
    if built == [] then Plan([], None)
    else
      match built[0]
      case None => Plan([], Some(KeyError))
      case Some(r) => if logError.Some? then Plan([r], logError) else Then(r, LoopPlan(built[1..], logError))
  }

  /**
   * The log line after each separate-credentials `add()` formats `cons["creds"]["user"]`,
   * the `ip` left over from the shared loop, then the port and manager of the shared
   * credentials; the first one missing raises.  It reads nothing of the connection itself.
   */
  function LogLineError(creds: Option<Dict>, ipBound: bool): Option<Error>
  {
    if creds.None? || Get(creds.value, "user").None? then Some(KeyError)
    else if !ipBound then Some(NameError)
    else if Get(creds.value, "port").None? || Get(creds.value, "manager").None? then Some(KeyError)
    else None
  }

  /**
   * `loop_add` once `list.json` is read: the shared loop when "loop" is true, then the
   * separate loop when "connections" is non-empty.  With `fixedLog` the log line describes
   * the record just added and cannot raise.  An unreadable `list.json` leaves `cons` unbound.
   */
  function ImportPlanWith(list: Option<ImportList>, fixedLog: bool): (p: Plan)
  {
    if list.None? then Plan([], Some(NameError))
    else
      var l := list.value;
      if l.loop.None? then Plan([], Some(KeyError))
      else
        var shared := SharedPlan(l);
        if shared.error.Some? then shared
        else if l.connections.None? then Plan(shared.records, Some(KeyError))
        else if l.connections.value == [] then shared
        else
          var ipBound := IsTrue(l.loop.value) && l.ips.value != [];
          var logError := if fixedLog then None else LogLineError(l.creds, ipBound);
          var own := LoopPlan(OwnRecords(l.connections.value), logError);
          Plan(shared.records + own.records, own.error)
  }

  /** The shared-credentials loop, run when "loop" is true. */
  function SharedPlan(l: ImportList): Plan
    requires l.loop.Some?
  {
    if !IsTrue(l.loop.value) then Plan([], None)
    else if l.ips.None? then Plan([], Some(KeyError))
    else LoopPlan(SharedRecords(l.creds, l.ips.value), None)
  }

  /** The import as written, with the log line of the separate-credentials loop. */
  function ImportPlan(list: Option<ImportList>): Plan
  {
    ImportPlanWith(list, false)
  }

  /** The import as evidently intended: the log line describes the record just added. */
  function IntendedPlan(list: Option<ImportList>): Plan
  {
    ImportPlanWith(list, true)
  }

  /** A list whose every record can be built: the shared ones when "loop" is true, and every connection. */
  predicate WellFormed(l: ImportList)
  {
    && l.loop.Some? && l.connections.Some?
    && (IsTrue(l.loop.value) ==>
          l.ips.Some? && forall x :: x in SharedRecords(l.creds, l.ips.value) ==> x.Some?)
    && forall x :: x in OwnRecords(l.connections.value) ==> x.Some?
  }

  /** A loop whose every record can be built and whose log line cannot raise adds them all, in order. */
  lemma {:induction false} LoopPlanAll(built: seq<Option<Dict>>)
    requires forall x :: x in built ==> x.Some?
    ensures LoopPlan(built, None).error.None? && |LoopPlan(built, None).records| == |built|
    ensures forall i :: 0 <= i < |built| ==> LoopPlan(built, None).records[i] == built[i].value
  {
    if built != [] {
      assert built[0] in built;
      LoopPlanAll(built[1..]);
      assert forall i :: 1 <= i < |built| ==> built[1..][i - 1] == built[i];
    }
  }

  /**
   * The intended import of a well-formed list appends, in order, one record per ip with the
   * shared credentials and that ip (when "loop" is true), then one record per connection
   * with its own fields, and raises nothing.
   */
  lemma IntendedPlanShape(l: ImportList)
    requires WellFormed(l)
    ensures var p := IntendedPlan(Some(l));
      var shared := if IsTrue(l.loop.value) then |l.ips.value| else 0;
      && p.error.None? && |p.records| == shared + |l.connections.value|
      && (forall i :: 0 <= i < shared ==>
            p.records[i] == SharedRecords(l.creds, l.ips.value)[i].value && Get(p.records[i], "ip") == Some(l.ips.value[i]))
      && (forall j :: 0 <= j < |l.connections.value| ==> p.records[shared + j] == OwnRecords(l.connections.value)[j].value)
  {
    var sp := SharedPlan(l);
    SharedPlanShape(l);
    var op := LoopPlan(OwnRecords(l.connections.value), None);
    LoopPlanAll(OwnRecords(l.connections.value));
    assert IntendedPlan(Some(l)) == Plan(sp.records + op.records, None) by {
      if l.connections.value == [] {
        assert sp.records + op.records == sp.records;
      }
    }
  }

  /** The shared loop of a well-formed list adds one record per ip, in order, each with that ip. */
  lemma SharedPlanShape(l: ImportList)
    requires WellFormed(l)
    ensures var p := SharedPlan(l);
      var shared := if IsTrue(l.loop.value) then |l.ips.value| else 0;
      && p.error.None? && |p.records| == shared
      && (forall i :: 0 <= i < shared ==>
            p.records[i] == SharedRecords(l.creds, l.ips.value)[i].value && Get(p.records[i], "ip") == Some(l.ips.value[i]))
  {
    if IsTrue(l.loop.value) {
      var built := SharedRecords(l.creds, l.ips.value);
      LoopPlanAll(built);
      forall i | 0 <= i < |l.ips.value| ensures Get(built[i].value, "ip") == Some(l.ips.value[i]) {
        assert built[i] in built;
        SharedRecordIp(l.creds.value, l.ips.value[i]);
      }
    }
  }

  /**
   * As written, a list with separate credentials only ("loop" false) imports its first
   * connection and then raises from the log line: NameError for the unbound `ip`, or KeyError
   * when "creds" has no "user".  The intended import adds every connection.
   */
  lemma ImportStopsAfterFirstConnection(l: ImportList)
    requires l.loop == Some(Bool(false)) && l.connections.Some? && |l.connections.value| >= 2
    requires forall x :: x in OwnRecords(l.connections.value) ==> x.Some?
    ensures ImportPlan(Some(l)).records == [OwnRecord(l.connections.value[0]).value]
    ensures ImportPlan(Some(l)).error == Some(if l.creds.Some? && Get(l.creds.value, "user").Some? then NameError else KeyError)
    ensures IntendedPlan(Some(l)).error.None? && |IntendedPlan(Some(l)).records| == |l.connections.value|
  {
    assert WellFormed(l);
    var own := OwnRecords(l.connections.value);
    assert own[0] in own;
    var logError := LogLineError(l.creds, false);
    assert logError == Some(if l.creds.Some? && Get(l.creds.value, "user").Some? then NameError else KeyError);
    assert SharedPlan(l) == Plan([], None);
    assert LoopPlan(own, logError) == Plan([own[0].value], logError);
    assert ImportPlan(Some(l)) == Plan([] + [own[0].value], logError);
    IntendedPlanShape(l);
  }

  /**
   * Where the separate-credentials loop does not run, or the shared loop has run and bound
   * `ip`, the log line works, and the import as written is the intended one.
   */
  lemma ImportAgreesAfterSharedLoop(l: ImportList)
    requires WellFormed(l) && (l.connections.value == [] || (IsTrue(l.loop.value) && l.ips.value != []))
    ensures ImportPlan(Some(l)) == IntendedPlan(Some(l))
  {
    if l.connections.value == [] {
      return;
    }
    var built := SharedRecords(l.creds, l.ips.value);
    assert built[0] in built;
    assert l.creds.Some?;
    assert SharedRecord(l.creds.value, l.ips.value[0]).Some?;
    assert LogLineError(l.creds, true).None?;
  }

  /** `loop_add` as written: the import's records appended one `add()` at a time; a crash stops it. */
  function ImportOutcome(c: Codec, fs: FileState, iv: nat -> Nonce, list: Option<ImportList>): (r: (FileState, Status))
  {
    RunOutcome(c, fs, iv, ImportPlan(list))
  }

  /** The records of a plan appended in order, then its exception, if any. */
  function RunOutcome(c: Codec, fs: FileState, iv: nat -> Nonce, plan: Plan): (r: (FileState, Status))
    ensures plan.error.Some? ==> r.1 != Done
  {
    var r := AppendAll(c, fs, iv, plan.records);
    if r.1 != Done then r
    else (r.0, if plan.error.Some? then Crashed(plan.error.value) else Done)
  }

  /**
   * Importing a well-formed list whose log lines work (no separate credentials, or a
   * non-empty shared loop before them) into a readable vault with a working key appends
   * one blob per planned record, and the vault then decrypts to its old records followed
   * by them.
   */
  lemma ImportExtends(c: Codec, fs: FileState, iv: nat -> Nonce, l: ImportList, recs: seq<Dict>)
    requires Faithful(c) && WellFormed(l) && AllStorable(ImportPlan(Some(l)).records)
    requires l.connections.value == [] || (IsTrue(l.loop.value) && l.ips.value != [])
    requires !fs.Garbled? && DecryptAll(c, Existing(fs)) == Some(recs)
    requires EncryptAll(c, iv, ImportPlan(Some(l)).records).Some?
    ensures ImportOutcome(c, fs, iv, Some(l)).1 == Done
    ensures ImportPlan(Some(l)).records != [] ==>
      DecryptAll(c, ImportOutcome(c, fs, iv, Some(l)).0.blobs) == Some(recs + ImportPlan(Some(l)).records)
  {
    ImportAgreesAfterSharedLoop(l);
    var records := ImportPlan(Some(l)).records;
    IntendedPlanShape(l);
    AppendAllExtends(c, fs, iv, records);
    DecryptAllEncryptAll(c, iv, records);
    DecryptAllConcat(c, Existing(fs), EncryptAll(c, iv, records).value);
  }

  /**
   * As written, importing a list with separate credentials only ("loop" false) into a
   * readable vault appends the first connection's blob and then crashes from the log line;
   * the vault decrypts to its old records followed by that one connection.
   */
  lemma ImportCrashesAfterFirstConnection(c: Codec, fs: FileState, iv: nat -> Nonce, l: ImportList, recs: seq<Dict>)
    requires Faithful(c)
    requires l.loop == Some(Bool(false)) && l.connections.Some? && |l.connections.value| >= 2
    requires forall x :: x in OwnRecords(l.connections.value) ==> x.Some?
    requires !fs.Garbled? && DecryptAll(c, Existing(fs)) == Some(recs)
    requires OwnRecord(l.connections.value[0]).Some?
    requires Storable(OwnRecord(l.connections.value[0]).value)
    requires c.enc(iv(0), OwnRecord(l.connections.value[0]).value).Some?
    ensures ImportOutcome(c, fs, iv, Some(l)).1 ==
      Crashed(if l.creds.Some? && Get(l.creds.value, "user").Some? then NameError else KeyError)
    ensures ImportOutcome(c, fs, iv, Some(l)).0.Stored?
    ensures DecryptAll(c, ImportOutcome(c, fs, iv, Some(l)).0.blobs) == Some(recs + [OwnRecord(l.connections.value[0]).value])
  {
    var first := OwnRecord(l.connections.value[0]).value;
    var e := if l.creds.Some? && Get(l.creds.value, "user").Some? then NameError else KeyError;
    ImportStopsAfterFirstConnection(l);
    assert ImportPlan(Some(l)) == Plan([first], Some(e));
    RunOneThenCrash(c, fs, iv, first, e, recs);
  }

  /** A plan of one record and an exception appends that record, then crashes. */
  lemma RunOneThenCrash(c: Codec, fs: FileState, iv: nat -> Nonce, first: Dict, e: Error, recs: seq<Dict>)
    requires Faithful(c) && Storable(first) && c.enc(iv(0), first).Some?
    requires !fs.Garbled? && DecryptAll(c, Existing(fs)) == Some(recs)
    ensures RunOutcome(c, fs, iv, Plan([first], Some(e))).1 == Crashed(e)
    ensures RunOutcome(c, fs, iv, Plan([first], Some(e))).0.Stored?
    ensures DecryptAll(c, RunOutcome(c, fs, iv, Plan([first], Some(e))).0.blobs) == Some(recs + [first])
  {
    assert [first][..0] == [];
    assert AppendAll(c, fs, iv, [first]) == AppendOutcome(c, fs, iv(0), first);
    AppendExtends(c, fs, iv(0), first, recs);
  }

  // ---------------------------------------------------------------- connections.json

  /** The vault file; each operation reads it, and some write it back whole. */
  class ConnectionsFile {
    var state: FileState

    constructor (fs: FileState)
      ensures state == fs
    {
      state := fs;
    }

    /** The `add` closure of `loop_add`: append one encrypted record. */
    method Append(c: Codec, n: Nonce, record: Dict) returns (st: Status)
      modifies this
      ensures (state, st) == AppendOutcome(c, old(state), n, record)
    {
      if state.Garbled? {
        return Crashed(JsonDecodeError);
      }
      var blobs := Existing(state);
      var blob := c.enc(n, record);
      if blob.None? {
        return Crashed(ValueError);
      }
      blobs := blobs + [blob.value];
      state := Stored(blobs);
      return Done;
    }

    /** The add loop of `main`: the vault is read once, each new connection appended, then written once. */
    method AddConnections(c: Codec, iv: nat -> Nonce, records: seq<Dict>) returns (st: Status)
      modifies this
      ensures (state, st) == AddOutcome(c, old(state), iv, records)
    {
      if state.Garbled? {
        return Crashed(JsonDecodeError);
      }
      var blobs := Existing(state);
      var k := 0;
      while k < |records|
        invariant 0 <= k <= |records|
        invariant EncryptAll(c, iv, records[..k]).Some?
        invariant blobs == Existing(state) + EncryptAll(c, iv, records[..k]).value
      {
        var blob := c.enc(iv(k), records[k]);
        if blob.None? {
          return Crashed(ValueError);
        }
        assert records[..k + 1][..k] == records[..k];
        blobs := blobs + [blob.value];
        k := k + 1;
      }
      assert records[..k] == records;
      state := Stored(blobs);
      return Done;
    }

    /** `remove_connection(key, ip)`. */
    method Remove(c: Codec, iv: nat -> Nonce, ip: string) returns (st: Status)
      modifies this
      ensures (state, st) == RemoveOutcome(c, old(state), iv, ip)
    {
      if state.Missing? {
        return NoVault;
      }
      if state.Garbled? {
        return Unreadable;
      }
      var decrypted := DecryptEach(c, state.blobs);
      if decrypted.None? {
        return Exited;
      }
      var m := Locate(decrypted.value, ip);
      if m.NoIpKey? {
        return Crashed(KeyError);
      }
      if m.Absent? {
        return NotFound;
      }
      var survivors := decrypted.value[..m.index] + decrypted.value[m.index + 1..];
      var encrypted := EncryptEach(c, iv, survivors);
      if encrypted.None? {
        return Crashed(ValueError);
      }
      state := Stored(encrypted.value);
      return Done;
    }

    /** `edit_credentials(key, ip, attribute, change)`. */
    method Edit(c: Codec, n: Nonce, ip: string, attribute: string, change: string) returns (st: Status)
      modifies this
      ensures (state, st) == EditOutcome(c, old(state), n, ip, attribute, change)
    {
      var v := EditValue(attribute, change);
      if v.None? {
        return Crashed(ValueError);
      }
      if state.Garbled? {
        return Crashed(JsonDecodeError);
      }
      if state.Missing? {
        return Crashed(NameError);
      }
      var blobs := state.blobs;
      var decrypted := DecryptEach(c, blobs);
      if decrypted.None? {
        return Exited;
      }
      var m := Locate(decrypted.value, ip);
      if m.NoIpKey? {
        return Crashed(KeyError);
      }
      if decrypted.value == [] {
        return Crashed(NameError);
      }
      var index := EditSlot(decrypted.value, m);
      var connection := Set(decrypted.value[index], attribute, v.value);
      var blob := c.enc(n, connection);
      if blob.None? {
        return Crashed(ValueError);
      }
      blobs := blobs[index := blob.value];
      state := Stored(blobs);
      st := if m.At? then Done else NotFound;
    }

    /** `loop_add(key)`: each planned record is appended by its own `add()`, in order. */
    method Import(c: Codec, iv: nat -> Nonce, list: Option<ImportList>) returns (st: Status)
      modifies this
      ensures (state, st) == ImportOutcome(c, old(state), iv, list)
    {
      st := Run(c, iv, ImportPlan(list));
    }

    /** The `add()` calls of an import plan, then the exception that ends it, if any. */
    method Run(c: Codec, iv: nat -> Nonce, plan: Plan) returns (st: Status)
      modifies this
      ensures (state, st) == RunOutcome(c, old(state), iv, plan)
    {
      var k := 0;
      while k < |plan.records|
        invariant 0 <= k <= |plan.records|
        invariant AppendAll(c, old(state), iv, plan.records[..k]) == (state, Done)
      {
        AppendAllStep(c, old(state), iv, plan.records, k);
        st := Append(c, iv(k), plan.records[k]);
        if st != Done {
          AppendAllStops(c, old(state), iv, plan.records, k + 1);
          return;
        }
        k := k + 1;
      }
      assert plan.records[..k] == plan.records;
      st := if plan.error.Some? then Crashed(plan.error.value) else Done;
    }
  }
}

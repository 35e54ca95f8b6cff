/**
 * The small rules around the vault: the log tail of `read_log`, the "Passwordless sudo"
 * column of `list_connections`, the listing itself, and the guard that decides whether
 * `update_system` and `test_connection` type the password into the remote sudo prompt.
 */
module Console {
  import opened Basics
  import opened Json
  import opened Crypto
  import Vault

  // ---------------------------------------------------------------- read_log

  /**
   * `read_log(number_of_lines)`: the log's lines pass through `deque(maxlen=int(n))`, which
   * keeps the newest n.  A missing log file (None), a count `int` rejects and a negative
   * count all raise: None.
   */
  method ReadLog(log: Option<seq<string>>, count: string) returns (r: Option<seq<string>>)
    ensures r.Some? <==> log.Some? && Vault.ParseInt(count).Some? && Vault.ParseInt(count).value >= 0
    ensures r.Some? ==> |r.value| == Min(Vault.ParseInt(count).value, |log.value|)
    ensures r.Some? ==> r.value == log.value[|log.value| - |r.value|..]
  {
    if log.None? {
      return None;
    }
    var parsed := Vault.ParseInt(count);
    if parsed.None? || parsed.value < 0 {
      return None;
    }
    var n := parsed.value;
    var lines := log.value;
    var window: seq<string> := [];
    var i := 0;
    while i < |lines|
      invariant 0 <= i <= |lines|
      invariant |window| == Min(n, i)
      invariant window == lines[i - |window|..i]
    {
      WindowGrows(lines, i, |window|);
      if |window| == n {
        window := (window + [lines[i]])[1..];
      } else {
        window := window + [lines[i]];
      }
      i := i + 1;
    }
    assert lines[i - |window|..i] == lines[|lines| - |window|..];
    return Some(window);
  }

  /** The newest `k` lines before `i`, with line `i` added, are the newest `k + 1` before `i + 1`. */
  lemma WindowGrows(lines: seq<string>, i: nat, k: nat)
    requires k <= i < |lines|
    ensures lines[i - k..i] + [lines[i]] == lines[i - k..i + 1]
    ensures k > 0 ==> (lines[i - k..i] + [lines[i]])[1..] == lines[i + 1 - k..i + 1]
  {
  }

  // ---------------------------------------------------------------- passwordless sudo

  /** The "Passwordless sudo" column: "No" for '', 'n' and 'no', "Yes" for anything else. */
  function SudoDisplay(sudo: Val): (shown: string)
    ensures shown == "No" || shown == "Yes"
    ensures shown == "No" <==> sudo.Str? && sudo.s in {"", "n", "no"}
  {
    if sudo in [Str(""), Str("n"), Str("no")] then "No" else "Yes"
  }

  /** The answers the "Passwordless sudo? (Y/n)" prompt of `add_new_connection` accepts. */
  predicate Accepted(answer: string)
  {
    answer in ["y", "n", "", "yes", "no"]
  }

  /** Python truthiness of a record value. */
  predicate Truthy(v: Val)
  {
    match v
    case Str(s) => s != []
    case Int(i) => i != 0
    case Bool(b) => b
    case Null => false
  }

  /** The guard `not sudo_password == 'y' or 'yes'`, which Python reads as `(not (...)) or 'yes'`. */
  predicate PasswordGuardAsWritten(sudo: Val)
  {
    !(sudo == Str("y")) || Truthy(Str("yes"))
  }

  /** The guard as written holds for every value, 'y' and 'yes' included: the password is always typed. */
  lemma PasswordGuardAlwaysHolds(sudo: Val)
    ensures PasswordGuardAsWritten(sudo)
    ensures PasswordGuardAsWritten(Str("y")) && PasswordGuardAsWritten(Str("yes"))
  {
    assert Str("yes").s != [];
  }

  /** The guard as evidently intended: type the password unless sudo is passwordless. */
  predicate ShouldSendPassword(sudo: Val)
  {
    sudo != Str("y") && sudo != Str("yes")
  }

  /**
   * For every answer the prompt accepts, the corrected guard types the password exactly when
   * the listing shows "Passwordless sudo: No".
   */
  lemma SendPasswordMatchesDisplay(answer: string)
    requires Accepted(answer)
    ensures ShouldSendPassword(Str(answer)) <==> SudoDisplay(Str(answer)) == "No"
  {
  }

  // ---------------------------------------------------------------- list_connections

  /** `str()` of a record value inside an f-string. */
  function Text(v: Val): string
  {
    match v
    case Str(s) => s
    case Int(i) => IntText(i)
    case Bool(b) => if b then "True" else "False"
    case Null => "None"
  }

  /**
   * The line `list_connections` prints for one record; None is the KeyError of a missing
   * field ("passwordSudo" is read first, then the fields of the f-string).
   */
  function ConnectionLine(rec: Dict): (line: Option<string>)
    ensures line.Some? <==>
      Get(rec, "passwordSudo").Some? && Get(rec, "user").Some? && Get(rec, "ip").Some?
      && Get(rec, "port").Some? && Get(rec, "manager").Some?
  {
    match (Get(rec, "passwordSudo"), Get(rec, "user"), Get(rec, "ip"), Get(rec, "port"), Get(rec, "manager"))
    case (Some(sudo), Some(user), Some(ip), Some(port), Some(manager)) =>
      Some(Text(user) + "@" + Text(ip) + ":" + Text(port) + ", Manager: " + Text(manager)
        + ", Passwordless sudo: " + SudoDisplay(sudo))
    case _ => None
  }

  /**
   * `list_connections(encrypted_data, key)`: one line per blob, in vault order.  A blob that
   * does not decrypt ends the program after the lines before it; a record missing a field
   * raises KeyError there.
   */
  method ListConnections(c: Codec, bs: seq<string>) returns (lines: seq<string>, st: Vault.Status)
    ensures st == Vault.Done || st == Vault.Exited || st == Vault.Crashed(Vault.KeyError)
    ensures |lines| <= |bs|
    ensures forall i :: 0 <= i < |lines| ==> c.dec(bs[i]).Some? && ConnectionLine(c.dec(bs[i]).value) == Some(lines[i])
    ensures st == Vault.Done <==> |lines| == |bs|
    ensures st == Vault.Exited ==> c.dec(bs[|lines|]).None?
    ensures st == Vault.Crashed(Vault.KeyError) ==> c.dec(bs[|lines|]).Some? && ConnectionLine(c.dec(bs[|lines|]).value).None?
  {
    lines := [];
    var i := 0;
    while i < |bs|
      invariant 0 <= i <= |bs| && |lines| == i
      invariant forall j :: 0 <= j < i ==> c.dec(bs[j]).Some? && ConnectionLine(c.dec(bs[j]).value) == Some(lines[j])
    {
      var rec := c.dec(bs[i]);
      if rec.None? {
        return lines, Vault.Exited;
      }
      var line := ConnectionLine(rec.value);
      if line.None? {
        return lines, Vault.Crashed(Vault.KeyError);
      }
      lines := lines + [line.value];
      i := i + 1;
    }
    st := Vault.Done;
  }
}

/**
 The command-line scan at the start of `main` (src/main.rs:10-62).

 The program's argument vector (the program name included) is visited index
 by index. "-s" asks for a network scan at once; "-u" and "-p" take the
 argument after them as the network name and the password. The index the
 source advances past a consumed value is a copy local to one iteration, so
 the loop still visits that value next and reads it as a flag in its own
 right. A password is accepted only if its UTF-8 encoding is 8 to 63 bytes
 long. Instead of printing and exiting, the scan returns a `Command`.
 */
module Arguments {
  import opened Common

  const ScanFlag := "-s"
  const SsidFlag := "-u"
  const PasswordFlag := "-p"

  const MissingSsidMessage := "Missing value for '-u'"
  const MissingPasswordMessage := "Missing value for '-p'"
  const InvalidPasswordMessage := "Password invalid. Must be between 8 and 63 characters long. Inclusive."
  const NotSpecifiedMessage := "WiFi Password or SSID not specified."

  /** What the program goes on to do: scan, configure, or exit with status 1
      after printing the message. */
  datatype Command = Scan | Configure(ssid: string, password: string) | Error(message: string)

  // ---------------------------------------------------------------------
  // Password length, counted in bytes of UTF-8

  /** The number of bytes UTF-8 uses for one Unicode scalar value. */
  function Utf8Width(c: char): (n: nat)
    ensures 1 <= n <= 4
    ensures n == 1 <==> c as int < 0x80
  {
    if c as int < 0x80 then 1
    else if c as int < 0x800 then 2
    else if c as int < 0x1_0000 then 3
    else 4
  }

  /** Rust's `String::len`: the length of the UTF-8 encoding. */
  function Utf8Length(s: string): (n: nat)
    ensures |s| <= n <= 4 * |s|
  {
    if s == [] then 0 else Utf8Width(s[0]) + Utf8Length(s[1..])
  }

  /** When every character takes `w` bytes, the byte length is `w` times the
      character count; with `w == 1` (ASCII) the two counts agree. */
  lemma {:induction false} Utf8LengthUniformWidth(s: string, w: nat)
    requires forall i :: 0 <= i < |s| ==> Utf8Width(s[i]) == w
    ensures Utf8Length(s) == w * |s|
  {
    if s != [] {
      Utf8LengthUniformWidth(s[1..], w);
    }
  }

  predicate ValidPassword(p: string)
  {
    8 <= Utf8Length(p) <= 63
  }

  /** For an ASCII password the bounds are on the number of characters:
      lengths 7 and 64 are refused, 8 and 63 accepted. */
  lemma AsciiPasswordBounds(p: string)
    requires forall i :: 0 <= i < |p| ==> p[i] as int < 0x80
    ensures ValidPassword(p) <==> 8 <= |p| <= 63
  {
    Utf8LengthUniformWidth(p, 1);
  }

  /** Thirty-two two-byte characters make 64 bytes: refused, although the
      password has fewer than 63 characters. */
  lemma MultiByteCharactersCountTwice(p: string)
    requires |p| == 32 && forall i :: 0 <= i < |p| ==> p[i] == 'é'
    ensures !ValidPassword(p)
  {
    Utf8LengthUniformWidth(p, 2);
  }

  // ---------------------------------------------------------------------
  // Reference definition of the scan

  /** Visiting index `k` ends the scan: a scan request, a flag with no value
      after it, or a password value of the wrong length. */
  predicate StopsAt(args: seq<string>, k: nat)
    requires k < |args|
  {
    || args[k] == ScanFlag
    || (args[k] == SsidFlag && k + 1 == |args|)
    || (args[k] == PasswordFlag && (k + 1 == |args| || !ValidPassword(args[k + 1])))
  }

  /** The command a stop at index `k` produces. */
  function StopCommand(args: seq<string>, k: nat): (c: Command)
    requires k < |args| && StopsAt(args, k)
    ensures c.Scan? <==> args[k] == ScanFlag
    ensures args[k] == SsidFlag ==> c == Error(MissingSsidMessage)
    ensures args[k] == PasswordFlag && k + 1 == |args| ==> c == Error(MissingPasswordMessage)
    ensures args[k] == PasswordFlag && k + 1 < |args| ==> c == Error(InvalidPasswordMessage)
  {
    if args[k] == ScanFlag then Scan
    else if args[k] == SsidFlag then Error(MissingSsidMessage)
    else if k + 1 == |args| then Error(MissingPasswordMessage)
    else Error(InvalidPasswordMessage)
  }

  /** The first index at or after `from` that ends the scan, if any. */
  function FirstStop(args: seq<string>, from: nat): (r: Option<nat>)
    requires from <= |args|
    ensures r.Some? ==> from <= r.value < |args| && StopsAt(args, r.value)
    ensures forall j :: from <= j < |args| && (r.None? || j < r.value) ==> !StopsAt(args, j)
    decreases |args| - from
  {
    if from == |args| then None
    else if StopsAt(args, from) then Some(from)
    else FirstStop(args, from + 1)
  }

  /** The last index before `n` that holds `flag` and has a value after it. */
  function LastFlagIndex(args: seq<string>, flag: string, n: nat): (r: Option<nat>)
    requires n <= |args|
    ensures r.Some? ==> r.value < n && r.value + 1 < |args| && args[r.value] == flag
    ensures forall j :: 0 <= j < n && j + 1 < |args| && (r.None? || r.value < j) ==> args[j] != flag
  {
    if n == 0 then None
    else if args[n - 1] == flag && n < |args| then Some(n - 1)
    else LastFlagIndex(args, flag, n - 1)
  }

  /** The value following the flag at `index`, if there is one. */
  function ValueAt(args: seq<string>, index: Option<nat>): Option<string>
    requires index.Some? ==> index.value + 1 < |args|
  {
    match index
    case None => None
    case Some(k) => Some(args[k + 1])
  }

  /** The command the scan of `args` produces: the first stop decides it;
      without one, the last "-u" and the last "-p" supply the values. */
  function ArgsCommand(args: seq<string>): Command
  {
    match FirstStop(args, 0)
    case Some(k) => StopCommand(args, k)
    case None =>
      var u := LastFlagIndex(args, SsidFlag, |args|);
      var p := LastFlagIndex(args, PasswordFlag, |args|);
      if p.None? || u.None? then Error(NotSpecifiedMessage)
      else Configure(args[u.value + 1], args[p.value + 1])
  }

  // ---------------------------------------------------------------------
  // The loop

  method ParseArgs(args: seq<string>) returns (command: Command)
    ensures command == ArgsCommand(args)
  {
    var password: Option<string> := None;
    var ssid: Option<string> := None;
    for i := 0 to |args|
      invariant forall j :: 0 <= j < i ==> !StopsAt(args, j)
      invariant ssid == ValueAt(args, LastFlagIndex(args, SsidFlag, i))
      invariant password == ValueAt(args, LastFlagIndex(args, PasswordFlag, i))
    {
      var arg := args[i];
      if arg == ScanFlag {
        FirstStopDecides(args, i);
        return Scan;
      } else if arg == SsidFlag {
        if i + 1 >= |args| {
          FirstStopDecides(args, i);
          return Error(MissingSsidMessage);
        }
        ssid := Some(args[i + 1]);
      } else if arg == PasswordFlag {
        if i + 1 >= |args| {
          FirstStopDecides(args, i);
          return Error(MissingPasswordMessage);
        }
        var value := args[i + 1];
        if Utf8Length(value) < 8 || Utf8Length(value) > 63 {
          FirstStopDecides(args, i);
          return Error(InvalidPasswordMessage);
        }
        password := Some(value);
      }
    }
    if password.None? || ssid.None? {
      return Error(NotSpecifiedMessage);
    }
    return Configure(ssid.value, password.value);
  }

  // ---------------------------------------------------------------------
  // Properties of the scan

  /** The first index that ends the scan decides the command; everything
      after it is never looked at. */
  lemma FirstStopDecides(args: seq<string>, k: nat)
    requires k < |args| && StopsAt(args, k)
    requires forall j :: 0 <= j < k ==> !StopsAt(args, j)
    ensures ArgsCommand(args) == StopCommand(args, k)
  {
  }

  /** A configuration is produced only with a password of 8 to 63 bytes. */
  lemma ConfiguredPasswordIsValid(args: seq<string>)
    requires ArgsCommand(args).Configure?
    ensures ValidPassword(ArgsCommand(args).password)
  {
    var p := LastFlagIndex(args, PasswordFlag, |args|).value;
    assert !StopsAt(args, p);
  }

  /** A later "-u" overrides an earlier one: the value after the last "-u"
      that has a value is the network name configured. */
  lemma LastSsidWins(args: seq<string>, k: nat)
    requires ArgsCommand(args).Configure?
    requires k + 1 < |args| && args[k] == SsidFlag
    requires forall j :: k < j && j + 1 < |args| ==> args[j] != SsidFlag
    ensures ArgsCommand(args).ssid == args[k + 1]
  {
    var u := LastFlagIndex(args, SsidFlag, |args|).value;
    assert !(u < k);
  }

  /** Likewise a later "-p" overrides an earlier one. */
  lemma LastPasswordWins(args: seq<string>, k: nat)
    requires ArgsCommand(args).Configure?
    requires k + 1 < |args| && args[k] == PasswordFlag
    requires forall j :: k < j && j + 1 < |args| ==> args[j] != PasswordFlag
    ensures ArgsCommand(args).password == args[k + 1]
  {
    var p := LastFlagIndex(args, PasswordFlag, |args|).value;
    assert !(p < k);
  }

  /** Without a "-u" that has a value after it, or without such a "-p", the
      scan fails with the "not specified" message (unless it stopped first). */
  lemma UnsetValueIsError(args: seq<string>)
    requires forall j :: 0 <= j < |args| ==> !StopsAt(args, j)
    requires (forall j :: 0 <= j && j + 1 < |args| ==> args[j] != SsidFlag)
          || (forall j :: 0 <= j && j + 1 < |args| ==> args[j] != PasswordFlag)
    ensures ArgsCommand(args) == Error(NotSpecifiedMessage)
  {
  }

  /** "-u" or "-p" as the last argument is the "Missing value" error. */
  lemma TrailingFlagIsMissingValue(args: seq<string>)
    requires |args| > 0 && args[|args| - 1] in {SsidFlag, PasswordFlag}
    requires forall j :: 0 <= j < |args| - 1 ==> !StopsAt(args, j)
    ensures ArgsCommand(args) == Error(if args[|args| - 1] == SsidFlag then MissingSsidMessage else MissingPasswordMessage)
  {
    FirstStopDecides(args, |args| - 1);
  }

  /** A password value of the wrong length is an error, whatever follows. */
  lemma BadPasswordIsError(args: seq<string>, k: nat)
    requires k + 1 < |args| && args[k] == PasswordFlag && !ValidPassword(args[k + 1])
    requires forall j :: 0 <= j < k ==> !StopsAt(args, j)
    ensures ArgsCommand(args) == Error(InvalidPasswordMessage)
  {
    FirstStopDecides(args, k);
  }

  /** The value consumed by "-u" is visited again as a flag: a network named
      "-s" starts a scan instead of being configured. */
  lemma ConsumedValueIsReread(args: seq<string>, k: nat)
    requires k + 1 < |args| && args[k] == SsidFlag && args[k + 1] == ScanFlag
    requires forall j :: 0 <= j < k ==> !StopsAt(args, j)
    ensures ArgsCommand(args) == Scan
  {
    assert !StopsAt(args, k);
    FirstStopDecides(args, k + 1);
  }

  /** For the same reason "-u -p" is not a network named "-p": the "-p" is
      read again as a flag that lacks its value. */
  lemma SsidNamedLikeAFlag()
    ensures ArgsCommand(["wifictl", "-u", "-p"]) == Error(MissingPasswordMessage)
  {
    TrailingFlagIsMissingValue(["wifictl", "-u", "-p"]);
  }
}

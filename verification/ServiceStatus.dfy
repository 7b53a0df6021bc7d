/** The text form of a service status and its parser. */
module ServiceStatus {
  import opened Common

  type i32 = x: int | -0x8000_0000 <= x < 0x8000_0000

  datatype ServiceStatus =
    | Stopped | Starting | WaitingReady | Running | Stopping
    | Failed(code: Option<i32>, signal: Option<i32>)
    | Abandoned

  // ---------- decimal numbers ----------

  predicate IsDigit(c: char) { '0' <= c <= '9' }

  function Digit(d: nat): char
    requires d < 10
  {
    '0' + d as char
  }

  function DigitValue(c: char): nat
    requires IsDigit(c)
  {
    c as int - '0' as int
  }

  function Digits(n: nat): string {
    if n < 10 then [Digit(n)] else Digits(n / 10) + [Digit(n % 10)]
  }

  function PrintInt(x: int): string { if x < 0 then "-" + Digits(-x) else Digits(x) }

  predicate AllDigits(s: string) { forall i :: 0 <= i < |s| ==> IsDigit(s[i]) }

  function Value(s: string): nat
    requires AllDigits(s)
  {
    if s == [] then 0 else 10 * Value(s[..|s| - 1]) + DigitValue(s[|s| - 1])
  }

  /** An optional sign, then at least one digit, in range. */
  function ParseInt(s: string): Option<i32> {
    var negative := s != [] && s[0] == '-';
    var digits := if s != [] && (s[0] == '-' || s[0] == '+') then s[1..] else s;
    if digits == [] || !AllDigits(digits) then None else
    var magnitude: int := Value(digits);
    var v := if negative then -magnitude else magnitude;
    if -0x8000_0000 <= v < 0x8000_0000 then Some(v) else None
  }

  // ---------- text form ----------

  function Display(s: ServiceStatus): string {
    match s
    case Stopped => "stopped"
    case Starting => "starting"
    case WaitingReady => "waiting-ready"
    case Running => "running"
    case Stopping => "stopping"
    case Abandoned => "abandoned"
    case Failed(code, signal) => "failed(" + Inner(code, signal) + ")"
  }

  function Inner(code: Option<i32>, signal: Option<i32>): string {
    (if code.Some? then "exit=" + PrintInt(code.value) else "") +
    (if signal.Some? then "signal=" + PrintInt(signal.value) else "")
  }

  // ---------- parser ----------

  predicate OccursAt(s: string, pat: string, i: nat) { i + |pat| <= |s| && s[i..i + |pat|] == pat }

  /** The first occurrence of `pat` at or after `i`. */
  function Find(s: string, pat: string, i: nat): (r: Option<nat>)
    requires i <= |s|
    ensures r.Some? ==> i <= r.value && OccursAt(s, pat, r.value)
    ensures forall j: nat :: i <= j <= |s| && (r.Some? ==> j < r.value) ==> !OccursAt(s, pat, j)
    decreases |s| - i
  {
    if OccursAt(s, pat, i) then Some(i) else if i == |s| then None else Find(s, pat, i + 1)
  }

  /** The parts between the occurrences of a non-empty separator, found left to right. */
  function Split(s: string, pat: string): seq<string>
    requires pat != []
    decreases |s|
  {
    var at := Find(s, pat, 0);
    if at.None? then [s] else [s[..at.value]] + Split(s[at.value + |pat|..], pat)
  }

  function TrimEnd(s: string): string {
    if s == [] || IsDigit(s[|s| - 1]) then s else TrimEnd(s[..|s| - 1])
  }

  const EXIT := "exit="
  const SIGNAL := "signal="

  datatype Codes = Codes(code: Option<i32>, signal: Option<i32>)

  function ReadPart(c: Codes, part: string): Codes {
    if EXIT <= part then c.(code := ParseInt(TrimEnd(part[|EXIT|..])))
    else if part != [] then c.(signal := ParseInt(TrimEnd(part)))
    else c
  }

  function ReadParts(parts: seq<string>): Codes {
    if parts == [] then Codes(None, None) else ReadPart(ReadParts(parts[..|parts| - 1]), parts[|parts| - 1])
  }

  const FAILED := "failed("

  /** What stands between the parentheses, or nothing when the closing one is missing. */
  function Between(s: string): string
    requires FAILED <= s
  {
    var rest := s[|FAILED|..];
    if rest != [] && rest[|rest| - 1] == ')' then rest[..|rest| - 1] else ""
  }

  function Parse(s: string): Option<ServiceStatus> {
    if s == "stopped" then Some(Stopped)
    else if s == "starting" then Some(Starting)
    else if s == "waiting-ready" then Some(WaitingReady)
    else if s == "running" then Some(Running)
    else if s == "stopping" then Some(Stopping)
    else if s == "abandoned" then Some(Abandoned)
    else if FAILED <= s then
      var c := ReadParts(Split(Between(s), SIGNAL));
      Some(Failed(c.code, c.signal))
    else None
  }

  method FromStr(s: string) returns (r: Option<ServiceStatus>)
    ensures r == Parse(s)
  {
    hide Split, ReadPart, Between;
    if s == "stopped" { return Some(Stopped); }
    if s == "starting" { return Some(Starting); }
    if s == "waiting-ready" { return Some(WaitingReady); }
    if s == "running" { return Some(Running); }
    if s == "stopping" { return Some(Stopping); }
    if s == "abandoned" { return Some(Abandoned); }
    if !(FAILED <= s) { return None; }
    var parts := Split(Between(s), SIGNAL);
    var codes := Codes(None, None);
    for k := 0 to |parts|
      invariant codes == ReadParts(parts[..k])
    {
      assert parts[..k + 1][..k] == parts[..k];
      codes := ReadPart(codes, parts[k]);
    }
    assert parts[..|parts|] == parts;
    r := Some(Failed(codes.code, codes.signal));
  }

  // ---------- numbers read back ----------

  lemma {:induction false} DigitsReadBack(n: nat)
    ensures Digits(n) != [] && AllDigits(Digits(n)) && Value(Digits(n)) == n
  {
    if n >= 10 {
      DigitsReadBack(n / 10);
      var init := Digits(n / 10);
      assert (init + [Digit(n % 10)])[..|init|] == init;
    } else {
      assert [Digit(n)][..0] == [];
    }
  }

  lemma IntReadsBack(x: i32)
    ensures ParseInt(PrintInt(x)) == Some(x)
  {
    var n: int := x;
    if n < 0 {
      DigitsReadBack(-n);
      assert PrintInt(n)[1..] == Digits(-n);
    } else {
      DigitsReadBack(x);
    }
  }

  /** A printed number has digits and perhaps a leading minus, and ends in a digit. */
  lemma PrintedChars(x: int)
    ensures PrintInt(x) != [] && IsDigit(PrintInt(x)[|PrintInt(x)| - 1])
    ensures forall i :: 0 <= i < |PrintInt(x)| ==> IsDigit(PrintInt(x)[i]) || PrintInt(x)[i] == '-'
  {
    DigitsReadBack(if x < 0 then -x else x);
  }

  // ---------- splitting ----------

  predicate NoS(s: string) { forall i :: 0 <= i < |s| ==> s[i] != 's' }

  lemma OccursStartsWithS(s: string, i: nat)
    requires OccursAt(s, SIGNAL, i)
    ensures s[i] == 's'
  {
    assert s[i..i + |SIGNAL|][0] == SIGNAL[0];
  }

  lemma SplitNone(s: string)
    requires NoS(s)
    ensures Split(s, SIGNAL) == [s]
  {
    var at := Find(s, SIGNAL, 0);
    if at.Some? { OccursStartsWithS(s, at.value); }
  }

  lemma SplitOnce(a: string, b: string)
    requires NoS(a) && NoS(b)
    ensures Split(a + SIGNAL + b, SIGNAL) == [a, b]
  {
    var s := a + SIGNAL + b;
    assert s[|a|..|a| + |SIGNAL|] == SIGNAL;
    assert OccursAt(s, SIGNAL, |a|);
    var at := Find(s, SIGNAL, 0);
    assert at.Some? && at.value <= |a|;
    if at.value < |a| { OccursStartsWithS(s, at.value); }
    assert s[..|a|] == a && s[|a| + |SIGNAL|..] == b;
    SplitNone(b);
  }

  // ---------- round trip ----------

  /** The part that carries the exit code. */
  function ExitPart(code: Option<i32>): string { if code.Some? then EXIT + PrintInt(code.value) else "" }

  lemma ExitPartNoS(code: Option<i32>)
    ensures NoS(ExitPart(code))
  {
    if code.Some? { PrintedChars(code.value); }
  }

  lemma ReadsExitPart(code: Option<i32>)
    ensures ReadPart(Codes(None, None), ExitPart(code)) == Codes(code, None)
  {
    if code.Some? {
      PrintedChars(code.value);
      IntReadsBack(code.value);
      assert ExitPart(code)[|EXIT|..] == PrintInt(code.value);
    }
  }

  lemma ReadsSignalPart(code: Option<i32>, signal: i32)
    ensures ReadPart(Codes(code, None), PrintInt(signal)) == Codes(code, Some(signal))
  {
    PrintedChars(signal);
    IntReadsBack(signal);
    assert PrintInt(signal)[0] != EXIT[0];
  }

  lemma InnerReadsBack(code: Option<i32>, signal: Option<i32>)
    ensures ReadParts(Split(Inner(code, signal), SIGNAL)) == Codes(code, signal)
  {
    hide Split, ReadPart, PrintInt, ParseInt, NoS, ExitPart;
    var a := ExitPart(code);
    ExitPartNoS(code);
    ReadsExitPart(code);
    InnerForm(code, signal);
    assert ReadParts([]) == Codes(None, None);
    if signal.None? {
      SplitNone(a);
      assert [a][..0] == [];
      assert ReadParts([a]) == Codes(code, None);
    } else {
      var b := PrintInt(signal.value);
      PrintedNoS(signal.value);
      SplitOnce(a, b);
      assert [a, b][..1] == [a] && [a][..0] == [];
      ReadsSignalPart(code, signal.value);
    }
  }

  lemma InnerForm(code: Option<i32>, signal: Option<i32>)
    ensures Inner(code, signal) == ExitPart(code) + if signal.Some? then SIGNAL + PrintInt(signal.value) else ""
    ensures signal.Some? ==> Inner(code, signal) == ExitPart(code) + SIGNAL + PrintInt(signal.value)
    ensures signal.None? ==> Inner(code, signal) == ExitPart(code)
  {
  }

  lemma PrintedNoS(x: int)
    ensures NoS(PrintInt(x))
  {
    PrintedChars(x);
  }

  /** Parsing what is displayed gives back the status, for every optional 32-bit code and signal. */
  lemma ParseDisplay(s: ServiceStatus)
    ensures Parse(Display(s)) == Some(s)
  {
    hide Inner, Split, ReadParts;
    if s.Failed? {
      FailureReadsBack(s.code, s.signal);
    }
  }

  lemma FailureReadsBack(code: Option<i32>, signal: Option<i32>)
    ensures Parse(Display(Failed(code, signal))) == Some(Failed(code, signal))
  {
    hide Inner, Split, ReadParts, Parse;
    var text := Display(Failed(code, signal));
    assert text[|FAILED|..] == Inner(code, signal) + ")";
    assert Between(text) == Inner(code, signal);
    InnerReadsBack(code, signal);
    ParseFailure(text);
  }

  lemma ParseFailure(text: string)
    requires FAILED <= text
    ensures var c := ReadParts(Split(Between(text), SIGNAL)); Parse(text) == Some(Failed(c.code, c.signal))
  {
    hide Split, ReadParts, Between;
    assert text[0] == 'f';
  }

  /** Distinct statuses are displayed differently. */
  lemma DisplayInjective(a: ServiceStatus, b: ServiceStatus)
    requires Display(a) == Display(b)
    ensures a == b
  {
    hide Display, Parse;
    ParseDisplay(a);
    ParseDisplay(b);
  }

  /** What is not one of the six words and does not begin a failure is no status. */
  lemma ParseRefuses(s: string)
    ensures Parse(s).None? <==>
            && s !in {"stopped", "starting", "waiting-ready", "running", "stopping", "abandoned"}
            && !(|s| >= 7 && s[..7] == "failed(")
  {
    hide ReadParts, Split;
  }

  /** The words around the numbers. */
  lemma Words(code: i32, signal: i32)
    ensures Display(Failed(Some(code), None)) == "failed(exit=" + PrintInt(code) + ")"
    ensures Display(Failed(None, Some(signal))) == "failed(signal=" + PrintInt(signal) + ")"
  {
    hide PrintInt;
    ExitWords(PrintInt(code));
    SignalWords(PrintInt(signal));
  }

  lemma ExitWords(c: string)
    ensures "failed(" + (("exit=" + c) + "") + ")" == "failed(exit=" + c + ")"
  {
    assert ("exit=" + c) + "" == "exit=" + c;
    assert "failed(" + ("exit=" + c) == ("failed(" + "exit=") + c && "failed(" + "exit=" == "failed(exit=";
  }

  lemma SignalWords(c: string)
    ensures "failed(" + ("" + ("signal=" + c)) + ")" == "failed(signal=" + c + ")"
  {
    assert "" + ("signal=" + c) == "signal=" + c;
    assert "failed(" + ("signal=" + c) == ("failed(" + "signal=") + c && "failed(" + "signal=" == "failed(signal=";
  }

  lemma Numbers()
    ensures PrintInt(-15) == "-15" && PrintInt(0) == "0" && PrintInt(9) == "9"
  {
    assert Digits(15) == Digits(1) + ['5'];
  }
}

/** Reset times such as "4h 30m": `parse_reset_time` and its queries in models/quota.rs. */
module ResetTime {
  import opened Wrappers
  import opened Arithmetic
  import opened AccountModel

  // ---------- Meaning: one pass over the text ----------

  predicate IsDigit(c: char) {
    '0' <= c <= '9'
  }

  /** The value of a digit string; the program's parse fails on the empty one and above i64. */
  function DecimalValue(digits: string): nat
    requires forall c | c in digits :: IsDigit(c)
  {
    if digits == "" then 0
    else
      var last := digits[|digits| - 1];
      assert IsDigit(last);
      10 * DecimalValue(digits[..|digits| - 1]) + (last as int - '0' as int)
  }

  function UnitSeconds(c: char): nat {
    if c == 'h' || c == 'H' then 3600 else if c == 'm' || c == 'M' then 60 else 0
  }

  /** What a unit letter adds, given the digits directly before it. */
  function Contribution(c: char, run: string): nat
    requires forall d | d in run :: IsDigit(d)
  {
    if run == "" || DecimalValue(run) > I64_MAX then 0 else DecimalValue(run) * UnitSeconds(c)
  }

  /** Seconds in `s` when `run` are the digits just read. */
  function Seconds(s: string, run: string): nat
    requires forall d | d in run :: IsDigit(d)
    decreases |s|
  {
    if s == "" then 0
    else if IsDigit(s[0]) then Seconds(s[1..], run + [s[0]])
    else Contribution(s[0], run) + Seconds(s[1..], "")
  }

  /** The value of `parse_reset_time`. */
  function ResetSeconds(s: string): (r: nat)
    ensures r <= I64_MAX
  {
    Min(Seconds(s, ""), I64_MAX)
  }

  // ---------- Blanks do not matter ----------

  /** The White_Space characters that `trim` removes. */
  predicate IsSpace(c: char) {
    || '\t' <= c <= '\r' || c == ' ' || c == '\U{85}' || c == '\U{A0}' || c == '\U{1680}'
    || '\U{2000}' <= c <= '\U{200A}' || c in {'\U{2028}', '\U{2029}', '\U{202F}', '\U{205F}', '\U{3000}'}
  }

  function TrimStart(s: string): string {
    if s != "" && IsSpace(s[0]) then TrimStart(s[1..]) else s
  }

  function TrimEnd(s: string): string {
    if s != "" && IsSpace(s[|s| - 1]) then TrimEnd(s[..|s| - 1]) else s
  }

  /** A character that is neither digit nor unit separates what comes before from what comes after. */
  lemma {:induction false} SecondsSplit(a: string, c: char, b: string, run: string)
    requires !IsDigit(c) && forall d | d in run :: IsDigit(d)
    ensures Seconds(a + [c] + b, run) == Seconds(a + [c], run) + Seconds(b, "")
    decreases |a|
  {
    if a == "" {
      assert [] + [c] + b == [c] + b && [] + [c] == [c];
      assert ([c] + b)[1..] == b && [c][1..] == "";
    } else {
      assert (a + [c] + b)[1..] == a[1..] + [c] + b && (a + [c])[1..] == a[1..] + [c];
      SecondsSplit(a[1..], c, b, if IsDigit(a[0]) then run + [a[0]] else "");
    }
  }

  lemma {:induction false} SecondsBlankEnd(a: string, c: char, run: string)
    requires !IsDigit(c) && UnitSeconds(c) == 0 && forall d | d in run :: IsDigit(d)
    ensures Seconds(a + [c], run) == Seconds(a, run)
    decreases |a|
  {
    if a == "" {
      assert [] + [c] == [c] && [c][1..] == "";
    } else {
      assert (a + [c])[1..] == a[1..] + [c];
      SecondsBlankEnd(a[1..], c, if IsDigit(a[0]) then run + [a[0]] else "");
    }
  }

  lemma {:induction false} TrimStartKeeps(s: string)
    ensures Seconds(TrimStart(s), "") == Seconds(s, "")
  {
    if s != "" && IsSpace(s[0]) {
      TrimStartKeeps(s[1..]);
    }
  }

  lemma {:induction false} TrimEndKeeps(s: string)
    ensures Seconds(TrimEnd(s), "") == Seconds(s, "")
  {
    if s != "" && IsSpace(s[|s| - 1]) {
      var front, c := s[..|s| - 1], s[|s| - 1];
      assert s == front + [c];
      SecondsBlankEnd(front, c, "");
      TrimEndKeeps(front);
    }
  }

  // ---------- The program: at each unit, look back for the digits ----------

  /** Just past the last non-digit before `i`. */
  function DigitStart(s: string, i: nat): (p: nat)
    requires i <= |s|
    ensures p <= i && forall k | p <= k < i :: IsDigit(s[k])
    ensures p > 0 ==> !IsDigit(s[p - 1])
  {
    if i > 0 && IsDigit(s[i - 1]) then DigitStart(s, i - 1) else i
  }

  /** The digits directly before position `i`. */
  function RunBefore(s: string, i: nat): (run: string)
    requires i <= |s|
    ensures forall d | d in run :: IsDigit(d)
  {
    s[DigitStart(s, i)..i]
  }

  function SaturatingMul(a: int, b: int): int {
    Min(a * b, I64_MAX)
  }

  lemma SliceSnoc(s: string, from: nat, i: nat)
    requires from <= i < |s|
    ensures s[from..i + 1] == s[from..i] + [s[i]]
  {}

  lemma LookBackStep(s: string, i: nat)
    requires i < |s|
    ensures s[i..] != [] && s[i..][0] == s[i] && s[i..][1..] == s[i + 1..]
    ensures RunBefore(s, i + 1) == if IsDigit(s[i]) then RunBefore(s, i) + [s[i]] else ""
    ensures Seconds(s[i..], RunBefore(s, i)) ==
      (if IsDigit(s[i]) then 0 else Contribution(s[i], RunBefore(s, i))) + Seconds(s[i + 1..], RunBefore(s, i + 1))
  {
    assert s[i..][1..] == s[i + 1..];
    if IsDigit(s[i]) {
      assert DigitStart(s, i + 1) == DigitStart(s, i);
      SliceSnoc(s, DigitStart(s, i), i);
    } else {
      assert DigitStart(s, i + 1) == i + 1;
    }
  }

  method ParseResetTime(text: string) returns (totalSeconds: int)
    ensures totalSeconds == ResetSeconds(text)
  {
    hide Contribution, RunBefore, IsSpace;
    var s := TrimEnd(TrimStart(text));
    TrimStartKeeps(text);
    TrimEndKeeps(TrimStart(text));
    totalSeconds := 0;
    ghost var exact: nat := 0;
    StartsEmpty(s);
    for i := 0 to |s|
      invariant exact + Seconds(s[i..], RunBefore(s, i)) == Seconds(s, "")
      invariant totalSeconds == Min(exact, I64_MAX)
    {
      var b := s[i];
      LookBackStep(s, i);
      ContributionMeaning(b, RunBefore(s, i));
      if b == 'h' || b == 'H' {
        var run := RunBefore(s, i);
        if run != "" && DecimalValue(run) <= I64_MAX {
          totalSeconds := SaturatingAdd(totalSeconds, SaturatingMul(DecimalValue(run), 3600));
        }
      } else if b == 'm' || b == 'M' {
        var run := RunBefore(s, i);
        if run != "" && DecimalValue(run) <= I64_MAX {
          totalSeconds := SaturatingAdd(totalSeconds, SaturatingMul(DecimalValue(run), 60));
        }
      }
      exact := exact + if IsDigit(b) then 0 else Contribution(b, RunBefore(s, i));
    }
    assert s[|s|..] == "";
  }

  lemma StartsEmpty(s: string)
    ensures s[0..] == s && RunBefore(s, 0) == ""
  {}

  lemma ContributionMeaning(c: char, run: string)
    requires forall d | d in run :: IsDigit(d)
    ensures Contribution(c, run) ==
      if run == "" || DecimalValue(run) > I64_MAX then 0
      else if c == 'h' || c == 'H' then DecimalValue(run) * 3600
      else if c == 'm' || c == 'M' then DecimalValue(run) * 60
      else 0
  {}

  // ---------- What callers rely on ----------

  /** Parts separated by a blank add up, so their order does not matter. */
  lemma UnitOrderFree(a: string, b: string)
    ensures Seconds(a + " " + b, "") == Seconds(a, "") + Seconds(b, "")
    ensures ResetSeconds(a + " " + b) == ResetSeconds(b + " " + a)
  {
    SecondsSplit(a, ' ', b, "");
    SecondsSplit(b, ' ', a, "");
    SecondsBlankEnd(a, ' ', "");
    SecondsBlankEnd(b, ' ', "");
    assert a + [' '] + b == a + " " + b && b + [' '] + a == b + " " + a;
  }

  function DigitChar(d: nat): char
    requires d < 10
  {
    '0' + d as char
  }

  function Digits(n: nat): string {
    (if n < 10 then "" else Digits(n / 10)) + [DigitChar(n % 10)]
  }

  lemma {:induction false} DigitsReadBack(n: nat)
    ensures Digits(n) != "" && (forall c | c in Digits(n) :: IsDigit(c))
    ensures DecimalValue(Digits(n)) == n
  {
    var front := if n < 10 then "" else Digits(n / 10);
    if n >= 10 {
      DigitsReadBack(n / 10);
    }
    assert Digits(n)[..|Digits(n)| - 1] == front;
  }

  lemma {:induction false} SecondsOfRun(digits: string, run: string, c: char)
    requires (forall d | d in digits :: IsDigit(d)) && (forall d | d in run :: IsDigit(d)) && !IsDigit(c)
    ensures Seconds(digits + [c], run) == Contribution(c, run + digits)
    decreases |digits|
  {
    if digits == "" {
      assert [] + [c] == [c] && [c][1..] == "" && run + digits == run;
    } else {
      assert (digits + [c])[1..] == digits[1..] + [c];
      SecondsOfRun(digits[1..], run + [digits[0]], c);
      assert run + [digits[0]] + digits[1..] == run + digits;
    }
  }

  // ---------- Any duration ----------

  /** A number and the character after it. */
  function PrintParts(parts: seq<(nat, char)>): string {
    if parts == [] then "" else Digits(parts[0].0) + [parts[0].1] + PrintParts(parts[1..])
  }

  /** Hours and minutes count, in either case; other characters do not, and neither do numbers beyond i64. */
  function SumOf(parts: seq<(nat, char)>): nat {
    if parts == [] then 0
    else
      var (n, c) := parts[0];
      PartSeconds(n, c) + SumOf(parts[1..])
  }

  /** A text of numbers, each followed by a character that is no digit, parses to their sum, saturated. */
  lemma {:induction false} PartsAddUp(parts: seq<(nat, char)>)
    requires forall p | p in parts :: !('0' <= p.1 <= '9')
    ensures Seconds(PrintParts(parts), "") == SumOf(parts)
    ensures ResetSeconds(PrintParts(parts)) == Min(SumOf(parts), 0x7FFF_FFFF_FFFF_FFFF)
  {
    if parts != [] {
      var (n, c) := parts[0];
      var rest := PrintParts(parts[1..]);
      assert parts[0] in parts && forall p | p in parts[1..] :: p in parts;
      PartsAddUp(parts[1..]);
      FirstPart(n, c, rest);
      hide Digits, Seconds;
    }
  }

  function PartSeconds(n: nat, c: char): nat {
    if n > 0x7FFF_FFFF_FFFF_FFFF then 0
    else if c in {'h', 'H'} then n * 3600
    else if c in {'m', 'M'} then n * 60
    else 0
  }

  lemma FirstPart(n: nat, c: char, rest: string)
    requires !IsDigit(c)
    ensures Seconds(Digits(n) + [c] + rest, "") == PartSeconds(n, c) + Seconds(rest, "")
  {
    DigitsReadBack(n);
    hide Digits, Seconds, DecimalValue;
    SecondsOfRun(Digits(n), "", c);
    assert "" + Digits(n) == Digits(n);
    SecondsSplit(Digits(n), c, rest, "");
  }

  /** A printed duration parses back, saturating at the end of the i64 range; a number beyond i64
      counts as nothing. */
  lemma FormattedParsesBack(h: nat, m: nat)
    ensures var hours := if h <= I64_MAX then 3600 * h else 0;
      var minutes := if m <= I64_MAX then 60 * m else 0;
      ResetSeconds(Digits(h) + "h " + Digits(m) + "m") == Min(hours + minutes, I64_MAX)
  {
    hide Digits, Seconds, DecimalValue, Contribution;
    DigitsReadBack(h);
    DigitsReadBack(m);
    ContributionMeaning('h', Digits(h));
    ContributionMeaning('m', Digits(m));
    SecondsOfRun(Digits(h), "", 'h');
    SecondsOfRun(Digits(m), "", 'm');
    assert "" + Digits(h) == Digits(h) && "" + Digits(m) == Digits(m);
    assert Digits(h) + ['h'] + " " + (Digits(m) + ['m']) == Digits(h) + "h " + Digits(m) + "m";
    UnitOrderFree(Digits(h) + ['h'], Digits(m) + ['m']);
  }

  // ---------- Queries over a quota ----------

  predicate HasReset(m: ModelQuota) {
    ResetSeconds(m.resetTime) <= 0
  }

  predicate NeedsRefresh(models: seq<ModelQuota>) {
    exists m | m in models :: HasReset(m)
  }

  function MinResetSeconds(models: seq<ModelQuota>): Option<int> {
    if models == [] then None
    else
      match MinResetSeconds(models[1..])
      case None => Some(ResetSeconds(models[0].resetTime))
      case Some(least) => Some(Min(ResetSeconds(models[0].resetTime), least))
  }

  /** The least reset time is attained and bounds the others; a refresh is due exactly when it is zero. */
  lemma {:induction false} MinResetMeaning(models: seq<ModelQuota>)
    ensures MinResetSeconds(models).None? <==> models == []
    ensures MinResetSeconds(models).Some? ==>
      && (forall m | m in models :: MinResetSeconds(models).value <= ResetSeconds(m.resetTime))
      && exists m | m in models :: MinResetSeconds(models).value == ResetSeconds(m.resetTime)
    ensures NeedsRefresh(models) <==> MinResetSeconds(models) == Some(0)
  {
    hide ResetSeconds;
    if models != [] {
      var first, rest := models[0], models[1..];
      assert models == [first] + rest && first in models;
      MinResetMeaning(rest);
      var least := MinResetSeconds(models).value;
      if least != ResetSeconds(first.resetTime) {
        var m :| m in rest && least == ResetSeconds(m.resetTime);
        assert m in models;
      }
      if m :| m in models && HasReset(m) {
        assert least <= 0;
      }
    }
  }
}

/** Numbers and comma-separated lists as query text: how they are printed, read and split, and how far
    a printed list of card ids survives its 64-byte buffer.
 */
module QueryText {

  const TEXT_MAX := 63
  const LIST_STOP := 60
  const DIGITS := "0123456789"

  function Dec(n: nat): (s: string)
    ensures |s| > 0
  {
    if n < 10 then [DIGITS[n]] else Dec(n / 10) + [DIGITS[n % 10]]
  }

  function IntText(v: int): string {
    if v < 0 then "-" + Dec(-v) else Dec(v)
  }

  predicate IsDigit(c: char) {
    c in DIGITS
  }

  function DigitValue(c: char): (d: nat)
    requires IsDigit(c)
    ensures d < 10 && DIGITS[d] == c
  {
    if c == '0' then 0 else if c == '1' then 1 else if c == '2' then 2 else if c == '3' then 3
    else if c == '4' then 4 else if c == '5' then 5 else if c == '6' then 6 else if c == '7' then 7
    else if c == '8' then 8 else 9
  }

  // The number at the start of a text, after n has been read already.
  function Digits(s: string, n: nat): nat
    decreases |s|
  {
    if s == "" || !IsDigit(s[0]) then n else Digits(s[1..], 10 * n + DigitValue(s[0]))
  }

  predicate IsSpace(c: char) {
    c == ' ' || c == '\t' || c == '\n' || c == '\r' || c as int == 11 || c as int == 12
  }

  function Clamp(v: int): int {
    if v > 0x7FFF_FFFF then 0x7FFF_FFFF else if v < -0x8000_0000 then -0x8000_0000 else v
  }

  // strtol in base ten on a 32-bit long.
  function Strtol(s: string): int
    decreases |s|
  {
    if s == "" then 0
    else if IsSpace(s[0]) then Strtol(s[1..])
    else if s[0] == '-' then Clamp(0 - Digits(s[1..], 0))
    else if s[0] == '+' then Clamp(Digits(s[1..], 0))
    else Clamp(Digits(s, 0))
  }

  lemma {:induction false} DecDigits(n: nat)
    ensures forall k :: 0 <= k < |Dec(n)| ==> IsDigit(Dec(n)[k])
  {
    if n >= 10 {
      DecDigits(n / 10);
    }
  }

  lemma {:induction false} DigitsSnoc(s: string, c: char, n: nat)
    requires (forall k :: 0 <= k < |s| ==> IsDigit(s[k])) && IsDigit(c)
    ensures Digits(s + [c], n) == 10 * Digits(s, n) + DigitValue(c)
    decreases |s|
  {
    if s == "" {
      assert s + [c] == [c] && [c][1..] == "";
    } else {
      assert (s + [c])[1..] == s[1..] + [c];
      DigitsSnoc(s[1..], c, 10 * n + DigitValue(s[0]));
    }
  }

  lemma {:induction false} DigitsOfDec(n: nat)
    ensures Digits(Dec(n), 0) == n
  {
    hide IsDigit;
    DigitOf(n % 10);
    if n >= 10 {
      DecDigits(n / 10);
      DigitsSnoc(Dec(n / 10), DIGITS[n % 10], 0);
      DigitsOfDec(n / 10);
    } else {
      assert [DIGITS[n]][1..] == "";
    }
  }

  lemma DigitOf(d: nat)
    requires d < 10
    ensures IsDigit(DIGITS[d]) && DigitValue(DIGITS[d]) == d
  {
  }

  // Printing a 32-bit number and reading it back gives the number.
  lemma StrtolOfText(v: int)
    requires -0x8000_0000 <= v < 0x8000_0000
    ensures Strtol(IntText(v)) == v
  {
    DecDigits(if v < 0 then -v else v);
    DigitsOfDec(if v < 0 then -v else v);
    if v < 0 {
      assert IntText(v)[1..] == Dec(-v);
    } else {
      assert IsDigit(Dec(v)[0]);
    }
  }

  lemma DecInjective(m: nat, n: nat)
    ensures Dec(m) == Dec(n) <==> m == n
  {
    DigitsOfDec(m);
    DigitsOfDec(n);
  }

  // A text cut to its buffer.
  function Cut(s: string): (c: string)
    ensures |c| <= TEXT_MAX
  {
    if |s| <= TEXT_MAX then s else s[..TEXT_MAX]
  }

  // The part of a text before its first comma.
  function Until(s: string): (t: string)
    ensures |t| <= |s| && t == s[..|t|] && ',' !in t
    ensures |t| < |s| ==> s[|t|] == ','
  {
    if s == "" || s[0] == ',' then "" else [s[0]] + Until(s[1..])
  }

  // The pieces between commas that are not empty.
  function Tokens(s: string): seq<string>
    decreases |s|
  {
    if s == "" then []
    else if s[0] == ',' then Tokens(s[1..])
    else [Until(s)] + Tokens(s[|Until(s)|..])
  }

  function Trim(s: string): string {
    if s != "" && s[0] == ' ' then Trim(s[1..]) else s
  }

  predicate Among(ts: seq<string>, actual: string) {
    exists k :: 0 <= k < |ts| && Trim(ts[k]) == actual
  }

  // Whether a value is in a comma-separated list.
  predicate InList(actual: string, expected: string) {
    Among(Tokens(Cut(expected)), actual)
  }

  // Where strtok ends the piece that starts at pos.
  method PieceEnd(buf: string, pos: nat) returns (end: nat)
    requires pos < |buf| && buf[pos] != ','
    ensures pos < end <= |buf| && buf[pos..end] == Until(buf[pos..])
  {
    end := pos;
    while end < |buf| && buf[end] != ','
      invariant pos <= end <= |buf|
      invariant ',' !in buf[pos..end]
    {
      end := end + 1;
    }
    UntilIs(buf[pos..], end - pos);
  }

  method SkipBlanks(buf: string, pos: nat, end: nat) returns (start: nat)
    requires pos <= end <= |buf|
    ensures pos <= start <= end && buf[start..end] == Trim(buf[pos..end])
  {
    start := pos;
    while start < end && buf[start] == ' '
      invariant pos <= start <= end
      invariant Trim(buf[pos..end]) == Trim(buf[start..end])
    {
      assert buf[start..end][1..] == buf[start + 1..end];
      start := start + 1;
    }
  }

  lemma TokensStep(s: string, actual: string)
    requires s != ""
    ensures s[0] == ',' ==> Tokens(s) == Tokens(s[1..])
    ensures s[0] != ',' ==>
      (Among(Tokens(s), actual) <==> Trim(Until(s)) == actual || Among(Tokens(s[|Until(s)|..]), actual))
  {
    if s[0] != ',' {
      AmongFirst(Until(s), Tokens(s[|Until(s)|..]), actual);
    }
  }

  method CompareIn(actual: string, expected: string) returns (r: bool)
    ensures r == InList(actual, expected)
  {
    hide Tokens, Among, Trim, Until;
    var buf := Cut(expected);
    var pos := 0;
    assert buf[0..] == buf;
    while pos < |buf|
      invariant pos <= |buf|
      invariant Among(Tokens(buf), actual) == Among(Tokens(buf[pos..]), actual)
    {
      TokensStep(buf[pos..], actual);
      if buf[pos] == ',' {
        assert buf[pos..][1..] == buf[pos + 1..];
        pos := pos + 1;
      } else {
        var end := PieceEnd(buf, pos);
        assert buf[pos..][end - pos..] == buf[end..];
        var start := SkipBlanks(buf, pos, end);
        if actual == buf[start..end] {
          return true;
        }
        pos := end;
      }
    }
    NoTokens(buf[pos..], actual);
    r := false;
  }

  lemma NoTokens(s: string, actual: string)
    requires s == ""
    ensures !Among(Tokens(s), actual)
  {
  }

  lemma AmongFirst(t: string, ts: seq<string>, actual: string)
    ensures Among([t] + ts, actual) <==> Trim(t) == actual || Among(ts, actual)
  {
    var all := [t] + ts;
    if Trim(t) == actual {
      assert Trim(all[0]) == actual;
    }
    if Among(ts, actual) {
      var k :| 0 <= k < |ts| && Trim(ts[k]) == actual;
      assert Trim(all[k + 1]) == actual;
    }
  }

  lemma {:induction false} UntilIs(s: string, n: nat)
    requires n <= |s| && ',' !in s[..n] && (n < |s| ==> s[n] == ',')
    ensures Until(s) == s[..n]
  {
    if n > 0 {
      assert s[0] == s[..n][0] && s[..n][1..] == s[1..][..n - 1];
      UntilIs(s[1..], n - 1);
    }
  }

  // A list with one more piece at its end.
  lemma {:induction false} TokensSnoc(s: string, t: string)
    requires t != "" && ',' !in t
    ensures Tokens(s + "," + t) == Tokens(s) + [t]
    decreases |s|
  {
    var all := s + "," + t;
    if s == "" {
      assert all[1..] == t && t[..|t|] == t && t[0] in t;
      UntilIs(t, |t|);
      assert t[|t|..] == "";
      assert Tokens(t) == [t];
    } else if s[0] == ',' {
      assert all[1..] == s[1..] + "," + t;
      TokensSnoc(s[1..], t);
    } else {
      var u := Until(s);
      assert all[..|u|] == u;
      assert all[|u|] == if |u| < |s| then s[|u|] else ',';
      UntilIs(all, |u|);
      assert all[|u|..] == s[|u|..] + "," + t;
      TokensSnoc(s[|u|..], t);
    }
  }
}

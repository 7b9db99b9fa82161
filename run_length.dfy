/** The run-length fallback of the payload compressor: text is cut into
    maximal runs of one character, and a run longer than one is written as
    its length in decimal followed by the character. */
module RunLength {

  /** `k` copies of `c`. */
  function Repeat(c: char, k: nat): (r: string)
    ensures |r| == k
  {
    seq(k, _ => c)
  }

  predicate IsDigit(c: char) {
    '0' <= c <= '9'
  }

  predicate AllDigits(s: string) {
    forall i :: 0 <= i < |s| ==> IsDigit(s[i])
  }

  function DigitChar(d: nat): (c: char)
    requires d < 10
    ensures IsDigit(c) && c as int - '0' as int == d
  {
    (d + '0' as int) as char
  }

  /** The decimal notation of `n`, without leading zeros, as a number is
      written when it is concatenated to a string. */
  function Decimal(n: nat): (s: string)
    ensures |s| > 0 && AllDigits(s)
    ensures n < 10 <==> |s| == 1
  {
    if n < 10 then [DigitChar(n)] else Decimal(n / 10) + [DigitChar(n % 10)]
  }

  /** The decimal notation of a positive number does not start with a zero. */
  lemma {:induction false} DecimalNoLeadingZero(n: nat)
    requires n > 0
    ensures Decimal(n)[0] != '0'
  {
    if n >= 10 {
      DecimalNoLeadingZero(n / 10);
      assert Decimal(n)[0] == Decimal(n / 10)[0];
    }
  }

  /** The number a string of decimal digits denotes. */
  function DigitsValue(s: string): nat
    requires AllDigits(s)
  {
    if |s| == 0 then 0
    else DigitsValue(s[..|s| - 1]) * 10 + (s[|s| - 1] as int - '0' as int)
  }

  /** Reading back the decimal notation of `n` gives `n`. */
  lemma {:induction false} DecimalValue(n: nat)
    ensures DigitsValue(Decimal(n)) == n
  {
    if n >= 10 {
      var s := Decimal(n);
      assert s[..|s| - 1] == Decimal(n / 10);
      DecimalValue(n / 10);
    }
  }

  /** The decimal notation of a count of at least two is shorter than the count. */
  lemma {:induction false} DecimalShorter(n: nat)
    requires n >= 2
    ensures |Decimal(n)| < n
  {
    if n >= 20 {
      DecimalShorter(n / 10);
    }
  }

  /** How many times the first character of `t` repeats at its start. */
  function LeadingRun(t: string): (k: nat)
    requires |t| > 0
    ensures 1 <= k <= |t|
    ensures k < |t| ==> t[k] != t[0]
  {
    if |t| == 1 || t[1] != t[0] then 1 else 1 + LeadingRun(t[1..])
  }

  /** The leading run is made of copies of the first character. */
  lemma {:induction false} LeadingRunIsRun(t: string)
    requires |t| > 0
    ensures t[..LeadingRun(t)] == Repeat(t[0], LeadingRun(t))
    decreases |t|
  {
    var k := LeadingRun(t);
    if k > 1 {
      LeadingRunIsRun(t[1..]);
      assert t[..k] == [t[0]] + t[1..][..k - 1];
    }
  }

  /** The code of one run of `count` copies of `c`. */
  function Token(c: char, count: nat): (code: string)
  {
    if count > 1 then Decimal(count) + [c] else [c]
  }

  /** A run's code holds the run: it ends with the run's character, which
      stands alone for a single character and is otherwise preceded by the
      digits of its length, with no leading zero. */
  lemma TokenCount(c: char, count: nat)
    requires count >= 1
    ensures var code := Token(c, count);
      && code[|code| - 1] == c
      && (count == 1 <==> code == [c])
      && (count > 1 ==> AllDigits(code[..|code| - 1]) && DigitsValue(code[..|code| - 1]) == count && code[0] != '0')
  {
    if count > 1 {
      var code := Token(c, count);
      assert code[..|code| - 1] == Decimal(count);
      DecimalValue(count);
      DecimalNoLeadingZero(count);
    }
  }

  /** The code of a run is never longer than the run. */
  lemma TokenNoLonger(c: char, count: nat)
    requires count >= 1
    ensures |Token(c, count)| <= count
  {
    if count > 1 {
      DecimalShorter(count);
    }
  }

  /** The run-length code of `t`: the codes of its maximal runs, in order.
      Only the empty text has the empty code. */
  function Rle(t: string): (r: string)
    ensures |r| == 0 <==> |t| == 0
    decreases |t|
  {
    if |t| == 0 then []
    else
      var k := LeadingRun(t);
      Token(t[0], k) + Rle(t[k..])
  }

  /** The run-length code is never longer than the text it codes. */
  lemma {:induction false} RleNoLonger(t: string)
    ensures |Rle(t)| <= |t|
    decreases |t|
  {
    if t != [] {
      var k := LeadingRun(t);
      TokenNoLonger(t[0], k);
      RleNoLonger(t[k..]);
    }
  }

  /** A run of `k` copies of the first character, followed by the end of the
      text or by a different character, is the leading run. */
  lemma {:induction false} LeadingRunExact(t: string, k: nat)
    requires 1 <= k <= |t|
    requires forall j :: 0 <= j < k ==> t[j] == t[0]
    requires k < |t| ==> t[k] != t[0]
    ensures LeadingRun(t) == k
    decreases k
  {
    if k > 1 {
      assert t[1] == t[0];
      LeadingRunExact(t[1..], k - 1);
    }
  }

  /** Every character of `text` from `start` up to `end` is `c`. */
  predicate IsRunOf(text: string, start: nat, end: nat, c: char)
    requires start <= end <= |text|
    decreases end - start
  {
    start == end || (text[end - 1] == c && IsRunOf(text, start, end - 1, c))
  }

  lemma {:induction false} RunOfAt(text: string, start: nat, end: nat, c: char)
    requires start <= end <= |text| && IsRunOf(text, start, end, c)
    ensures forall j :: start <= j < end ==> text[j] == c
    decreases end - start
  {
    if start < end {
      RunOfAt(text, start, end - 1, c);
    }
  }

  /** The code of the text from `start` on opens with the code of the run
      of `count` characters that ends at `end`. */
  lemma RunEnds(text: string, start: nat, end: nat, count: nat, c: char)
    requires start < end <= |text| && count == end - start
    requires IsRunOf(text, start, end, c)
    requires end < |text| ==> text[end] != c
    ensures Rle(text[start..]) == Token(c, count) + Rle(text[end..])
  {
    RunOfAt(text, start, end, c);
    var t := text[start..];
    LeadingRunExact(t, count);
    assert t[end - start..] == text[end..];
  }

  /** The maximal prefix of decimal digits of `s`. */
  function DigitPrefix(s: string): (d: nat)
    ensures d <= |s|
    ensures AllDigits(s[..d])
    ensures d < |s| ==> !IsDigit(s[d])
  {
    if |s| == 0 || !IsDigit(s[0]) then 0
    else
      var d := 1 + DigitPrefix(s[1..]);
      assert s[..d] == [s[0]] + s[1..][..d - 1];
      d
  }

  /** The inverse of `Rle` on text without digits: a count followed by a
      character expands to that many copies of the character; a lone character
      stands for itself. Trailing digits with no character after them are kept. */
  function Expand(s: string): string
    decreases |s|
  {
    if |s| == 0 then []
    else
      var d := DigitPrefix(s);
      if d == 0 then [s[0]] + Expand(s[1..])
      else if d == |s| then s
      else Repeat(s[d], DigitsValue(s[..d])) + Expand(s[d + 1..])
  }

  lemma {:induction false} DigitPrefixOfNumber(digits: string, c: char, rest: string)
    requires AllDigits(digits) && !IsDigit(c)
    ensures DigitPrefix(digits + [c] + rest) == |digits|
    decreases |digits|
  {
    var s := digits + [c] + rest;
    if digits != [] {
      assert s[1..] == digits[1..] + [c] + rest;
      DigitPrefixOfNumber(digits[1..], c, rest);
    } else {
      assert s[0] == c;
    }
  }

  /** A run's code expands back to the run. */
  lemma ExpandToken(c: char, k: nat, rest: string)
    requires k >= 1 && !IsDigit(c)
    ensures Expand(Token(c, k) + rest) == Repeat(c, k) + Expand(rest)
  {
    var s := Token(c, k) + rest;
    if k == 1 {
      assert s[0] == c && s[1..] == rest;
      assert DigitPrefix(s) == 0;
    } else {
      var digits := Decimal(k);
      assert s == digits + [c] + rest;
      DigitPrefixOfNumber(digits, c, rest);
      assert s[..|digits|] == digits;
      assert s[|digits|] == c;
      assert s[|digits| + 1..] == rest;
      DecimalValue(k);
    }
  }

  /** On text without decimal digits, expanding the run-length code restores
      the text. */
  lemma {:induction false} RleRoundTrip(t: string)
    requires forall i :: 0 <= i < |t| ==> !IsDigit(t[i])
    ensures Expand(Rle(t)) == t
    decreases |t|
  {
    if t != [] {
      var k := LeadingRun(t);
      var rest := t[k..];
      assert t[..k] + rest == t;
      calc {
        Expand(Rle(t));
        { ExpandLeadingRun(t); }
        Repeat(t[0], k) + Expand(Rle(rest));
        { NoDigitsAfter(t, k); RleRoundTrip(rest); }
        Repeat(t[0], k) + rest;
        { LeadingRunIsRun(t); }
        t[..k] + rest;
      }
    }
  }

  /** A text without digits has none after any position either. */
  lemma NoDigitsAfter(t: string, k: nat)
    requires k <= |t| && forall i :: 0 <= i < |t| ==> !IsDigit(t[i])
    ensures forall i :: 0 <= i < |t[k..]| ==> !IsDigit(t[k..][i])
  {
    forall i | 0 <= i < |t[k..]|
      ensures !IsDigit(t[k..][i])
    {
      assert t[k..][i] == t[k + i];
    }
  }

  /** Expanding the code of a text whose first character is no digit: the
      leading run comes back, followed by the expansion of the rest's code. */
  lemma ExpandLeadingRun(t: string)
    requires |t| > 0 && !IsDigit(t[0])
    ensures Expand(Rle(t)) == Repeat(t[0], LeadingRun(t)) + Expand(Rle(t[LeadingRun(t)..]))
  {
    var k := LeadingRun(t);
    assert Rle(t) == Token(t[0], k) + Rle(t[k..]);
    ExpandToken(t[0], k, Rle(t[k..]));
  }

  /** With digits in the text the code is ambiguous: "aa" and "2a" share a code. */
  lemma RleAmbiguousOnDigits()
    ensures Rle("aa") == Rle("2a") == "2a"
  {
    assert LeadingRun("aa") == 2;
    assert "aa"[2..] == [];
    assert Decimal(2) == "2";
    assert LeadingRun("2a") == 1;
    assert "2a"[1..] == "a";
    assert LeadingRun("a") == 1;
    assert "a"[1..] == [];
  }
}

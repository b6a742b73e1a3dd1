/**
 Number printing of kernel/utility.c: digits are written lowest first into a buffer
 and then reversed in place.
 */
module Printer {
  import opened Bits
  import opened Words
  import opened Seqs

  // The characters of the digits below 36.
  function DigitChar(r: nat): char
    requires r < 36
  {
    if r < 10 then (r + '0' as int) as char else (r + 'a' as int - 10) as char
  }

  // What a reader makes of a character; 36 when it is no digit.
  function DigitValue(c: char): nat {
    if '0' <= c <= '9' then c as int - '0' as int
    else if 'a' <= c <= 'z' then c as int - 'a' as int + 10
    else 36
  }

  predicate GoodBase(base: nat) {
    2 <= base <= 36
  }

  // The numeral of d, highest digit first.
  function Digits(d: nat, base: nat): (s: string)
    requires GoodBase(base)
    ensures |s| >= 1
    decreases d
  {
    if d < base then [DigitChar(d)]
    else
      QuotientSmaller(d, base);
      Digits(d / base, base) + [DigitChar(d % base)]
  }

  // A numeral in the base: at least one digit, all digits below the base.
  predicate IsNumeral(s: string, base: nat) {
    s != [] && forall i :: 0 <= i < |s| ==> DigitValue(s[i]) < base
  }

  function Value(s: string, base: nat): nat {
    if s == [] then 0 else Value(s[..|s| - 1], base) * base + DigitValue(s[|s| - 1])
  }

  predicate NoLeadingZero(s: string) {
    |s| > 1 ==> s[0] != '0'
  }

  // Reading the numeral back gives the number ...
  lemma {:induction false} RoundTrip(d: nat, base: nat)
    requires GoodBase(base)
    ensures IsNumeral(Digits(d, base), base) && Value(Digits(d, base), base) == d
    decreases d
  {
    if d < base {
      OneDigit(d, base);
    } else {
      QuotientSmaller(d, base);
      RoundTrip(d / base, base);
      OneMoreDigit(Digits(d / base, base), d % base, base);
      Recompose(d, base);
    }
  }

  lemma Recompose(d: nat, base: nat)
    requires base >= 1
    ensures d / base * base + d % base == d
  {
  }

  // ... and it starts with a zero only for the number zero.
  lemma {:induction false} LeadingDigit(d: nat, base: nat)
    requires GoodBase(base)
    ensures NoLeadingZero(Digits(d, base)) && (Digits(d, base)[0] == '0' <==> d == 0)
    decreases d
  {
    if d < base {
      OneDigit(d, base);
    } else {
      QuotientSmaller(d, base);
      LeadingDigit(d / base, base);
    }
  }

  lemma OneDigit(r: nat, base: nat)
    requires GoodBase(base) && r < base
    ensures IsNumeral([DigitChar(r)], base) && Value([DigitChar(r)], base) == r
    ensures DigitChar(r) == '0' <==> r == 0
  {
    assert [DigitChar(r)][..0] == [];
  }

  lemma OneMoreDigit(s: string, r: nat, base: nat)
    requires GoodBase(base) && IsNumeral(s, base) && r < base
    ensures IsNumeral(s + [DigitChar(r)], base)
    ensures Value(s + [DigitChar(r)], base) == Value(s, base) * base + r
  {
    var t := s + [DigitChar(r)];
    assert t[..|t| - 1] == s;
  }

  lemma QuotientSmaller(d: nat, base: nat)
    requires base >= 2 && d >= base
    ensures 1 <= d / base < d
  {
  }

  // The numeral is the only one without a leading zero ...
  lemma {:induction false} NumeralUnique(s: string, base: nat)
    requires GoodBase(base) && IsNumeral(s, base) && NoLeadingZero(s)
    ensures s == Digits(Value(s, base), base)
    decreases |s|
  {
    var front, c := s[..|s| - 1], s[|s| - 1];
    assert s == front + [c];
    CharOfValue(c);
    if front == [] {
      OneCharacter(c, base);
    } else {
      assert IsNumeral(front, base) && front[0] == s[0];
      NumeralUnique(front, base);
      LeadingPositive(front, base);
      DigitsAppend(Value(front, base), DigitValue(c), base);
    }
  }

  lemma CharOfValue(c: char)
    ensures DigitValue(c) < 36 ==> DigitChar(DigitValue(c)) == c
  {
  }

  lemma OneCharacter(c: char, base: nat)
    requires GoodBase(base) && DigitValue(c) < base
    ensures Value([c], base) == DigitValue(c) && Digits(DigitValue(c), base) == [c]
  {
    CharOfValue(c);
    assert [c][..0] == [];
  }

  lemma DigitsAppend(q: nat, r: nat, base: nat)
    requires GoodBase(base) && q >= 1 && r < base
    ensures Digits(q * base + r, base) == Digits(q, base) + [DigitChar(r)]
  {
    DivideBack(q, r, base);
  }

  lemma DivideBack(q: nat, r: nat, base: nat)
    requires r < base
    ensures (q * base + r) / base == q && (q * base + r) % base == r
    ensures q >= 1 ==> q * base + r >= base
  {
    ModUnique(q * base + r, q, base);
    MulMono(1, q, base);
  }

  lemma {:induction false} LeadingPositive(s: string, base: nat)
    requires GoodBase(base) && IsNumeral(s, base) && s[0] != '0'
    ensures Value(s, base) >= 1
    decreases |s|
  {
    var front := s[..|s| - 1];
    if front != [] {
      LeadingPositive(front, base);
      DivideBack(Value(front, base), DigitValue(s[|s| - 1]), base);
    }
  }

  // ... and no numeral of the same number is shorter.
  lemma {:induction false} NumeralShortest(s: string, base: nat)
    requires GoodBase(base) && IsNumeral(s, base)
    ensures |Digits(Value(s, base), base)| <= |s|
    decreases |s|
  {
    var front := s[..|s| - 1];
    if front != [] {
      NumeralShortest(front, base);
      DivideBack(Value(front, base), DigitValue(s[|s| - 1]), base);
    }
  }

  function Power(b: nat, k: nat): nat {
    if k == 0 then 1 else b * Power(b, k - 1)
  }

  lemma {:induction false} DigitsBound(d: nat, base: nat, k: nat)
    requires GoodBase(base) && k >= 1 && d < Power(base, k)
    ensures |Digits(d, base)| <= k
    decreases d
  {
    if d >= base {
      assert k > 1 by { assert Power(base, 1) == base * Power(base, 0) == base; }
      QuotientSmaller(d, base);
      QuotientBound(d, base, Power(base, k - 1));
      DigitsBound(d / base, base, k - 1);
    }
  }

  lemma QuotientBound(d: nat, base: nat, m: nat)
    requires base >= 1 && d < base * m
    ensures d / base < m
  {
    MulMono(m, d / base, base);
    assert d / base * base <= d;
  }

  // Any word, printed in decimal or hexadecimal with a sign and the terminator, fits
  // the 20 characters that printf sets aside.
  lemma FitsPrintfBuffer(d: nat)
    requires d < WORD_RANGE
    ensures 1 + |Digits(d, 10)| + 1 <= 20 && 1 + |Digits(d, 16)| + 1 <= 20
    ensures |Digits(d, 10)| <= 10 && |Digits(d, 16)| <= 8
  {
    assert Power(10, 5) == 100000;
    assert Power(10, 10) == 10 * 10 * 10 * 10 * 10 * Power(10, 5);
    DigitsBound(d, 10, 10);
    assert Power(16, 4) == 65536;
    assert Power(16, 8) == 16 * 16 * 16 * 16 * Power(16, 4);
    DigitsBound(d, 16, 8);
  }

  /* Signed numbers */

  // The word that itoa prints, and the text.
  function IntText(d: int, base: nat): string
    requires GoodBase(base)
  {
    if base == 10 && d < 0 then ['-'] + Digits(-d, base) else Digits(U32(d), base)
  }

  function IntValue(s: string): int {
    if s != [] && s[0] == '-' then -(Value(s[1..], 10) as int) else Value(s, 10)
  }

  lemma SignedRoundTrip(d: int)
    requires -0x8000_0000 <= d < 0x8000_0000
    ensures IntValue(IntText(d, 10)) == d
  {
    if d < 0 {
      SignedValue(-d);
    } else {
      assert U32(d) == d;
      UnsignedValue(d);
    }
  }

  // In any other base the numeral is that of the two's complement word.
  lemma WordText(d: int, base: nat)
    requires GoodBase(base) && -0x8000_0000 <= d < 0x8000_0000 && (base != 10 || d >= 0)
    ensures IsNumeral(IntText(d, base), base)
    ensures Value(IntText(d, base), base) == if d < 0 then d + WORD_RANGE else d
  {
    RoundTrip(U32(d), base);
  }

  lemma SignedValue(n: nat)
    ensures IntValue(['-'] + Digits(n, 10)) == -(n as int)
  {
    RoundTrip(n, 10);
    assert (['-'] + Digits(n, 10))[1..] == Digits(n, 10);
  }

  lemma UnsignedValue(n: nat)
    ensures IntValue(Digits(n, 10)) == n
  {
    RoundTrip(n, 10);
    NumeralsAreUnsigned(Digits(n, 10), 10);
  }

  lemma NumeralsAreUnsigned(s: string, base: nat)
    requires GoodBase(base) && IsNumeral(s, base)
    ensures s[0] != '-'
  {
    assert DigitValue(s[0]) < base;
  }

  lemma SignedFitsPrintfBuffer(d: int)
    requires -0x8000_0000 <= d < 0x8000_0000
    ensures |IntText(d, 10)| + 1 <= 20
  {
    FitsPrintfBuffer(if d < 0 then -d else d);
  }

  /* The code */

  // The numeral and the terminator are written from `at` on, nothing else is.
  method Utoa(buf: array<char>, at: nat, value: nat, base: nat)
    requires GoodBase(base) && at + |Digits(value, base)| < buf.Length
    modifies buf
    ensures var n := |Digits(value, base)|;
            buf[at..at + n] == Digits(value, base) && buf[at + n] == 0 as char
            && forall k :: 0 <= k < buf.Length && !(at <= k <= at + n) ==> buf[k] == old(buf[k])
  {
    var end := WriteDigits(buf, at, value, base);
    buf[end] := 0 as char;
    ReverseInPlace(buf, at, end);
  }

  // The digit loop: lowest digit first.
  method WriteDigits(buf: array<char>, at: nat, value: nat, base: nat) returns (end: nat)
    requires GoodBase(base) && at + |Digits(value, base)| < buf.Length
    modifies buf
    ensures end == at + |Digits(value, base)| && Reverse(buf[at..end]) == Digits(value, base)
    ensures forall k :: 0 <= k < buf.Length && !(at <= k < end) ==> buf[k] == old(buf[k])
  {
    end := at;
    var d: nat := value;
    while true
      invariant at <= end < buf.Length && Pending(value, d, base, buf[at..end])
      invariant forall k :: 0 <= k < buf.Length && !(at <= k < end) ==> buf[k] == old(buf[k])
      decreases d
    {
      var rest, rem := DivMod(d, base);
      WriteStep(value, d, rest, rem, base, buf[at..end]);
      Put(buf, at, end, DigitChar(rem));
      end := end + 1;
      d := rest;
      if d == 0 {
        break;
      }
    }
  }

  method Put(buf: array<char>, ghost at: nat, end: nat, c: char)
    requires at <= end < buf.Length
    modifies buf
    ensures buf[at..end + 1] == old(buf[at..end]) + [c]
    ensures forall k :: 0 <= k < buf.Length && k != end ==> buf[k] == old(buf[k])
  {
    buf[end] := c;
  }

  // The digits written so far, lowest first, follow those of the rest d.
  ghost predicate Pending(value: nat, d: nat, base: nat, written: string)
    requires GoodBase(base)
  {
    Digits(value, base) == Digits(d, base) + Reverse(written)
  }

  // q and r are quotient and remainder; the division itself is kept out of the loop.
  ghost predicate Divides(d: nat, base: nat, q: nat, r: nat)
    requires base >= 1
  {
    q == d / base && r == d % base
  }

  method DivMod(d: nat, base: nat) returns (q: nat, r: nat)
    requires GoodBase(base)
    ensures r < base && Divides(d, base, q, r)
  {
    q, r := d / base, d % base;
  }

  lemma WriteStep(value: nat, d: nat, q: nat, r: nat, base: nat, written: string)
    requires GoodBase(base) && Pending(value, d, base, written) && r < base && Divides(d, base, q, r)
    ensures var next := written + [DigitChar(r)];
            |next| <= |Digits(value, base)|
            && (q == 0 ==> Reverse(next) == Digits(value, base))
            && (q != 0 ==> |next| < |Digits(value, base)| && Pending(value, q, base, next) && q < d)
  {
    LastDigit(d, base);
    ReverseAppend(written, DigitChar(r));
  }

  lemma LastDigit(d: nat, base: nat)
    requires GoodBase(base)
    ensures d / base == 0 ==> Digits(d, base) == [DigitChar(d % base)]
    ensures d / base != 0 ==> Digits(d, base) == Digits(d / base, base) + [DigitChar(d % base)] && d / base < d
  {
    if d < base {
      ModUnique(d, 0, base);
    } else {
      QuotientSmaller(d, base);
    }
  }

  lemma ReverseAppend(s: string, x: char)
    ensures Reverse(s + [x]) == [x] + Reverse(s)
  {
  }

  method ReverseInPlace(buf: array<char>, begin: nat, end: nat)
    requires begin <= end <= buf.Length
    modifies buf
    ensures buf[begin..end] == Reverse(old(buf[begin..end]))
    ensures forall k :: 0 <= k < buf.Length && !(begin <= k < end) ==> buf[k] == old(buf[k])
  {
    var i, j := begin, end;
    while i < j - 1
      invariant begin <= i <= j <= end && i + j == begin + end
      invariant Reversing(old(buf[..]), buf[..], begin, end, i)
    {
      j := j - 1;
      SwapEnds(old(buf[..]), buf[..], begin, end, i);
      buf[i], buf[j] := buf[j], buf[i];
      i := i + 1;
    }
    Reversed(old(buf[..]), buf[..], begin, end, i);
  }

  // The outer i - begin elements at both ends of [begin, end) have been exchanged.
  ghost predicate Reversing(before: string, now: string, begin: nat, end: nat, i: nat) {
    && |now| == |before| && begin <= i && begin <= end <= |before| && 2 * i <= begin + end
    && forall k :: 0 <= k < |before| ==>
         now[k] == if begin <= k < end && (k < i || begin + end - i <= k)
                   then before[Mirror(begin, end, k)] else before[k]
  }

  function Mirror(begin: nat, end: nat, k: nat): nat
    requires begin <= k < end
  {
    begin + end - 1 - k
  }

  lemma SwapEnds(before: string, now: string, begin: nat, end: nat, i: nat)
    requires Reversing(before, now, begin, end, i) && 2 * i + 1 < begin + end
    ensures begin <= i < Mirror(begin, end, i) < end
    ensures Reversing(before, now[i := now[Mirror(begin, end, i)]][Mirror(begin, end, i) := now[i]], begin, end, i + 1)
  {
    var m := Mirror(begin, end, i);
    assert now[i] == before[i] && now[m] == before[m];
  }

  lemma Reversed(before: string, now: string, begin: nat, end: nat, i: nat)
    requires Reversing(before, now, begin, end, i) && begin + end <= 2 * i + 1
    ensures now[begin..end] == Reverse(before[begin..end])
    ensures forall k :: 0 <= k < |now| && !(begin <= k < end) ==> now[k] == before[k]
  {
    forall k | 0 <= k < end - begin ensures now[begin..end][k] == Reverse(before[begin..end])[k] {
      assert now[begin..end][k] == now[begin + k];
      assert Reverse(before[begin..end])[k] == before[begin + (end - begin - 1 - k)];
    }
  }

  // Two's complement negation: the minimum integer is its own negative.
  function Negated(d: int): int {
    if d == -0x8000_0000 then d else -d
  }

  // As a word that is the right absolute value all the same.
  lemma NegatedWord(d: int)
    requires -0x8000_0000 <= d < 0
    ensures U32(Negated(d)) == -d
  {
  }

  method Itoa(buf: array<char>, d: int, base: nat)
    requires GoodBase(base) && -0x8000_0000 <= d < 0x8000_0000
    requires |IntText(d, base)| < buf.Length
    modifies buf
    ensures var n := |IntText(d, base)|;
            buf[..n] == IntText(d, base) && buf[n] == 0 as char
            && forall k :: n < k < buf.Length ==> buf[k] == old(buf[k])
  {
    var n, at := U32(d), 0;
    if base == 10 && d < 0 {
      buf[0] := '-';
      at := 1;
      n := U32(Negated(d));
      NegatedWord(d);
    }
    Utoa(buf, at, n, base);
  }
}

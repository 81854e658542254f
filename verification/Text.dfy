/** Formatted reading and writing of numbers and words, as `>>` and `<<` do it on a stream of characters. */
module Text {
  import opened Sequences
  import opened Roads

  predicate IsSpace(c: char)
  {
    c == ' ' || c == '\t' || c == '\n' || c == '\r' || c == '\U{0B}' || c == '\U{0C}'
  }

  predicate IsDigit(c: char)
  {
    '0' <= c <= '9'
  }

  predicate AllDigits(s: string)
  {
    forall i :: 0 <= i < |s| ==> IsDigit(s[i])
  }

  function DigitChar(d: nat): char
    requires d < 10
  {
    ['0', '1', '2', '3', '4', '5', '6', '7', '8', '9'][d]
  }

  function DigitValue(c: char): nat
  {
    if IsDigit(c) then (c - '0') as int else 0
  }

  function NatText(n: nat): (s: string)
    ensures s != [] && AllDigits(s)
  {
    if n < 10 then [DigitChar(n)] else NatText(n / 10) + [DigitChar(n % 10)]
  }

  function NatValue(s: string): nat
  {
    if s == [] then 0 else 10 * NatValue(s[..|s| - 1]) + DigitValue(Last(s))
  }

  lemma {:induction false} NatRoundTrip(n: nat)
    ensures NatValue(NatText(n)) == n
  {
    if n >= 10 {
      NatRoundTrip(n / 10);
      assert NatText(n)[..|NatText(n)| - 1] == NatText(n / 10);
    }
  }

  function SignText(negative: bool): string
  {
    if negative then "-" else ""
  }

  function IntText(i: int): string
  {
    SignText(i < 0) + NatText(WithSign(i < 0, i))
  }

  /** Leading blanks are skipped before anything is read. */
  function SkipSpace(s: string): (r: string)
    ensures |r| <= |s|
  {
    if s != [] && IsSpace(s[0]) then SkipSpace(s[1..]) else s
  }

  /** Length of the digits, or of the non-blanks, that the text starts with. */
  function DigitRun(s: string): (n: nat)
    ensures n <= |s| && AllDigits(s[..n])
    ensures n < |s| ==> !IsDigit(s[n])
  {
    if s != [] && IsDigit(s[0]) then
      var n := 1 + DigitRun(s[1..]);
      assert s[..n] == [s[0]] + s[1..][..n - 1];
      n
    else 0
  }

  function WordRun(s: string): (n: nat)
    ensures n <= |s|
    ensures forall i :: 0 <= i < n ==> !IsSpace(s[i])
    ensures n < |s| ==> IsSpace(s[n])
  {
    if s != [] && !IsSpace(s[0]) then 1 + WordRun(s[1..]) else 0
  }

  predicate Negative(s: string)
  {
    s != [] && s[0] == '-'
  }

  function AfterSign(s: string): (r: string)
    ensures |r| <= |s|
  {
    if s != [] && (s[0] == '-' || s[0] == '+') then s[1..] else s
  }

  function WithSign(negative: bool, n: int): int
  {
    if negative then -n else n
  }

  /** What was read and what is left; nothing if reading fails. */
  type Reading<T> = Option<(T, string)>

  /** An `int`: fails without a digit and outside the 32-bit range. */
  function ReadInt(text: string): (r: Reading<Id>)
    ensures r.Some? ==> |r.value.1| < |text|
  {
    var s := SkipSpace(text);
    ReadDigits(Negative(s), AfterSign(s))
  }

  function ReadDigits(negative: bool, t: string): (r: Reading<Id>)
    ensures r.Some? ==> |r.value.1| < |t|
  {
    var n := DigitRun(t);
    var v := WithSign(negative, NatValue(t[..n]));
    if n == 0 || v < -0x8000_0000 || INT_MAX < v then None else Some((v, t[n..]))
  }

  /** A word: fails only at the end of the text. */
  function ReadWord(text: string): (r: Reading<string>)
    ensures r.Some? ==> |r.value.1| < |text| && IsName(r.value.0)
  {
    var s := SkipSpace(text);
    var n := WordRun(s);
    if n == 0 then None else Some((s[..n], s[n..]))
  }

  predicate IsName(s: string)
  {
    s != [] && forall i :: 0 <= i < |s| ==> !IsSpace(s[i])
  }

  /** Trailing zeros of a fraction do not change its value. */
  function WithoutZeros(s: string): (r: string)
    ensures r == [] || Last(r) != '0'
    ensures r <= s && forall i :: |r| <= i < |s| ==> s[i] == '0'
    ensures AllDigits(s) ==> AllDigits(r)
  {
    if s != [] && Last(s) == '0' then WithoutZeros(s[..|s| - 1]) else s
  }

  /** A number in decimal notation, without exponent. */
  function ReadDecimal(text: string): (r: Reading<Decimal>)
    ensures r.Some? ==> |r.value.1| < |text| && IsPlain(r.value.0)
  {
    var s := SkipSpace(text);
    ReadUnsigned(Negative(s), AfterSign(s))
  }

  function ReadUnsigned(negative: bool, t: string): (r: Reading<Decimal>)
    ensures r.Some? ==> |r.value.1| < |t| && IsPlain(r.value.0)
  {
    var n := DigitRun(t);
    if n < |t| && t[n] == '.' then ReadBehindPoint(negative, NatValue(t[..n]), n > 0, t[n + 1..])
    else if n == 0 then None
    else Some((Decimal(negative, NatValue(t[..n]), []), t[n..]))
  }

  /** A point needs a digit before or behind it. */
  function ReadBehindPoint(negative: bool, whole: nat, digitBefore: bool, f: string): (r: Reading<Decimal>)
    ensures r.Some? ==> |r.value.1| <= |f| && IsPlain(r.value.0)
  {
    var m := DigitRun(f);
    if !digitBefore && m == 0 then None else Some((Decimal(negative, whole, WithoutZeros(f[..m])), f[m..]))
  }

  /** The fraction is in its shortest form. */
  predicate IsPlain(d: Decimal)
  {
    AllDigits(d.fraction) && (d.fraction == [] || Last(d.fraction) != '0')
  }

  function PointText(fraction: string): string
  {
    if fraction == [] then "" else "." + fraction
  }

  function DecimalText(d: Decimal): string
  {
    SignText(d.negative) + NatText(d.whole) + PointText(d.fraction)
  }

  /** Some numbers as they are written. */
  lemma SampleNumbers()
    ensures IntText(0) == "0" && IntText(54) == "54" && IntText(-103) == "-103"
    ensures DecimalText(Decimal(false, 77, "9985")) == "77.9985" && DecimalText(Decimal(true, 30, "")) == "-30"
  {
    assert NatText(54) == "54" && NatText(103) == "103" && NatText(77) == "77" && NatText(30) == "30";
    assert "77" + ("." + "9985") == "77.9985";
  }

  lemma {:induction false} DigitRunStops(digits: string, rest: string)
    requires AllDigits(digits) && (rest == [] || !IsDigit(rest[0]))
    ensures DigitRun(digits + rest) == |digits|
  {
    if digits == [] {
      assert digits + rest == rest;
    } else {
      DigitRunStops(digits[1..], rest);
      assert (digits + rest)[1..] == digits[1..] + rest;
    }
  }

  lemma {:induction false} WordRunStops(word: string, rest: string)
    requires (forall i :: 0 <= i < |word| ==> !IsSpace(word[i])) && (rest == [] || IsSpace(rest[0]))
    ensures WordRun(word + rest) == |word|
  {
    if word == [] {
      assert word + rest == rest;
    } else {
      WordRunStops(word[1..], rest);
      assert (word + rest)[1..] == word[1..] + rest;
    }
  }

  /** Text that reading leaves alone: its end, or a blank. */
  predicate Blank(rest: string)
  {
    rest == [] || IsSpace(rest[0])
  }

  predicate AllSpaces(s: string)
  {
    forall i :: 0 <= i < |s| ==> IsSpace(s[i])
  }

  /** What counts as a blank: these six characters and no others. */
  lemma BlanksSkipped(c: char, s: string)
    ensures SkipSpace([c] + s)
         == if c in [' ', '\t', '\n', '\r', '\U{0B}', '\U{0C}'] then SkipSpace(s) else [c] + s
  {
    assert ([c] + s)[1..] == s;
  }

  /** A plus sign is read and never written. */
  lemma PlusRead(lead: string, n: nat, rest: string)
    requires AllSpaces(lead) && (rest == [] || !IsDigit(rest[0])) && n <= 0x7fff_ffff
    ensures ReadInt(lead + ("+" + NatText(n)) + rest) == Some((n, rest))
  {
    LeadSkipped(lead, "+" + NatText(n), rest);
    PlusSkipped(NatText(n), rest);
    DigitsRoundTrip(n, rest);
  }

  lemma PlusSkipped(digits: string, rest: string)
    ensures !Negative("+" + digits + rest) && AfterSign("+" + digits + rest) == digits + rest
  {
    Regroup("+", digits, rest);
    CutBetween("+", digits + rest);
  }

  /** The value of a further digit, which counts the ones. */
  lemma DigitsCount(s: string, d: nat)
    requires d < 10
    ensures DigitChar(d) as int == '0' as int + d
    ensures NatValue(s + [DigitChar(d)]) == 10 * NatValue(s) + d
  {
    assert (s + [DigitChar(d)])[..|s|] == s;
  }

  /** Behind any blanks an integer is read back as it was written if it fits 32 bits, and not at all otherwise. */
  lemma IntRoundTrip(lead: string, i: int, rest: string)
    requires AllSpaces(lead) && (rest == [] || !IsDigit(rest[0]))
    ensures ReadInt(lead + IntText(i) + rest)
         == if -0x8000_0000 <= i <= 0x7fff_ffff then Some((i, rest)) else None
  {
    var n: nat := WithSign(i < 0, i);
    SignSkipped(lead, i < 0, NatText(n), rest);
    DigitsRoundTrip(i, rest);
  }

  lemma DigitsRoundTrip(i: int, rest: string)
    requires rest == [] || !IsDigit(rest[0])
    ensures ReadDigits(i < 0, NatText(WithSign(i < 0, i)) + rest)
         == if -0x8000_0000 <= i <= 0x7fff_ffff then Some((i, rest)) else None
  {
    var n: nat := WithSign(i < 0, i);
    var digits := NatText(n);
    NatRoundTrip(n);
    DigitRunStops(digits, rest);
    CutBetween(digits, rest);
  }

  /** Reading skips the leading blanks, then the sign, and goes on with the digits. */
  lemma SignSkipped(lead: string, negative: bool, digits: string, rest: string)
    requires AllSpaces(lead) && digits != [] && AllDigits(digits)
    ensures var s := SkipSpace(lead + (SignText(negative) + digits) + rest);
            Negative(s) == negative && AfterSign(s) == digits + rest
  {
    assert IsDigit(digits[0]);
    LeadSkipped(lead, SignText(negative) + digits, rest);
    if negative {
      assert SignText(negative) + digits + rest == ['-'] + (digits + rest);
    } else {
      assert SignText(negative) + digits == digits;
    }
  }

  lemma {:induction false} LeadSkipped(lead: string, s: string, rest: string)
    requires AllSpaces(lead) && s != [] && !IsSpace(s[0])
    ensures SkipSpace(lead + s + rest) == s + rest
  {
    if lead == [] {
      assert lead + s + rest == s + rest;
    } else {
      LeadSkipped(lead[1..], s, rest);
      assert (lead + s + rest)[1..] == lead[1..] + s + rest;
    }
  }

  lemma WordRoundTrip(lead: string, word: string, rest: string)
    requires AllSpaces(lead) && IsName(word) && Blank(rest)
    ensures ReadWord(lead + word + rest) == Some((word, rest))
  {
    LeadSkipped(lead, word, rest);
    WordRunStops(word, rest);
    CutBetween(word, rest);
  }

  lemma DecimalRoundTrip(lead: string, d: Decimal, rest: string)
    requires AllSpaces(lead) && IsPlain(d) && Blank(rest)
    ensures ReadDecimal(lead + DecimalText(d) + rest) == Some((d, rest))
  {
    var digits, point := NatText(d.whole), PointText(d.fraction);
    Regroup(SignText(d.negative) + digits, point, rest);
    Regroup(lead, SignText(d.negative) + digits, point + rest);
    Regroup(lead, DecimalText(d), rest);
    SignSkipped(lead, d.negative, digits, point + rest);
    UnsignedRoundTrip(d, rest);
  }

  /** Digits on either side of the point are enough, and zeros at the end of the fraction do not count. */
  lemma DecimalRead(lead: string, negative: bool, whole: string, fraction: string, rest: string)
    requires AllSpaces(lead) && AllDigits(whole) && AllDigits(fraction) && (whole != [] || fraction != [])
    requires rest == [] || !IsDigit(rest[0])
    ensures ReadDecimal(lead + (SignText(negative) + (whole + ".")) + (fraction + rest))
         == Some((Decimal(negative, NatValue(whole), WithoutZeros(fraction)), rest))
  {
    var t := whole + ".";
    assert t[0] == '.' || IsDigit(t[0]);
    LeadSkipped(lead, SignText(negative) + t, fraction + rest);
    SignCut(negative, t, fraction + rest);
    UnsignedRead(negative, whole, fraction, rest);
  }

  lemma SignCut(negative: bool, t: string, rest: string)
    requires t != [] && (t[0] == '.' || IsDigit(t[0]))
    ensures var s := SignText(negative) + t + rest; Negative(s) == negative && AfterSign(s) == t + rest
  {
    Regroup(SignText(negative), t, rest);
    CutBetween(SignText(negative), t + rest);
  }

  lemma UnsignedRead(negative: bool, whole: string, fraction: string, rest: string)
    requires AllDigits(whole) && AllDigits(fraction) && (whole != [] || fraction != [])
    requires rest == [] || !IsDigit(rest[0])
    ensures ReadUnsigned(negative, whole + "." + (fraction + rest))
         == Some((Decimal(negative, NatValue(whole), WithoutZeros(fraction)), rest))
  {
    var f := fraction + rest;
    Regroup(whole, ".", f);
    DigitRunStops(whole, "." + f);
    CutBetween(whole, "." + f);
    CutBetween(whole + ".", f);
    DigitRunStops(fraction, rest);
    CutBetween(fraction, rest);
  }

  lemma UnsignedRoundTrip(d: Decimal, rest: string)
    requires IsPlain(d) && Blank(rest)
    ensures ReadUnsigned(d.negative, NatText(d.whole) + (PointText(d.fraction) + rest)) == Some((d, rest))
  {
    NatRoundTrip(d.whole);
    var digits := NatText(d.whole);
    if d.fraction == [] {
      assert PointText(d.fraction) + rest == rest;
      ReadWhole(d.negative, digits, rest);
    } else {
      assert PointText(d.fraction) + rest == "." + (d.fraction + rest);
      Regroup(digits, ".", d.fraction + rest);
      UnsignedRead(d.negative, digits, d.fraction, rest);
    }
  }

  lemma ReadWhole(negative: bool, digits: string, rest: string)
    requires AllDigits(digits) && digits != [] && Blank(rest)
    ensures ReadUnsigned(negative, digits + rest) == Some((Decimal(negative, NatValue(digits), []), rest))
  {
    DigitRunStops(digits, rest);
    CutBetween(digits, rest);
  }
}

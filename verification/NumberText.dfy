/**
 The text of a padded number as `prints` and `printi` of `u_printf.c` produce it, and the
 reader that takes such a text back to its value.
*/
module NumberText {
  import opened Bits

  /** `PAD_RIGHT` and `PAD_ZERO` */
  datatype Pad = Pad(right: bool, zero: bool)

  type Base = b: nat | b == 10 || b == 16 witness 10
  type Letter = c: char | c == 'a' || c == 'A' witness 'a'

  function Fill(c: char, n: int): (r: string)
    ensures |r| == (if n > 0 then n else 0) && forall i | 0 <= i < |r| :: r[i] == c
  {
    seq(if n > 0 then n else 0, _ => c)
  }

  /** `prints`: at least `width` characters, spaces or zeros on one side. */
  function Padded(s: string, width: int, pad: Pad): string {
    var gap := Fill(if pad.zero then '0' else ' ', width - |s|);
    if pad.right then s + gap else gap + s
  }

  /**
   `shown` is the text `s` brought up to the width by characters `c`: all behind the text for the `-` flag, all
   in front of it without.
  */
  ghost predicate Justified(shown: string, s: string, width: int, behind: bool, c: char) {
    && |shown| == (if width > |s| then width else |s|)
    && if behind then s <= shown && forall i | |s| <= i < |shown| :: shown[i] == c
       else shown[|shown| - |s|..] == s && forall i | 0 <= i < |shown| - |s| :: shown[i] == c
  }

  lemma PaddedIsJustified(s: string, width: int, pad: Pad)
    ensures Justified(Padded(s, width, pad), s, width, pad.right, if pad.zero then '0' else ' ')
  {
  }

  function Digit(t: nat, letter: Letter): char
    requires t < 16
  {
    if t >= 10 then (t - 10 + letter as int) as char else (t + '0' as int) as char
  }

  /** The digits of a nonzero value, most significant first; none for 0. */
  function Digits(u: nat, b: Base, letter: Letter): string
    decreases u
  {
    if u == 0 then "" else (DigitsShrink(u, b); Digits(u / b, b, letter)) + [Digit(u % b, letter)]
  }

  lemma DigitsShrink(u: nat, b: Base)
    requires u > 0
    ensures u / b < u && u % b < 16 && u / b * b + u % b == u
  {
  }

  /** The magnitude `printi` writes, as a 32-bit unsigned value. */
  function Magnitude(i: int, signed: bool): u32 {
    if signed && i < 0 then Wrap32(-i) else Wrap32(i)
  }

  lemma MagnitudePositive(i: int, signed: bool)
    requires -0x8000_0000 <= i < 0x8000_0000 && i != 0
    ensures Magnitude(i, signed) > 0
  {
    var x := if signed && i < 0 then -i else i;
    DivModUnique(x, 0x1_0000_0000, if x < 0 then -1 else 0, if x < 0 then x + 0x1_0000_0000 else x);
  }

  /** `printi` */
  function NumberPadded(i: int, b: Base, signed: bool, width: int, pad: Pad, letter: Letter): string {
    var digits := Digits(Magnitude(i, signed), b, letter);
    if i == 0 then Padded("0", width, pad)
    else if !(signed && i < 0) then Padded(digits, width, pad)
    else if width != 0 && pad.zero then "-" + Padded(digits, width - 1, pad)
    else Padded("-" + digits, width, pad)
  }

  // Reading a number

  /** What the digit is worth; 16 for any other character. */
  function DigitValue(c: char): nat {
    if '0' <= c <= '9' then c as int - '0' as int
    else if 'a' <= c <= 'f' then c as int - 'a' as int + 10
    else if 'A' <= c <= 'F' then c as int - 'A' as int + 10
    else 16
  }

  /** Reads digits up to the first other character. */
  function Value(s: string, b: Base, acc: nat): nat
    decreases |s|
  {
    if s == "" || DigitValue(s[0]) >= b then acc
    else Value(s[1..], b, acc * b + DigitValue(s[0]))
  }

  function Negative(x: int): int { -x }

  /** Skips spaces, takes a sign, then reads digits. */
  function Parsed(s: string, b: Base): int
    decreases |s|
  {
    if s == "" then 0
    else if s[0] == ' ' then Parsed(s[1..], b)
    else if s[0] == '-' then Negative(Value(s[1..], b, 0))
    else Value(s, b, 0)
  }

  lemma DigitReads(t: nat, letter: Letter)
    requires t < 16
    ensures DigitValue(Digit(t, letter)) == t && Digit(t, letter) !in [' ', '-', '\0']
    ensures t > 0 ==> Digit(t, letter) != '0'
  {
  }

  lemma ValueStep(c: char, tail: string, b: Base, acc: nat)
    requires DigitValue(c) < b
    ensures Value([c] + tail, b, acc) == Value(tail, b, acc * b + DigitValue(c))
  {
    assert ([c] + tail)[1..] == tail;
  }

  lemma Regroup(a: string, b: string, c: string)
    ensures a + b + c == a + (b + c)
  {
  }

  lemma {:induction false} ValueOfDigits(u: nat, b: Base, letter: Letter, tail: string)
    ensures Value(Digits(u, b, letter) + tail, b, 0) == Value(tail, b, u)
    decreases u
  {
    if u == 0 {
      assert "" + tail == tail;
    } else {
      var q, last := u / b, Digit(u % b, letter);
      DigitsShrink(u, b);
      DigitReads(u % b, letter);
      assert Digits(u, b, letter) == Digits(q, b, letter) + [last];
      hide Digits, Digit, DigitValue, Value;
      ValueOfDigits(q, b, letter, [last] + tail);
      ValueStep(last, tail, b, q);
      Regroup(Digits(q, b, letter), [last], tail);
    }
  }

  lemma {:induction false} LeadingZeros(n: int, s: string, b: Base)
    ensures Value(Fill('0', n) + s, b, 0) == Value(s, b, 0)
    decreases n
  {
    if n <= 0 {
      assert Fill('0', n) + s == s;
    } else {
      LeadingZeros(n - 1, s, b);
      assert DigitValue('0') == 0 && 0 * b == 0;
      assert (Fill('0', n) + s)[1..] == Fill('0', n - 1) + s;
    }
  }

  lemma {:induction false} LeadingSpaces(n: int, s: string, b: Base)
    ensures Parsed(Fill(' ', n) + s, b) == Parsed(s, b)
    decreases n
  {
    if n <= 0 {
      assert Fill(' ', n) + s == s;
    } else {
      LeadingSpaces(n - 1, s, b);
      assert (Fill(' ', n) + s)[1..] == Fill(' ', n - 1) + s;
    }
  }

  /** Trailing zeros are read as digits: they scale any value but 0. */
  lemma {:induction false} TrailingFill(zero: bool, n: int, b: Base, acc: nat)
    ensures var v := Value(Fill(if zero then '0' else ' ', n), b, acc);
            v >= acc && (v == acc <==> !(zero && n > 0 && acc != 0))
    decreases n
  {
    var c := if zero then '0' else ' ';
    if n > 0 && zero {
      TrailingFill(zero, n - 1, b, acc * b);
      assert Fill(c, n)[1..] == Fill(c, n - 1);
    }
  }

  lemma {:induction false} FirstDigit(u: nat, b: Base, letter: Letter)
    requires u > 0
    ensures var d := Digits(u, b, letter);
            d != "" && d[0] != '0' && d[0] !in [' ', '-'] && '\0' !in d
    decreases u
  {
    var q, last := u / b, Digit(u % b, letter);
    DigitsShrink(u, b);
    DigitReads(u % b, letter);
    assert Digits(u, b, letter) == Digits(q, b, letter) + [last];
    assert q == 0 ==> u % b > 0 && Digits(q, b, letter) == "";
    hide Digit, DigitValue, Digits;
    if q > 0 {
      FirstDigit(q, b, letter);
    }
  }

  /** Digits with padding behind them. */
  lemma RightReads(u: nat, b: Base, letter: Letter, zero: bool, n: int)
    ensures Value(Digits(u, b, letter) + Fill(if zero then '0' else ' ', n), b, 0) == u <==>
            !(zero && n > 0 && u != 0)
  {
    ValueOfDigits(u, b, letter, Fill(if zero then '0' else ' ', n));
    TrailingFill(zero, n, b, u);
  }

  /** Digits with zeros on either side. */
  lemma ZeroPaddedReads(u: nat, b: Base, letter: Letter, width: int, right: bool)
    requires u > 0
    ensures var d := Digits(u, b, letter);
            Value(Padded(d, width, Pad(right, true)), b, 0) == u <==> !(right && width > |d|)
  {
    hide Digits, Value;
    var d := Digits(u, b, letter);
    if right {
      RightReads(u, b, letter, true, width - |d|);
    } else {
      LeadingZeros(width - |d|, d, b);
      RightReads(u, b, letter, true, 0);
      assert d + Fill('0', 0) == d;
    }
  }

  /** Neither a space nor a sign in front. */
  lemma StartsWithDigit(s: string, b: Base)
    requires s != "" && s[0] !in [' ', '-']
    ensures Parsed(s, b) == Value(s, b, 0)
  {
  }

  /** An unsigned number in its padding. */
  lemma UnsignedReads(u: nat, b: Base, letter: Letter, width: int, pad: Pad)
    requires u > 0
    ensures var d := Digits(u, b, letter);
            Parsed(Padded(d, width, pad), b) == u <==> !(pad.right && pad.zero && width > |d|)
  {
    hide Digits, Value, Parsed;
    var d := Digits(u, b, letter);
    FirstDigit(u, b, letter);
    if pad.zero {
      ZeroPaddedReads(u, b, letter, width, pad.right);
      StartsWithDigit(Padded(d, width, pad), b);
    } else if pad.right {
      RightReads(u, b, letter, false, width - |d|);
      StartsWithDigit(Padded(d, width, pad), b);
    } else {
      LeadingSpaces(width - |d|, d, b);
      StartsWithDigit(d, b);
      RightReads(u, b, letter, false, 0);
      assert d + Fill(' ', 0) == d;
    }
  }

  lemma SignReads(s: string, b: Base)
    ensures Parsed("-" + s, b) == Negative(Value(s, b, 0))
  {
    assert ("-" + s)[1..] == s;
  }

  /** A negative number in spaces. */
  lemma NegativeReads(u: nat, b: Base, letter: Letter, width: int, right: bool)
    ensures Parsed(Padded("-" + Digits(u, b, letter), width, Pad(right, false)), b) == Negative(u)
  {
    hide Digits, Value, Parsed;
    var d := Digits(u, b, letter);
    var n := width - |d| - 1;
    if right {
      RightReads(u, b, letter, false, n);
      SignReads(d + Fill(' ', n), b);
      assert Padded("-" + d, width, Pad(right, false)) == "-" + (d + Fill(' ', n));
    } else {
      LeadingSpaces(n, "-" + d, b);
      SignReads(d, b);
      RightReads(u, b, letter, false, 0);
      assert d + Fill(' ', 0) == d;
    }
  }

  /** The value the text stands for: the signed one for `%d`, the unsigned word for `%u` and `%x`. */
  function Meant(i: int, signed: bool): int { if signed then i else Wrap32(i) }

  /** The length of the text without padding. */
  function NaturalLength(i: int, b: Base, signed: bool, letter: Letter): nat {
    if i == 0 then 1
    else |Digits(Magnitude(i, signed), b, letter)| + if signed && i < 0 then 1 else 0
  }

  /** At least `width` characters and never fewer than the number needs. */
  lemma NumberLength(i: int, b: Base, signed: bool, width: nat, pad: Pad, letter: Letter)
    ensures var natural := NaturalLength(i, b, signed, letter);
            |NumberPadded(i, b, signed, width, pad, letter)| == if width > natural then width else natural
  {
    hide Digits, Magnitude;
  }

  /**
   The text reads back as the number printed, for every 32-bit value, base, width and padding,
   except where zeros were put behind the digits of a nonzero number.
  */
  lemma NumberReadsBackExactly(i: int, b: Base, signed: bool, width: nat, pad: Pad, letter: Letter)
    requires -0x8000_0000 <= i < 0x8000_0000
    ensures Parsed(NumberPadded(i, b, signed, width, pad, letter), b) == Meant(i, signed) <==>
            !(pad.right && pad.zero && i != 0 && width > NaturalLength(i, b, signed, letter))
  {
    hide Digits, Value, Parsed;
    var u := Magnitude(i, signed);
    var d := Digits(u, b, letter);
    if i == 0 {
      ZeroReads(b, width, pad);
    } else if !(signed && i < 0) {
      UnsignedReads(u, b, letter, width, pad);
    } else {
      NegativeReadsExactly(i, b, width, pad, letter);
    }
  }

  /** The sign goes in front of zeros and behind spaces. */
  lemma NegativeReadsExactly(i: int, b: Base, width: nat, pad: Pad, letter: Letter)
    requires -0x8000_0000 <= i < 0
    ensures Parsed(NumberPadded(i, b, true, width, pad, letter), b) == i <==>
            !(pad.right && pad.zero && width > NaturalLength(i, b, true, letter))
  {
    hide Digits, Value, Parsed, Padded;
    var u, d := -i, Digits(-i, b, letter);
    assert Magnitude(i, true) == u;
    if width != 0 && pad.zero {
      ZeroPaddedReads(u, b, letter, width - 1, pad.right);
      assert Pad(pad.right, true) == pad;
      SignReads(Padded(d, width - 1, pad), b);
    } else {
      NegativeReads(u, b, letter, width, pad.right);
      Unpadded("-" + d, pad);
    }
  }

  /** Without a width the kind of padding does not matter. */
  lemma Unpadded(s: string, pad: Pad)
    ensures Padded(s, 0, pad) == Padded(s, 0, Pad(pad.right, false))
  {
  }

  /** One zero behind any nonzero number is enough: `%-03d` of 42 is "420". */
  lemma ZerosBehindFail(i: int)
    requires -0x8000_0000 <= i < 0x8000_0000 && i != 0
    ensures var width := NaturalLength(i, 10, true, 'a') + 1;
            Parsed(NumberPadded(i, 10, true, width, Pad(true, true), 'a'), 10) != i
  {
    hide *;
    NumberReadsBackExactly(i, 10, true, NaturalLength(i, 10, true, 'a') + 1, Pad(true, true), 'a');
    MeantSigned(i);
  }

  lemma MeantSigned(i: int)
    ensures Meant(i, true) == i
  {
  }

  /** Zero reads as zero however it is padded. */
  lemma ZeroReads(b: Base, width: int, pad: Pad)
    ensures Parsed(Padded("0", width, pad), b) == 0
  {
    var n, c := width - 1, if pad.zero then '0' else ' ';
    assert ("0" + Fill(c, n))[1..] == Fill(c, n);
    TrailingFill(pad.zero, n, b, 0);
    if pad.zero {
      LeadingZeros(n, "0", b);
    } else {
      LeadingSpaces(n, "0", b);
    }
  }

  // The text of a number, without the way it is computed

  /** A digit of the base in the case asked for. */
  predicate DigitOf(c: char, b: Base, letter: Letter) {
    || '0' <= c <= '9'
    || (b == 16 && letter == 'a' && 'a' <= c <= 'f')
    || (b == 16 && letter == 'A' && 'A' <= c <= 'F')
  }

  /** The numeral of `u`: digits of the base, no zero in front, and the right value. */
  ghost predicate IsNumeral(d: string, u: nat, b: Base, letter: Letter) {
    && d != "" && (d[0] == '0' ==> d == "0")
    && (forall i | 0 <= i < |d| :: DigitOf(d[i], b, letter))
    && Value(d, b, 0) == u
  }

  lemma OneDigitOf(t: nat, b: Base, letter: Letter)
    requires t < b
    ensures DigitOf(Digit(t, letter), b, letter)
  {
  }

  lemma {:induction false} DigitChars(u: nat, b: Base, letter: Letter)
    ensures forall i | 0 <= i < |Digits(u, b, letter)| :: DigitOf(Digits(u, b, letter)[i], b, letter)
    decreases u
  {
    if u > 0 {
      DigitsShrink(u, b);
      DigitChars(u / b, b, letter);
      OneDigitOf(u % b, b, letter);
      hide DigitOf, Digit;
    }
  }

  lemma DigitsAreNumeral(u: nat, b: Base, letter: Letter)
    requires u > 0
    ensures IsNumeral(Digits(u, b, letter), u, b, letter)
  {
    hide Digits, DigitOf;
    var d := Digits(u, b, letter);
    FirstDigit(u, b, letter);
    DigitChars(u, b, letter);
    ValueOfDigits(u, b, letter, "");
    assert d + "" == d && Value("", b, u) == u;
  }

  lemma ZeroIsNumeral(b: Base, letter: Letter)
    ensures IsNumeral("0", 0, b, letter)
  {
    assert Value("0", b, 0) == Value("0"[1..], b, 0 * b);
  }

  /** Sign and numeral are justified as a whole; but a minus sign stands in front of zeros that fill up a width. */
  ghost predicate LaidOut(shown: string, minus: bool, d: string, width: nat, pad: Pad) {
    if minus && pad.zero && width > 0 then
      shown != "" && shown[0] == '-' && Justified(shown[1..], d, width - 1, pad.right, '0')
    else
      Justified(shown, (if minus then "-" else "") + d, width, pad.right, if pad.zero then '0' else ' ')
  }

  /** How the number `v` shows. */
  ghost predicate NumberShows(shown: string, v: int, b: Base, letter: Letter, width: nat, pad: Pad) {
    var u: nat := if v < 0 then -v else v;
    exists d: string :: IsNumeral(d, u, b, letter) && LaidOut(shown, v < 0, d, width, pad)
  }

  lemma NumberIsShown(i: int, b: Base, signed: bool, width: nat, pad: Pad, letter: Letter)
    requires -0x8000_0000 <= i < 0x8000_0000
    ensures NumberShows(NumberPadded(i, b, signed, width, pad, letter), Meant(i, signed), b, letter, width, pad)
  {
    var shown, u := NumberPadded(i, b, signed, width, pad, letter), Magnitude(i, signed);
    hide Padded, Digits, IsNumeral, Justified;
    if i == 0 {
      var d := "0";
      ZeroIsNumeral(b, letter);
      PaddedIsJustified(d, width, pad);
      assert "" + d == d;
      Showing(shown, 0, b, letter, width, pad, d);
    } else {
      var d := Digits(u, b, letter);
      MagnitudePositive(i, signed);
      MagnitudeMeant(i, signed);
      DigitsAreNumeral(u, b, letter);
      PaddedIsJustified(d, width, pad);
      PaddedIsJustified("-" + d, width, pad);
      PaddedIsJustified(d, width - 1, pad);
      hide Magnitude;
      assert "" + d == d;
      assert ("-" + Padded(d, width - 1, pad))[1..] == Padded(d, width - 1, pad);
      Showing(shown, Meant(i, signed), b, letter, width, pad, d);
    }
  }

  lemma Showing(shown: string, v: int, b: Base, letter: Letter, width: nat, pad: Pad, d: string)
    requires IsNumeral(d, if v < 0 then -v else v, b, letter) && LaidOut(shown, v < 0, d, width, pad)
    ensures NumberShows(shown, v, b, letter, width, pad)
  {
    hide IsNumeral, LaidOut;
  }

  lemma MagnitudeMeant(i: int, signed: bool)
    requires -0x8000_0000 <= i < 0x8000_0000
    ensures Magnitude(i, signed) == if Meant(i, signed) < 0 then -Meant(i, signed) else Meant(i, signed)
    ensures Meant(i, signed) < 0 <==> signed && i < 0
    ensures i != 0 ==> Meant(i, signed) != 0
  {
    if i < 0 {
      DivModUnique(i, 0x1_0000_0000, -1, i + 0x1_0000_0000);
      DivModUnique(-i, 0x1_0000_0000, 0, -i);
    } else {
      DivModUnique(i, 0x1_0000_0000, 0, i);
    }
  }

  // The scratch buffer

  function Ten(k: nat): nat { if k == 0 then 1 else 10 * Ten(k - 1) }

  lemma QuotientBelow(u: nat, b: Base, t: nat)
    requires u < 10 * t
    ensures u / b < t
  {
  }

  lemma OneDigitMore(u: nat, b: Base, letter: Letter)
    requires u > 0
    ensures |Digits(u, b, letter)| == |Digits(u / b, b, letter)| + 1
  {
  }

  /** A value below `10^k` has at most `k` digits in either base. */
  lemma {:induction false} DigitsAtMost(u: nat, b: Base, letter: Letter, k: nat)
    requires u < Ten(k)
    ensures |Digits(u, b, letter)| <= k
    decreases k
  {
    if u > 0 {
      var q: nat := u / b;
      assert Ten(k) == 10 * Ten(k - 1);
      OneDigitMore(u, b, letter);
      QuotientBelow(u, b, Ten(k - 1));
      hide Digits, Ten;
      DigitsAtMost(q, b, letter, k - 1);
    }
  }

  lemma WordDigits(u: u32, b: Base, letter: Letter)
    ensures |Digits(u, b, letter)| <= 10
  {
    assert Ten(5) == 10_0000;
    assert Ten(10) == 100_0000_0000;
    DigitsAtMost(u, b, letter, 10);
  }
}

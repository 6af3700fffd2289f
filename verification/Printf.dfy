/**
 The formatting engine of `u_printf.c`: `prints`, `printi` and `print`, writing through one
 output cursor, against a rendering defined on the text of the format.
*/
module Printf {
  import opened Bits
  import opened NumberText

  /** Memory holding a C string: characters up to a NUL, then anything. */
  type Memory = m: seq<char> | '\0' in m witness ['\0']

  /** The C string that starts the memory. */
  function Content(m: seq<char>): (r: string)
    ensures |r| <= |m| && r == m[..|r|] && '\0' !in r
    ensures |r| < |m| ==> m[|r|] == '\0'
    ensures '\0' in m ==> |r| < |m|
  {
    if m == [] || m[0] == '\0' then [] else [m[0]] + Content(m[1..])
  }

  lemma {:induction false} ContentUnique(m: seq<char>, s: string)
    requires s <= m && '\0' !in s && |s| < |m| && m[|s|] == '\0'
    ensures Content(m) == s
  {
    if s != "" {
      ContentUnique(m[1..], s[1..]);
    }
  }

  // Directives

  /** The flags and the width between `%` and the conversion letter. */
  datatype Directive = Directive(len: nat, width: nat, pad: Pad)

  function Zeros(s: string): (n: nat)
    ensures n <= |s|
  {
    if s == "" || s[0] != '0' then 0 else 1 + Zeros(s[1..])
  }

  predicate IsDecimal(c: char) { '0' <= c <= '9' }

  function DecimalRun(s: string): (n: nat)
    ensures n <= |s|
  {
    if s == "" || !IsDecimal(s[0]) then 0 else 1 + DecimalRun(s[1..])
  }

  function ReadDirective(s: string): (d: Directive)
    ensures d.len <= |s|
  {
    var minus := if s != "" && s[0] == '-' then 1 else 0;
    var zeros := Zeros(s[minus..]);
    var digits := s[minus + zeros..];
    Directive(minus + zeros + DecimalRun(digits), Value(digits, 10, 0), Pad(minus == 1, zeros > 0))
  }

  predicate IsConversion(c: char) { c in ['s', 'd', 'x', 'X', 'u', 'c'] }

  /** What one conversion letter makes of its argument word; any other letter prints nothing. */
  function Converted(c: char, d: Directive, word: u32, strings: u32 -> Memory): string {
    match c
    case 's' => Padded(if word != 0 then Content(strings(word)) else "(null)", d.width, d.pad)
    case 'd' => NumberPadded(Signed32(word), 10, true, d.width, d.pad, 'a')
    case 'x' => NumberPadded(Signed32(word), 16, false, d.width, d.pad, 'a')
    case 'X' => NumberPadded(Signed32(word), 16, false, d.width, d.pad, 'A')
    case 'u' => NumberPadded(Signed32(word), 10, false, d.width, d.pad, 'a')
    case 'c' => Padded(Content([(word % 0x100) as char]), d.width, d.pad)
    case _ => ""
  }

  // The meaning of a format

  /** A format is a row of tokens; only its last one can be a lone `%` or be cut off behind its flags. */
  datatype Token =
    | Plain(c: char, len: nat)
    | Conversion(d: Directive, c: char, len: nat)
    | Lone(len: nat)
    | Cut(len: nat)
  {
    predicate Whole() { Plain? || Conversion? }

    function Takes(): nat { if Conversion? && IsConversion(c) then 1 else 0 }

    function Shown(word: u32, strings: u32 -> Memory): string {
      match this
      case Plain(c, _) => [c]
      case Conversion(d, c, _) => Converted(c, d, word, strings)
      case _ => ""
    }
  }

  function Head(f: string): (t: Token)
    requires f != ""
    ensures 0 < t.len <= |f| && (t.Whole() || t.len == |f|)
  {
    if f[0] != '%' then Plain(f[0], 1)
    else if |f| == 1 then Lone(1)
    else if f[1] == '%' then Plain('%', 2)
    else
      var d := ReadDirective(f[1..]);
      if 1 + d.len == |f| then Cut(|f|) else Conversion(d, f[1 + d.len], 2 + d.len)
  }

  /** The text of format `f` with the argument words from number `n` on. */
  function Rendered(f: string, args: nat -> u32, n: nat, strings: u32 -> Memory): string
    decreases |f|
  {
    if f == "" then ""
    else
      var t := Head(f);
      t.Shown(args(n), strings) + Rendered(f[t.len..], args, n + t.Takes(), strings)
  }

  /** The format ends inside a directive that has begun: flags or digits, but no letter. */
  predicate Dangling(f: string)
    decreases |f|
  {
    f != "" && (Head(f).Cut? || Dangling(f[Head(f).len..]))
  }

  /** Every directive of the format is complete. */
  predicate Closed(f: string)
    decreases |f|
  {
    f != "" ==> Head(f).Whole() && Closed(f[Head(f).len..])
  }

  /** The argument words a format takes. */
  function Taken(f: string): nat
    decreases |f|
  {
    if f == "" then 0 else Head(f).Takes() + Taken(f[Head(f).len..])
  }

  /** The output side: characters put out so far. */
  class Printer {
    var text: string

    constructor ()
      ensures text == ""
    {
      text := "";
    }

    /** `printchar` */
    method PrintChar(c: char)
      modifies this
      ensures text == old(text) + [c]
    {
      text := text + [c];
    }

    /** The two padding loops. */
    method PrintFill(c: char, count: int) returns (pc: nat)
      modifies this
      ensures text == old(text) + Fill(c, count) && pc == |Fill(c, count)|
    {
      var width := count;
      pc := 0;
      while width > 0
        invariant pc == count - width && (width >= 0 || pc == 0)
        invariant text == old(text) + Fill(c, pc)
      {
        PrintChar(c);
        pc := pc + 1;
        width := width - 1;
      }
    }

    /** The loop that puts the characters of a string. */
    method PrintText(str: Memory) returns (pc: nat)
      modifies this
      ensures text == old(text) + Content(str) && pc == |Content(str)|
    {
      var ptr := 0;
      pc := 0;
      while str[ptr] != '\0'
        invariant pc == ptr <= |Content(str)|
        invariant text == old(text) + Content(str)[..ptr]
        decreases |str| - ptr
      {
        PrintChar(str[ptr]);
        pc := pc + 1;
        ptr := ptr + 1;
      }
    }

    /** `prints`: one pass for the length, then padding and characters. */
    method Prints(str: Memory, width: int, pad: Pad) returns (pc: nat)
      modifies this
      ensures text == old(text) + Padded(Content(str), width, pad)
      ensures pc == |text| - |old(text)|
    {
      hide Content;
      var gap, padchar, left, body, right := width, ' ', 0, 0, 0;
      ghost var s := Content(str);
      if width > 0 {
        var len := Length(str);
        gap := if len >= width then 0 else width - len;
        if pad.zero {
          padchar := '0';
        }
      }
      ghost var fill := Fill(if pad.zero then '0' else ' ', width - |s|);
      assert Fill(padchar, gap) == fill && Fill(padchar, 0) == "";
      if !pad.right {
        left := PrintFill(padchar, gap);
        gap := 0;
      }
      body := PrintText(str);
      right := PrintFill(padchar, gap);
      pc := left + body + right;
      assert pad.right ==> text == old(text) + s + fill && old(text) + s + fill == old(text) + (s + fill);
      assert !pad.right ==> text == old(text) + fill + s && old(text) + fill + s == old(text) + (fill + s);
    }

    /** `printi`, filling its scratch buffer from the end. */
    method Printi(i: int, b: Base, sg: bool, width: nat, pad: Pad, letbase: Letter) returns (pc: nat)
      requires -0x8000_0000 <= i < 0x8000_0000
      modifies this
      ensures text == old(text) + NumberPadded(i, b, sg && b == 10, width, pad, letbase)
      ensures pc == |text| - |old(text)|
    {
      hide Digits, Padded, Content, Wrap32;
      ghost var signed := sg && b == 10;
      var printBuf := new char[12];
      if i == 0 {
        printBuf[0], printBuf[1] := '0', '\0';
        ContentUnique(printBuf[..], "0");
        pc := Prints(printBuf[..], width, pad);
        return;
      }
      var neg, u := false, Wrap32(i);
      if sg && b == 10 && i < 0 {
        neg, u := true, Wrap32(-i);
      }
      ghost var digits := Digits(u, b, letbase);
      assert u == Magnitude(i, signed);
      MagnitudePositive(i, signed);
      hide Magnitude;
      FirstDigit(u, b, letbase);
      var s := WriteDigits(printBuf, u, b, letbase);
      pc := 0;
      var rest := width;
      ghost var shown := digits;
      if neg {
        if width != 0 && pad.zero {
          PrintChar('-');
          pc := pc + 1;
          rest := rest - 1;
        } else {
          s := s - 1;
          printBuf[s] := '-';
          shown := "-" + digits;
        }
      }
      assert printBuf[s..11] == shown;
      ContentUnique(printBuf[s..], shown);
      var n := Prints(printBuf[s..], rest, pad);
      pc := pc + n;
    }

    /** The chain of letters in `print`; a letter it does not know takes no argument. */
    method PrintConversion(c: char, d: Directive, word: u32, strings: u32 -> Memory) returns (pc: nat)
      modifies this
      ensures text == old(text) + Converted(c, d, word, strings)
      ensures c == '\0' ==> text == old(text)
      ensures pc == |text| - |old(text)|
    {
      hide Padded, NumberPadded, Content;
      pc := 0;
      if c == 's' {
        NullText();
        pc := Prints(if word != 0 then strings(word) else "(null)\0", d.width, d.pad);
      } else if c == 'd' {
        pc := Printi(Signed32(word), 10, true, d.width, d.pad, 'a');
      } else if c == 'x' {
        pc := Printi(Signed32(word), 16, false, d.width, d.pad, 'a');
      } else if c == 'X' {
        pc := Printi(Signed32(word), 16, false, d.width, d.pad, 'A');
      } else if c == 'u' {
        pc := Printi(Signed32(word), 10, false, d.width, d.pad, 'a');
      } else if c == 'c' {
        var scr := [(word % 0x100) as char, '\0'];
        OneChar((word % 0x100) as char);
        pc := Prints(scr, d.width, d.pad);
      }
    }

    /**
     `print` over the argument words `args`. `past` reports that the format pointer stepped over the
     terminator, where the loop would go on with whatever follows the format in memory.
    */
    method Print(format: Memory, args: nat -> u32, strings: u32 -> Memory) returns (pc: nat, past: bool)
      modifies this
      ensures past <==> Dangling(Content(format))
      ensures text == old(text) + Rendered(Content(format), args, 0, strings)
      ensures pc == |text| - |old(text)|
    {
      ghost var whole := Content(format);
      hide Content, Converted, ReadDirective, Rendered, Dangling, Head;
      var f: nat, n: nat := 0, 0;
      pc, past := 0, false;
      while format[f] != '\0'
        invariant f <= |whole|
        invariant Dangling(whole) == Dangling(whole[f..])
        invariant old(text) + Rendered(whole, args, 0, strings) == text + Rendered(whole[f..], args, n, strings)
        invariant pc == |text| - |old(text)|
        decreases |format| - f
      {
        RenderedAt(whole, f, args, n, strings);
        HeadAt(whole, f);
        if format[f] == '%' {
          f := f + 1;
          if format[f] == '\0' {
            assert f == |whole| && whole[f..] == "";
            RenderedEnd(args, n, strings);
            break;
          }
          if format[f] == '%' {
            PrintChar(format[f]);
            pc := pc + 1;
          } else {
            var d := ReadFlags(format, f);
            f := f + d.len;
            var shown := PrintConversion(format[f], d, args(n), strings);
            pc := pc + shown;
            n := n + if IsConversion(format[f]) then 1 else 0;
            if format[f] == '\0' {
              assert whole[f..] == "";
              RenderedEnd(args, n, strings);
              past := true;
              return;
            }
          }
        } else {
          PrintChar(format[f]);
          pc := pc + 1;
        }
        f := f + 1;
      }
      assert whole[f..] == "";
      RenderedEnd(args, n, strings);
    }
  }

  lemma RenderedEnd(args: nat -> u32, n: nat, strings: u32 -> Memory)
    ensures Rendered("", args, n, strings) == "" && !Dangling("")
  {
  }

  /** One step of the rendering at position `f` of the format. */
  lemma RenderedAt(whole: string, f: nat, args: nat -> u32, n: nat, strings: u32 -> Memory)
    requires f < |whole|
    ensures var t := Head(whole[f..]);
            && Rendered(whole[f..], args, n, strings) ==
               t.Shown(args(n), strings) + Rendered(whole[f + t.len..], args, n + t.Takes(), strings)
            && (Dangling(whole[f..]) <==> t.Cut? || Dangling(whole[f + t.len..]))
  {
    hide Head;
    var t := Head(whole[f..]);
    assert whole[f..][t.len..] == whole[f + t.len..];
  }

  lemma HeadAt(whole: string, f: nat)
    requires f < |whole|
    ensures Head(whole[f..]) ==
            if whole[f] != '%' then Plain(whole[f], 1)
            else if f + 1 == |whole| then Lone(1)
            else if whole[f + 1] == '%' then Plain('%', 2)
            else
              var d := ReadDirective(whole[f + 1..]);
              if f + 1 + d.len == |whole| then Cut(|whole| - f)
              else Conversion(d, whole[f + 1 + d.len], 2 + d.len)
  {
    hide ReadDirective;
    assert whole[f..][1..] == whole[f + 1..];
  }

  lemma NullText()
    ensures Content("(null)\0") == "(null)"
  {
    ContentUnique("(null)\0", "(null)");
  }

  lemma OneChar(c: char)
    ensures Content([c, '\0']) == Content([c])
  {
  }

  /** The flag, zero and digit loops of `print`. */
  method ReadFlags(format: Memory, start: nat) returns (d: Directive)
    requires start <= |Content(format)|
    ensures d == ReadDirective(Content(format)[start..])
  {
    hide Content;
    var f, right, zero := start, false, false;
    if format[f] == '-' {
      f, right := f + 1, true;
    }
    var zeros := CountZeros(format, f);
    zero := zeros > f;
    var digits, width := CountDigits(format, zeros);
    hide Zeros, DecimalRun, Value, ReadDirective;
    ghost var text, minus := Content(format), f - start;
    DropMore(text, start, minus);
    DropMore(text, start, minus + (zeros - f));
    DirectiveParts(text[start..], minus, text[f..], text[zeros..]);
    d := Directive(digits - start, width, Pad(right, zero));
  }

  /** `a` is what follows the sign and `b` what follows the zeros. */
  lemma DirectiveParts(s: string, minus: nat, a: string, b: string)
    requires minus == if s != "" && s[0] == '-' then 1 else 0
    requires s[minus..] == a && s[minus + Zeros(a)..] == b
    ensures ReadDirective(s) ==
            Directive(minus + Zeros(a) + DecimalRun(b), Value(b, 10, 0), Pad(minus == 1, Zeros(a) > 0))
  {
    hide Zeros, DecimalRun, Value;
  }

  lemma DropConcat<T>(s: seq<T>, t: seq<T>, k: nat)
    requires k <= |s|
    ensures (s + t)[k..] == s[k..] + t
  {
  }

  lemma DropMore<T>(s: seq<T>, a: nat, b: nat)
    requires a + b <= |s|
    ensures s[a..][b..] == s[a + b..]
  {
  }

  method CountZeros(format: Memory, start: nat) returns (f: nat)
    requires start <= |Content(format)|
    ensures start <= f <= |Content(format)| && f - start == Zeros(Content(format)[start..])
  {
    hide Content;
    f := start;
    while format[f] == '0'
      invariant start <= f <= |Content(format)|
      invariant Zeros(Content(format)[start..]) == f - start + Zeros(Content(format)[f..])
      decreases |format| - f
    {
      assert Content(format)[f..][1..] == Content(format)[f + 1..];
      f := f + 1;
    }
  }

  method CountDigits(format: Memory, start: nat) returns (f: nat, width: nat)
    requires start <= |Content(format)|
    ensures start <= f <= |Content(format)| && f - start == DecimalRun(Content(format)[start..])
    ensures width == Value(Content(format)[start..], 10, 0)
  {
    hide Content;
    f, width := start, 0;
    while '0' <= format[f] <= '9'
      invariant start <= f <= |Content(format)|
      invariant DecimalRun(Content(format)[start..]) == f - start + DecimalRun(Content(format)[f..])
      invariant Value(Content(format)[start..], 10, 0) == Value(Content(format)[f..], 10, width)
      decreases |format| - f
    {
      assert Content(format)[f..][1..] == Content(format)[f + 1..];
      width := width * 10 + (format[f] as int - '0' as int);
      f := f + 1;
    }
  }

  /** The length loop of `prints`. */
  method Length(str: Memory) returns (len: nat)
    ensures len == |Content(str)|
  {
    len := 0;
    while str[len] != '\0'
      invariant len <= |Content(str)|
      decreases |str| - len
    {
      len := len + 1;
    }
  }

  /** The digit loop of `printi`: a 32-bit word leaves room for a sign in front. */
  method WriteDigits(printBuf: array<char>, word: u32, b: Base, letbase: Letter) returns (s: nat)
    requires printBuf.Length == 12
    modifies printBuf
    ensures 1 <= s <= 11 && printBuf[11] == '\0'
    ensures printBuf[s..11] == Digits(word, b, letbase)
  {
    ghost var digits := Digits(word, b, letbase);
    WordDigits(word, b, letbase);
    var u: nat := word;
    s := 11;
    printBuf[s] := '\0';
    while u > 0
      invariant 0 <= s <= 11 && printBuf[11] == '\0'
      invariant digits == Digits(u, b, letbase) + printBuf[s..11]
    {
      DigitsShrink(u, b);
      assert |Digits(u, b, letbase)| > 0;
      var t: int := u % b;
      ghost var behind, c := printBuf[s..11], Digit(t, letbase);
      if t >= 10 {
        t := t + (letbase as int - '0' as int) - 10;
      }
      s := s - 1;
      printBuf[s] := (t + '0' as int) as char;
      assert printBuf[s..11] == [c] + behind;
      u := u / b;
    }
    assert printBuf[s..11] == digits;
  }

  // Laws of the rendering

  lemma {:induction false} ZerosAppend(s: string, t: string)
    requires Zeros(s) < |s|
    ensures Zeros(s + t) == Zeros(s)
  {
    if s[0] == '0' {
      assert (s + t)[1..] == s[1..] + t;
      ZerosAppend(s[1..], t);
    }
  }

  lemma {:induction false} DigitsAppend(s: string, t: string, acc: nat)
    requires DecimalRun(s) < |s|
    ensures DecimalRun(s + t) == DecimalRun(s) && Value(s + t, 10, acc) == Value(s, 10, acc)
    decreases |s|
  {
    if IsDecimal(s[0]) {
      assert (s + t)[1..] == s[1..] + t;
      DigitsAppend(s[1..], t, acc * 10 + DigitValue(s[0]));
    }
  }

  /** What follows a complete directive does not change how it is read. */
  lemma DirectiveAppend(s: string, t: string)
    requires ReadDirective(s).len < |s|
    ensures ReadDirective(s + t) == ReadDirective(s)
  {
    var minus := if s[0] == '-' then 1 else 0;
    var zeros := Zeros(s[minus..]);
    assert (s + t)[minus..] == s[minus..] + t;
    ZerosAppend(s[minus..], t);
    assert (s + t)[minus + zeros..] == s[minus + zeros..] + t;
    DigitsAppend(s[minus + zeros..], t, 0);
  }

  lemma HeadAppend(f: string, g: string)
    requires f != "" && Head(f).Whole()
    ensures Head(f + g) == Head(f)
  {
    hide ReadDirective;
    assert (f + g)[1..] == f[1..] + g;
    if Head(f).Conversion? {
      DirectiveAppend(f[1..], g);
    }
  }

  lemma Unfold(f: string, args: nat -> u32, n: nat, strings: u32 -> Memory)
    requires f != ""
    ensures var t := Head(f);
            && Rendered(f, args, n, strings) ==
               t.Shown(args(n), strings) + Rendered(f[t.len..], args, n + t.Takes(), strings)
            && (Dangling(f) <==> t.Cut? || Dangling(f[t.len..]))
  {
  }

  /** Formats compose: the second one starts at the argument where the first one stopped. */
  lemma {:induction false} RenderedAppend(f: string, g: string, args: nat -> u32, n: nat, strings: u32 -> Memory)
    requires Closed(f)
    ensures Rendered(f + g, args, n, strings) ==
            Rendered(f, args, n, strings) + Rendered(g, args, n + Taken(f), strings)
    ensures Dangling(f + g) == Dangling(g)
    decreases |f|
  {
    hide Head, Converted, Rendered, Dangling, Token.Shown, Token.Takes;
    if f == "" {
      assert f + g == g;
      RenderedEnd(args, n, strings);
    } else {
      var t := Head(f);
      HeadAppend(f, g);
      Unfold(f, args, n, strings);
      Unfold(f + g, args, n, strings);
      DropConcat(f, g, t.len);
      RenderedAppend(f[t.len..], g, args, n + t.Takes(), strings);
    }
  }

  /** Only a format that ends in a flag or a digit can dangle. */
  lemma {:induction false} DanglingEnds(f: string)
    requires Dangling(f)
    ensures f != "" && (f[|f| - 1] == '-' || IsDecimal(f[|f| - 1]))
    decreases |f|
  {
    hide ReadDirective, IsDecimal;
    if Head(f).Cut? {
      DirectiveEnds(f[1..]);
    } else {
      DanglingEnds(f[Head(f).len..]);
    }
  }

  /** A width without a letter. */
  lemma DanglingExample()
    ensures Dangling("%5") && !Dangling("%5d") && !Dangling("5%")
  {
    HeadsOf5();
    hide Head;
    assert "%5d"[3..] == "" && "5%"[1..] == "%" && "%"[1..] == "";
  }

  lemma HeadsOf5()
    ensures Head("%5").Cut? && !Head("%5d").Cut? && Head("%5d").len == 3
    ensures !Head("5%").Cut? && Head("5%").len == 1 && !Head("%").Cut? && Head("%").len == 1
  {
    DirectiveOf5();
    hide ReadDirective;
    assert "%5"[1..] == "5" && "%5d"[1..] == "5d";
  }

  lemma DirectiveOf5()
    ensures ReadDirective("5").len == 1 && ReadDirective("5d").len == 1
  {
    assert "5"[0..] == "5" && "5d"[0..] == "5d";
    assert DecimalRun("5"[1..]) == 0 && DecimalRun("5d"[1..]) == 0;
  }

  lemma {:induction false} ZerosAre(s: string, k: nat)
    requires k < Zeros(s)
    ensures s[k] == '0'
  {
    if k > 0 {
      ZerosAre(s[1..], k - 1);
    }
  }

  lemma {:induction false} DigitsAre(s: string, k: nat)
    requires k < DecimalRun(s)
    ensures IsDecimal(s[k])
  {
    if k > 0 {
      DigitsAre(s[1..], k - 1);
    }
  }

  lemma DirectiveEnds(s: string)
    requires s != "" && ReadDirective(s).len == |s|
    ensures s[|s| - 1] == '-' || IsDecimal(s[|s| - 1])
  {
    var minus := if s[0] == '-' then 1 else 0;
    var zeros := Zeros(s[minus..]);
    var digits := s[minus + zeros..];
    if digits != "" {
      DigitsAre(digits, |digits| - 1);
    } else if zeros > 0 {
      ZerosAre(s[minus..], zeros - 1);
    }
  }

  // One numeric directive

  function BaseOf(c: char): Base { if c == 'x' || c == 'X' then 16 else 10 }

  function LetterOf(c: char): Letter { if c == 'X' then 'A' else 'a' }

  lemma HeadOfDirective(flags: string, c: char)
    requires c != '%' && ReadDirective(flags + [c]).len == |flags|
    ensures Head("%" + flags + [c]) == Conversion(ReadDirective(flags + [c]), c, 2 + |flags|)
  {
    hide ReadDirective;
    var f := "%" + flags + [c];
    FlagsAreNoPercent(flags, c);
    assert f[1..] == flags + [c];
  }

  lemma OneDirective(flags: string, c: char, args: nat -> u32, n: nat, strings: u32 -> Memory)
    requires c in ['d', 'u', 'x', 'X'] && ReadDirective(flags + [c]).len == |flags|
    ensures var d := ReadDirective(flags + [c]);
            Rendered("%" + flags + [c], args, n, strings) ==
            NumberPadded(Signed32(args(n)), BaseOf(c), c == 'd', d.width, d.pad, LetterOf(c))
  {
    hide Head, ReadDirective, NumberPadded, Rendered, Dangling, Signed32;
    var f := "%" + flags + [c];
    HeadOfDirective(flags, c);
    assert f[2 + |flags|..] == "";
    Unfold(f, args, n, strings);
    RenderedEnd(args, n + 1, strings);
  }

  lemma FlagsAreNoPercent(flags: string, c: char)
    requires c != '%' && ReadDirective(flags + [c]).len == |flags|
    ensures (flags + [c])[0] != '%'
  {
  }

  lemma WordMeant(w: u32)
    ensures Meant(Signed32(w), false) == w
  {
    DivModUnique(Signed32(w), 0x1_0000_0000, if w < 0x8000_0000 then 0 else -1, w);
  }

  /** Whatever its flags and width, the directive prints a text of the right length that reads back as its argument. */
  lemma NumberDirective(flags: string, c: char, args: nat -> u32, n: nat, strings: u32 -> Memory)
    requires c in ['d', 'u', 'x', 'X'] && ReadDirective(flags + [c]).len == |flags|
    ensures var d := ReadDirective(flags + [c]);
            var i := Signed32(args(n));
            var shown := Rendered("%" + flags + [c], args, n, strings);
            var natural := NaturalLength(i, BaseOf(c), c == 'd', LetterOf(c));
            && |shown| == (if d.width > natural then d.width else natural)
            && (Parsed(shown, BaseOf(c)) == (if c == 'd' then i else args(n)) <==>
                !(d.pad.right && d.pad.zero && i != 0 && d.width > natural))
  {
    hide Rendered, ReadDirective, NumberPadded, NaturalLength, Parsed, BaseOf, LetterOf, Signed32;
    var d := ReadDirective(flags + [c]);
    OneDirective(flags, c, args, n, strings);
    NumberLength(Signed32(args(n)), BaseOf(c), c == 'd', d.width, d.pad, LetterOf(c));
    SignedRange(args(n));
    NumberReadsBackExactly(Signed32(args(n)), BaseOf(c), c == 'd', d.width, d.pad, LetterOf(c));
    WordMeant(args(n));
  }

  lemma SignedRange(w: u32)
    ensures -0x8000_0000 <= Signed32(w) < 0x8000_0000
  {
  }
}

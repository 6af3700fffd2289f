/**
 What each directive of `u_printf.c` puts out, said of the characters themselves: a format is
 taken apart at its front, and every directive shows its argument justified in its width.
*/
module PrintfLaws {
  import opened Bits
  import opened NumberText
  import opened Printf

  /** The characters between `%` and the letter: a minus, zeros, a width without zeros in front. */
  function Flags(minus: bool, zeros: nat, width: nat): string {
    (if minus then "-" else "") + Fill('0', zeros) + Digits(width, 10, 'a')
  }

  /** A character that can end the flags. */
  predicate EndsFlags(c: char) { !IsDecimal(c) && c != '-' }

  lemma {:induction false} ZerosInFront(zeros: nat, rest: string)
    requires rest != "" && rest[0] != '0'
    ensures Zeros(Fill('0', zeros) + rest) == zeros
  {
    if zeros == 0 {
      assert Fill('0', 0) + rest == rest;
    } else {
      ZerosInFront(zeros - 1, rest);
      assert (Fill('0', zeros) + rest)[1..] == Fill('0', zeros - 1) + rest;
    }
  }

  lemma {:induction false} RunOfDigits(d: string, c: char)
    requires (forall i | 0 <= i < |d| :: IsDecimal(d[i])) && !IsDecimal(c)
    ensures DecimalRun(d + [c]) == |d|
  {
    if d != "" {
      assert (d + [c])[1..] == d[1..] + [c];
      RunOfDigits(d[1..], c);
    }
  }

  /** The digits of a width and the letter behind them. */
  lemma WidthReads(width: nat, c: char)
    requires EndsFlags(c)
    ensures var s := Digits(width, 10, 'a') + [c];
            s[0] != '0' && s[0] != '-' && DecimalRun(s) == |s| - 1 && Value(s, 10, 0) == width
  {
    var d := Digits(width, 10, 'a');
    DigitChars(width, 10, 'a');
    ValueOfDigits(width, 10, 'a', [c]);
    if width > 0 {
      FirstDigit(width, 10, 'a');
    }
    hide Digits;
    RunOfDigits(d, c);
    assert Value([c], 10, width) == width;
  }

  /** Flags and width are read as they were written. */
  lemma FlagsRead(minus: bool, zeros: nat, width: nat, c: char)
    requires EndsFlags(c)
    ensures var f := Flags(minus, zeros, width);
            ReadDirective(f + [c]) == Directive(|f|, width, Pad(minus, zeros > 0))
  {
    var sign, zs, d := if minus then "-" else "", Fill('0', zeros), Digits(width, 10, 'a');
    WidthReads(width, c);
    ZerosInFront(zeros, d + [c]);
    FourParts(sign, zs, d, [c]);
    PartsRead(sign, zs, d + [c], width);
    hide *;
  }

  lemma FourParts(a: string, b: string, c: string, d: string)
    ensures a + b + c + d == a + (b + (c + d))
  {
    Regroup(a + b, c, d);
    Regroup(a, b, c + d);
  }

  /** The same for the three parts as they are. */
  lemma PartsRead(sign: string, zs: string, tail: string, width: nat)
    requires forall i | 0 <= i < |zs| :: zs[i] == '0'
    requires tail != "" && tail[0] != '-' && (sign == "" || sign == "-")
    requires Zeros(zs + tail) == |zs| && DecimalRun(tail) == |tail| - 1 && Value(tail, 10, 0) == width
    ensures ReadDirective(sign + (zs + tail)) ==
            Directive(|sign| + |zs| + |tail| - 1, width, Pad(sign == "-", |zs| > 0))
  {
    hide Zeros, DecimalRun, Value;
    ThreeParts(sign, zs, tail);
    hide ReadDirective;
    DirectiveParts(sign + (zs + tail), |sign|, zs + tail, tail);
  }

  lemma ThreeParts(sign: string, zs: string, tail: string)
    requires forall i | 0 <= i < |zs| :: zs[i] == '0'
    requires tail != "" && tail[0] != '-' && (sign == "" || sign == "-")
    ensures var s := sign + (zs + tail);
            && s[|sign|..] == zs + tail && s[|sign| + |zs|..] == tail
            && |sign| == if s[0] == '-' then 1 else 0
  {
  }

  // What is shown

  /** The output of one directive: `c` is its letter, `word` its argument. */
  ghost predicate Shows(c: char, pad: Pad, width: nat, word: u32, strings: u32 -> Memory, shown: string) {
    var fill := if pad.zero then '0' else ' ';
    match c
    case 's' => Justified(shown, if word == 0 then "(null)" else Content(strings(word)), width, pad.right, fill)
    case 'c' =>
      var byte := (word % 0x100) as char;
      Justified(shown, if byte == '\0' then "" else [byte], width, pad.right, fill)
    case 'd' => NumberShows(shown, Signed32(word), 10, 'a', width, pad)
    case 'u' => NumberShows(shown, word, 10, 'a', width, pad)
    case 'x' => NumberShows(shown, word, 16, 'a', width, pad)
    case 'X' => NumberShows(shown, word, 16, 'A', width, pad)
    case _ => shown == ""
  }

  lemma ConvertedShows(c: char, d: Directive, word: u32, strings: u32 -> Memory)
    ensures Shows(c, d.pad, d.width, word, strings, Converted(c, d, word, strings))
  {
    var i := Signed32(word);
    SignedRange(word);
    WordMeant(word);
    MeantSigned(i);
    hide Signed32, NumberPadded, Padded, Justified, NumberShows, Content;
    match c
    case 's' => PaddedIsJustified(if word != 0 then Content(strings(word)) else "(null)", d.width, d.pad);
    case 'c' =>
      ContentOfChar((word % 0x100) as char);
      PaddedIsJustified(Content([(word % 0x100) as char]), d.width, d.pad);
    case 'd' => NumberIsShown(i, 10, true, d.width, d.pad, 'a');
    case 'u' => NumberIsShown(i, 10, false, d.width, d.pad, 'a');
    case 'x' => NumberIsShown(i, 16, false, d.width, d.pad, 'a');
    case 'X' => NumberIsShown(i, 16, false, d.width, d.pad, 'A');
    case _ =>
  }

  lemma ContentOfChar(c: char)
    ensures Content([c]) == if c == '\0' then "" else [c]
  {
  }

  /**
   A directive in front of any rest `g` shows its argument and leaves the rest to go on with the next one; a
   letter that is none of the six shows nothing and takes no argument.
  */
  lemma DirectiveShows(minus: bool, zeros: nat, width: nat, c: char, g: string,
                       args: nat -> u32, n: nat, strings: u32 -> Memory)
      returns (shown: string)
    requires EndsFlags(c) && (c == '%' ==> Flags(minus, zeros, width) != "")
    ensures Rendered("%" + Flags(minus, zeros, width) + [c] + g, args, n, strings) ==
            shown + Rendered(g, args, if c in ['s', 'c', 'd', 'u', 'x', 'X'] then n + 1 else n, strings)
    ensures Shows(c, Pad(minus, zeros > 0), width, args(n), strings, shown)
  {
    var flags := Flags(minus, zeros, width);
    var d := Directive(|flags|, width, Pad(minus, zeros > 0));
    FlagsRead(minus, zeros, width, c);
    FlagsStart(minus, zeros, width, c);
    HeadOfFlags(flags, c, d);
    FrontShows("%" + flags + [c], g, d, c, args, n, strings);
    ConvertedShows(c, d, args(n), strings);
    hide *;
    shown := Converted(c, d, args(n), strings);
  }

  /** A format that is one directive, and the rest behind it. */
  lemma FrontShows(f: string, g: string, d: Directive, c: char, args: nat -> u32, n: nat, strings: u32 -> Memory)
    requires f != "" && Head(f) == Conversion(d, c, |f|)
    ensures Rendered(f + g, args, n, strings) ==
            Converted(c, d, args(n), strings)
            + Rendered(g, args, if c in ['s', 'c', 'd', 'u', 'x', 'X'] then n + 1 else n, strings)
  {
    hide Head, Converted, Rendered, Dangling;
    HeadAppend(f, g);
    Unfold(f + g, args, n, strings);
    assert (f + g)[|f|..] == g;
  }

  lemma FlagsStart(minus: bool, zeros: nat, width: nat, c: char)
    requires c == '%' ==> Flags(minus, zeros, width) != ""
    ensures (Flags(minus, zeros, width) + [c])[0] != '%'
  {
    DigitChars(width, 10, 'a');
    hide Digits;
  }

  lemma HeadOfFlags(flags: string, c: char, d: Directive)
    requires ReadDirective(flags + [c]) == d && d.len == |flags| && (flags + [c])[0] != '%'
    ensures Head("%" + flags + [c]) == Conversion(d, c, 2 + |flags|)
  {
    hide ReadDirective;
    assert ("%" + flags + [c])[1..] == flags + [c];
  }

  /** Any other character shows itself, and `%%` shows one `%`. */
  lemma CharacterShows(c: char, g: string, args: nat -> u32, n: nat, strings: u32 -> Memory)
    ensures c != '%' ==> Rendered([c] + g, args, n, strings) == [c] + Rendered(g, args, n, strings)
    ensures Rendered("%%" + g, args, n, strings) == "%" + Rendered(g, args, n, strings)
  {
    hide Rendered, Dangling, ReadDirective;
    assert ([c] + g)[1..] == g && ("%%" + g)[2..] == g;
    Unfold([c] + g, args, n, strings);
    Unfold("%%" + g, args, n, strings);
  }

  /** A format may end in a lone `%` or inside its flags; neither shows anything, but only the second dangles. */
  lemma EndOfFormat(minus: bool, zeros: nat, width: nat, args: nat -> u32, n: nat, strings: u32 -> Memory)
    ensures Rendered("", args, n, strings) == "" && Rendered("%", args, n, strings) == ""
    ensures !Dangling("") && !Dangling("%")
    ensures var f := Flags(minus, zeros, width);
            f != "" ==> Rendered("%" + f, args, n, strings) == "" && Dangling("%" + f)
  {
    RenderedEnd(args, n, strings);
    var f := Flags(minus, zeros, width);
    assert "%"[1..] == "";
    Unfold("%", args, n, strings);
    if f != "" {
      FlagsStart(minus, zeros, width, '%');
      FlagsCut(minus, zeros, width);
      assert ("%" + f)[1..] == f && (f + ['%'])[0] == f[0];
      hide ReadDirective, Flags, Rendered;
      assert Head("%" + f) == Cut(1 + |f|);
      Unfold("%" + f, args, n, strings);
      assert ("%" + f)[1 + |f|..] == "";
    }
  }

  lemma FlagsCut(minus: bool, zeros: nat, width: nat)
    ensures ReadDirective(Flags(minus, zeros, width)).len == |Flags(minus, zeros, width)|
  {
    var f := Flags(minus, zeros, width);
    FlagsRead(minus, zeros, width, '%');
    hide Flags;
    if ReadDirective(f).len < |f| {
      DirectiveAppend(f, "%");
    }
  }
}

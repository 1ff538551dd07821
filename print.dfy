/** The styled-text builder of src/print.rs. A `Printer` accumulates a string with ANSI
    Select Graphic Rendition escapes (ECMA-48 section 8.3.117, `ESC [ <code> m`) and remembers the
    last colour, background and format it emitted, so that the scoped helpers can restore them. */
module Print {
  import opened Wrappers
  import Text

  datatype Fmt = Default | Bold | Underline | UnderlineStop

  datatype Col =
    | Black | Red | Green | Yellow | Blue | Purple | DarkCyan | Grey
    | DarkGrey | BrightRed | Lime | BrightYellow | BrightBlue | Magenta | Cyan | White

  const Esc: char := 27 as char

  /** `ESC [ <code> m`, with the code in decimal. */
  function Sgr(code: nat): string
  {
    [Esc, '['] + Text.Decimal(code) + "m"
  }

  /** An escape starts with ESC and `[`, ends with `m`, and holds the code's digits between. */
  lemma SgrShape(code: nat)
    ensures |Sgr(code)| >= 4 && Sgr(code)[0] == Esc && Sgr(code)[1] == '['
    ensures Sgr(code)[|Sgr(code)| - 1] == 'm'
    ensures Sgr(code)[2..|Sgr(code)| - 1] == Text.Decimal(code)
  {
    Text.DecimalDigits(code);
    var r := Sgr(code);
    assert r[2..|r| - 1] == Text.Decimal(code);
  }

  /** The foreground code of a colour: 30-37 for the eight standard colours, 90-97 for the eight
      bright ones. */
  function ColCode(c: Col): (r: nat)
  {
    match c
    case Black => 30
    case Red => 31
    case Green => 32
    case Yellow => 33
    case Blue => 34
    case Purple => 35
    case DarkCyan => 36
    case Grey => 37
    case DarkGrey => 90
    case BrightRed => 91
    case Lime => 92
    case BrightYellow => 93
    case BrightBlue => 94
    case Magenta => 95
    case Cyan => 96
    case White => 97
  }

  /** The background code of a colour: its foreground code plus ten. */
  function BgCode(c: Col): (r: nat)
  {
    match c
    case Black => 40
    case Red => 41
    case Green => 42
    case Yellow => 43
    case Blue => 44
    case Purple => 45
    case DarkCyan => 46
    case Grey => 47
    case DarkGrey => 100
    case BrightRed => 101
    case Lime => 102
    case BrightYellow => 103
    case BrightBlue => 104
    case Magenta => 105
    case Cyan => 106
    case White => 107
  }

  /** Reset, bold, underline, and underline off. */
  function FmtCode(f: Fmt): (r: nat)
  {
    match f
    case Default => 0
    case Bold => 1
    case Underline => 4
    case UnderlineStop => 24
  }

  /** The colour codes stay in the two ECMA-48 ranges, backgrounds sit ten above foregrounds, and
      no two colours share a code. */
  lemma ColCodes(c: Col, d: Col)
    ensures 30 <= ColCode(c) <= 37 || 90 <= ColCode(c) <= 97
    ensures BgCode(c) == ColCode(c) + 10
    ensures ColCode(c) == ColCode(d) ==> c == d
  {
  }

  /** Format codes identify their format. */
  lemma FmtCodes(f: Fmt, g: Fmt)
    ensures FmtCode(f) in {0, 1, 4, 24}
    ensures FmtCode(f) == FmtCode(g) ==> f == g
  {
  }

  /** The code inside an escape reads back as the number that was written. */
  lemma SgrCode(code: nat)
    requires code < 0x1_0000
    ensures |Sgr(code)| >= 4 && Text.ParseU16(Sgr(code)[2..|Sgr(code)| - 1]) == Some(code)
  {
    SgrShape(code);
    Text.ParseDecimal(code);
  }

  /** Printing the same escape twice means the same code. */
  lemma SgrInjective(a: nat, b: nat)
    requires a < 0x1_0000 && b < 0x1_0000
    requires Sgr(a) == Sgr(b)
    ensures a == b
  {
    SgrCode(a);
    SgrCode(b);
  }

  /** What `revert_styles` writes: colour, background, then format. */
  function Styles(c: Col, b: Col, f: Fmt): string
  {
    Sgr(ColCode(c)) + Sgr(BgCode(b)) + Sgr(FmtCode(f))
  }

  /** What `ln` writes: a reset, a newline, and the styles again. */
  function LineBreak(c: Col, b: Col, f: Fmt): string
  {
    Sgr(0) + "\n" + Styles(c, b, f)
  }

  lemma Assoc(a: string, b: string, c: string)
    ensures a + (b + c) == a + b + c
  {
  }

  class Printer {
    var s: string
    var lastCol: Col
    var lastBg: Col
    var lastFmt: Fmt

    /** `start`: nothing written, white on black, default format. */
    constructor Start()
      ensures s == [] && lastCol == White && lastBg == Black && lastFmt == Default
    {
      s := [];
      lastCol := White;
      lastBg := Black;
      lastFmt := Default;
    }

    /** `Display`: exactly the text built so far. */
    function ToString(): (r: string)
      reads this
      ensures |r| == |s| && forall i :: 0 <= i < |r| ==> r[i] == s[i]
    {
      s
    }

    /** `text`: appends verbatim; the styles are untouched. */
    method Text(text: string)
      modifies this
      ensures s == old(s) + text
      ensures lastCol == old(lastCol) && lastBg == old(lastBg) && lastFmt == old(lastFmt)
    {
      s := s + text;
    }

    /** `fmt`: emits the format's escape and remembers it. */
    method Fmt(f: Fmt)
      modifies this
      ensures s == old(s) + Sgr(FmtCode(f))
      ensures lastFmt == f && lastCol == old(lastCol) && lastBg == old(lastBg)
    {
      s := s + Sgr(FmtCode(f));
      lastFmt := f;
    }

    /** `def`: `fmt(Default)`. */
    method Def()
      modifies this
      ensures s == old(s) + Sgr(0)
      ensures lastFmt == Default && lastCol == old(lastCol) && lastBg == old(lastBg)
    {
      Fmt(Default);
    }

    /** `col`: emits the foreground escape and remembers the colour. */
    method Col(c: Col)
      modifies this
      ensures s == old(s) + Sgr(ColCode(c))
      ensures lastCol == c && lastBg == old(lastBg) && lastFmt == old(lastFmt)
    {
      s := s + Sgr(ColCode(c));
      lastCol := c;
    }

    /** `bg`: emits the background escape and remembers the colour. */
    method Bg(c: Col)
      modifies this
      ensures s == old(s) + Sgr(BgCode(c))
      ensures lastBg == c && lastCol == old(lastCol) && lastFmt == old(lastFmt)
    {
      s := s + Sgr(BgCode(c));
      lastBg := c;
    }

    /** `revert_styles`: emits colour, background and format, in that order, and so makes them
        the current ones. */
    method RevertStyles(f: Fmt, c: Col, b: Col)
      modifies this
      ensures s == old(s) + Styles(c, b, f)
      ensures lastCol == c && lastBg == b && lastFmt == f
    {
      ghost var s0 := s;
      Col(c);
      Bg(b);
      Fmt(f);
      Assoc(Sgr(ColCode(c)), Sgr(BgCode(b)), Sgr(FmtCode(f)));
      Assoc(s0, Sgr(ColCode(c)) + Sgr(BgCode(b)), Sgr(FmtCode(f)));
      Assoc(s0, Sgr(ColCode(c)), Sgr(BgCode(b)));
    }

    /** `ln`: a reset and a newline, then the current styles once more, so the next line looks
        like this one. */
    method Ln()
      modifies this
      ensures s == old(s) + LineBreak(old(lastCol), old(lastBg), old(lastFmt))
      ensures lastCol == old(lastCol) && lastBg == old(lastBg) && lastFmt == old(lastFmt)
    {
      var f, c, b := lastFmt, lastCol, lastBg;
      ghost var s0 := s;
      s := s + Sgr(0);
      s := s + [10 as char];
      assert [10 as char] == "\n";
      RevertStyles(f, c, b);
      Assoc(s0 + Sgr(0), "\n", Styles(c, b, f));
      Assoc(s0, Sgr(0), "\n" + Styles(c, b, f));
      Assoc(Sgr(0), "\n", Styles(c, b, f));
    }

    /** `text_ln`: the text, a reset, a line break, and the styles of before restored. */
    method TextLn(text: string)
      modifies this
      ensures s == old(s) + text + Sgr(0) + LineBreak(old(lastCol), old(lastBg), Default)
        + Styles(old(lastCol), old(lastBg), old(lastFmt))
      ensures lastCol == old(lastCol) && lastBg == old(lastBg) && lastFmt == old(lastFmt)
    {
      var f, c, g := lastFmt, lastCol, lastBg;
      Text(text);
      Def();
      Ln();
      RevertStyles(f, c, g);
    }

    /** `fmt_for`: the text in the given format, then the styles of before restored. */
    method FmtFor(f: Fmt, text: string)
      modifies this
      ensures s == old(s) + Sgr(FmtCode(f)) + text + Styles(old(lastCol), old(lastBg), old(lastFmt))
      ensures lastCol == old(lastCol) && lastBg == old(lastBg) && lastFmt == old(lastFmt)
    {
      var f0, c0, b0 := lastFmt, lastCol, lastBg;
      Fmt(f);
      Text(text);
      RevertStyles(f0, c0, b0);
    }

    /** `col_for`: the text in the given colour, then the styles of before restored. */
    method ColFor(c: Col, text: string)
      modifies this
      ensures s == old(s) + Sgr(ColCode(c)) + text + Styles(old(lastCol), old(lastBg), old(lastFmt))
      ensures lastCol == old(lastCol) && lastBg == old(lastBg) && lastFmt == old(lastFmt)
    {
      var f0, c0, b0 := lastFmt, lastCol, lastBg;
      Col(c);
      Text(text);
      RevertStyles(f0, c0, b0);
    }

    /** `bg_for`: the text on the given background, then the styles of before restored. */
    method BgFor(b: Col, text: string)
      modifies this
      ensures s == old(s) + Sgr(BgCode(b)) + text + Styles(old(lastCol), old(lastBg), old(lastFmt))
      ensures lastCol == old(lastCol) && lastBg == old(lastBg) && lastFmt == old(lastFmt)
    {
      var f0, c0, b0 := lastFmt, lastCol, lastBg;
      Bg(b);
      Text(text);
      RevertStyles(f0, c0, b0);
    }

    /** `all_for`: the text in colour, background and format, then the styles of before
        restored. */
    method AllFor(f: Fmt, c: Col, b: Col, text: string)
      modifies this
      ensures s == old(s) + Styles(c, b, f) + text + Styles(old(lastCol), old(lastBg), old(lastFmt))
      ensures lastCol == old(lastCol) && lastBg == old(lastBg) && lastFmt == old(lastFmt)
    {
      var f0, c0, b0 := lastFmt, lastCol, lastBg;
      RevertStyles(f, c, b);
      Text(text);
      RevertStyles(f0, c0, b0);
    }

    /** `fmt_for_ln`: `fmt_for`, then `ln` in the styles of before. */
    method FmtForLn(f: Fmt, text: string)
      modifies this
      ensures s == old(s) + Sgr(FmtCode(f)) + text + Styles(old(lastCol), old(lastBg), old(lastFmt))
        + LineBreak(old(lastCol), old(lastBg), old(lastFmt))
      ensures lastCol == old(lastCol) && lastBg == old(lastBg) && lastFmt == old(lastFmt)
    {
      FmtFor(f, text);
      Ln();
    }

    /** `col_for_ln`: `col_for`, then `ln` in the styles of before. */
    method ColForLn(c: Col, text: string)
      modifies this
      ensures s == old(s) + Sgr(ColCode(c)) + text + Styles(old(lastCol), old(lastBg), old(lastFmt))
        + LineBreak(old(lastCol), old(lastBg), old(lastFmt))
      ensures lastCol == old(lastCol) && lastBg == old(lastBg) && lastFmt == old(lastFmt)
    {
      ColFor(c, text);
      Ln();
    }

    /** `bg_for_ln`: `bg_for`, then `ln` in the styles of before. */
    method BgForLn(b: Col, text: string)
      modifies this
      ensures s == old(s) + Sgr(BgCode(b)) + text + Styles(old(lastCol), old(lastBg), old(lastFmt))
        + LineBreak(old(lastCol), old(lastBg), old(lastFmt))
      ensures lastCol == old(lastCol) && lastBg == old(lastBg) && lastFmt == old(lastFmt)
    {
      BgFor(b, text);
      Ln();
    }

    /** `all_for_ln`: `all_for`, then `ln` in the styles of before. */
    method AllForLn(f: Fmt, c: Col, b: Col, text: string)
      modifies this
      ensures s == old(s) + Styles(c, b, f) + text + Styles(old(lastCol), old(lastBg), old(lastFmt))
        + LineBreak(old(lastCol), old(lastBg), old(lastFmt))
      ensures lastCol == old(lastCol) && lastBg == old(lastBg) && lastFmt == old(lastFmt)
    {
      AllFor(f, c, b, text);
      Ln();
    }
  }
}

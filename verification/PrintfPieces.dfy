/** Whole formats as they are written: literal text, "%%" and directives. */
module PrintfPieces {
  import opened PrintfText
  import opened PrintfStandard
  import opened PrintfFormat
  import opened PrintfDirective

  datatype Piece = Literal(text: string) | Percent | Conversion(d: Spec)

  function PieceText(p: Piece): string {
    match p
    case Literal(text) => text
    case Percent => "%%"
    case Conversion(d) => "%" + SpecText(d)
  }

  function FormatOf(pieces: seq<Piece>): string {
    if pieces == [] then "" else PieceText(pieces[0]) + FormatOf(pieces[1..])
  }

  /** A string argument is one, of a length that fits an unsigned int. */
  predicate StringGiven(d: Spec, args: Args, arg: nat) {
    d.conv == 's' ==> args(ValueArg(d, arg)).str.Chars? && |args(ValueArg(d, arg)).str.s| < UINT
  }

  /** What section 7.21.6.1 of ISO/IEC 9899:2011 has a directive write. */
  function StandardOf(d: Spec, args: Args, arg: nat): string
    requires WellFormed(d) && StringGiven(d, args, arg)
  {
    var r := Reading(d, args, arg, 0);
    if IsInteger(d.conv) then StandardText(d, args, arg)
    else if d.conv == 's' then StandardString(args(ValueArg(d, arg)).str.s, r)
    else Justified([Low(args(r.arg).word, 0x100) as char], r.width, r.f.left)
  }

  /** When the code writes that. */
  ghost predicate Agrees(d: Spec, args: Args, arg: nat)
    requires WellFormed(d) && StringGiven(d, args, arg)
  {
    if IsInteger(d.conv) then IntegerAgrees(d, args, arg)
    else if d.conv == 's' then StringAgrees(d, args, arg, args(ValueArg(d, arg)).str.s)
    else NumeralFits(d.width)
  }

  lemma CharConversion(c: Directive, args: Args)
    ensures ConversionText('c', c, args) == Justified([Low(args(c.arg).word, 0x100) as char], c.width, c.f.left)
  {
  }

  /** Exactly when a character comes out as the standard asks. */
  lemma CharDirective(format: string, pos: nat, d: Spec, args: Args, arg: nat)
    requires WellFormed(d) && d.conv == 'c' && Stands(format, pos, SpecText(d))
    ensures var r := Reading(d, args, arg, 0);
            ConversionText('c', Parse(format, pos, args, arg), args)
            == Justified([Low(args(r.arg).word, 0x100) as char], r.width, r.f.left)
            <==> NumeralFits(d.width)
  {
    hide Parse, Stands, WellFormed, CodeReading, Reading, NumeralFits, SpecText, ConversionText, Justified;
    ParseWritten(format, pos, d, args, arg);
    var c, r := CodeReading(d, args, arg, pos), Reading(d, args, arg, 0);
    CharConversion(c, args);
    WidthsCompare(d, args, arg, pos);
    SameArg(d, args, arg, pos);
    JustifiedLength([Low(args(r.arg).word, 0x100) as char], r.width, r.f.left);
    JustifiedLength([Low(args(r.arg).word, 0x100) as char], c.width, r.f.left);
  }

  lemma SameArg(d: Spec, args: Args, arg: nat, pos: nat)
    ensures CodeReading(d, args, arg, pos).arg == Reading(d, args, arg, 0).arg == ValueArg(d, arg)
  {
    hide SpecText, FlagsOf, SizeOf, WidthValue, PrecisionValue;
  }

  /** Exactly when a directive, wherever it stands, comes out as the standard asks. */
  lemma DirectiveAgrees(format: string, pos: nat, d: Spec, args: Args, arg: nat)
    requires WellFormed(d) && StringGiven(d, args, arg) && Stands(format, pos, SpecText(d))
    ensures ConversionText(d.conv, Parse(format, pos, args, arg), args) == StandardOf(d, args, arg) <==> Agrees(d, args, arg)
  {
    hide Parse, Stands, Reading, ConversionText, IntegerAgrees, StringAgrees, NumeralFits, Justified, StandardText,
      StandardString, SpecText;
    if IsInteger(d.conv) {
      IntegerDirective(format, pos, d, args, arg);
    } else if d.conv == 's' {
      StringDirective(format, pos, d, args, arg, args(ValueArg(d, arg)).str.s);
    } else {
      CharDirective(format, pos, d, args, arg);
    }
  }

  // ----- whole formats

  function NextArg(p: Piece, arg: nat): nat { if p.Conversion? then ValueArg(p.d, arg) + 1 else arg }

  predicate PieceOk(p: Piece, args: Args, arg: nat) {
    match p
    case Literal(text) => '%' !in text
    case Percent => true
    case Conversion(d) => WellFormed(d) && StringGiven(d, args, arg)
  }

  predicate PiecesOk(pieces: seq<Piece>, args: Args, arg: nat) {
    pieces == [] || (PieceOk(pieces[0], args, arg) && PiecesOk(pieces[1..], args, NextArg(pieces[0], arg)))
  }

  function StandardPiece(p: Piece, args: Args, arg: nat): string
    requires PieceOk(p, args, arg)
  {
    match p
    case Literal(text) => text
    case Percent => "%"
    case Conversion(d) => StandardOf(d, args, arg)
  }

  /** What the standard has a format write, each directive with its own arguments. */
  function StandardFormat(pieces: seq<Piece>, args: Args, arg: nat): string
    requires PiecesOk(pieces, args, arg)
  {
    if pieces == [] then ""
    else StandardPiece(pieces[0], args, arg) + StandardFormat(pieces[1..], args, NextArg(pieces[0], arg))
  }

  ghost predicate AllAgree(pieces: seq<Piece>, args: Args, arg: nat)
    requires PiecesOk(pieces, args, arg)
  {
    pieces == [] || ((pieces[0].Conversion? ==> Agrees(pieces[0].d, args, arg))
                     && AllAgree(pieces[1..], args, NextArg(pieces[0], arg)))
  }

  lemma {:induction false} LiteralRenders(format: string, pos: nat, text: string, args: Args, arg: nat)
    requires Stands(format, pos, text) && '%' !in text
    ensures var rest := Render(format, pos + |text|, args, arg);
            Render(format, pos, args, arg) == Outcome(text + rest.text, rest.end)
    decreases |text|
  {
    hide Render;
    var rest := Render(format, pos + |text|, args, arg);
    if text == "" {
      assert text + rest.text == rest.text;
    } else {
      assert format[pos] == format[pos..pos + |text|][0] == text[0];
      RenderHere(format, pos, args, arg);
      StandsHead(format, pos, text);
      LiteralRenders(format, pos + 1, text[1..], args, arg);
      assert text + rest.text == [text[0]] + (text[1..] + rest.text);
    }
  }

  lemma PercentParsed(format: string, pos: nat, args: Args, arg: nat)
    requires At(format, pos) == '%'
    ensures Parse(format, pos, args, arg) == Directive(NO_FLAGS, 0, 0, pos, arg)
  {
    hide At, Signed, ParseNumber;
  }

  lemma PercentRenders(format: string, pos: nat, args: Args, arg: nat)
    requires Stands(format, pos, "%%")
    ensures var rest := Render(format, pos + 2, args, arg);
            Render(format, pos, args, arg) == Outcome("%" + rest.text, rest.end)
  {
    hide Render, Parse, Stands, ConversionText, At;
    StandsAt(format, pos, "%%", 0);
    StandsAt(format, pos, "%%", 1);
    PercentParsed(format, pos + 1, args, arg);
    PercentConversion(Parse(format, pos + 1, args, arg), args);
    PercentStands(format, pos);
    RenderHere(format, pos, args, arg);
  }

  lemma PercentConversion(d: Directive, args: Args)
    ensures !IsElsewhere('%') && ArgsTaken('%') == 0 && ConversionText('%', d, args) == "%"
  {
  }

  lemma ConversionRenders(format: string, pos: nat, d: Spec, args: Args, arg: nat)
    requires WellFormed(d) && StringGiven(d, args, arg) && Agrees(d, args, arg) && Stands(format, pos, "%" + SpecText(d))
    ensures var rest := Render(format, pos + 1 + |SpecText(d)|, args, ValueArg(d, arg) + 1);
            Render(format, pos, args, arg) == Outcome(StandardOf(d, args, arg) + rest.text, rest.end)
  {
    hide Render, Parse, SpecText, Agrees, StandardOf, ConversionText, ValueArg, StringGiven, Stands, At, WellFormed;
    StandsAt(format, pos, "%" + SpecText(d), 0);
    StandsParts(format, pos, "%", SpecText(d));
    ParseWritten(format, pos + 1, d, args, arg);
    DirectiveAgrees(format, pos + 1, d, args, arg);
    BehindDirective(d, args, arg, pos + 1);
    PercentStands(format, pos);
    RenderHere(format, pos, args, arg);
  }

  lemma PercentStands(format: string, pos: nat)
    requires At(format, pos) == '%'
    ensures pos < |format| && format[pos] == '%'
  {
  }

  /** Where the code is behind a written directive. */
  lemma BehindDirective(d: Spec, args: Args, arg: nat, pos: nat)
    requires WellFormed(d)
    ensures var c := CodeReading(d, args, arg, pos); c.pos + 1 == pos + |SpecText(d)| && c.arg == ValueArg(d, arg)
    ensures !IsElsewhere(d.conv) && ArgsTaken(d.conv) == 1
  {
    hide FlagsOf, SizeOf, WidthValue, PrecisionValue, ValueArg;
  }

  lemma PieceRenders(format: string, pos: nat, p: Piece, args: Args, arg: nat)
    requires PieceOk(p, args, arg) && (p.Conversion? ==> Agrees(p.d, args, arg)) && Stands(format, pos, PieceText(p))
    ensures var rest := Render(format, pos + |PieceText(p)|, args, NextArg(p, arg));
            Render(format, pos, args, arg) == Outcome(StandardPiece(p, args, arg) + rest.text, rest.end)
  {
    hide Render, StandardOf, Agrees, SpecText, StringGiven, WellFormed, ValueArg, Stands;
    match p
    case Literal(text) => LiteralRenders(format, pos, text, args, arg);
    case Percent => PercentRenders(format, pos, args, arg);
    case Conversion(d) => ConversionRenders(format, pos, d, args, arg);
  }

  lemma SplitAt(format: string, pos: nat, s: string, rest: string)
    requires pos <= |format| && format[pos..] == s + rest
    ensures Stands(format, pos, s) && pos + |s| <= |format| && format[pos + |s|..] == rest
  {
    assert format[pos..pos + |s|] == format[pos..][..|s|];
    assert format[pos + |s|..] == format[pos..][|s|..];
  }

  /** A format comes out as the standard asks when each of its directives does. */
  lemma {:induction false} FormatRenders(format: string, pos: nat, pieces: seq<Piece>, args: Args, arg: nat)
    requires PiecesOk(pieces, args, arg) && AllAgree(pieces, args, arg)
    requires pos <= |format| && format[pos..] == FormatOf(pieces)
    ensures Render(format, pos, args, arg) == Outcome(StandardFormat(pieces, args, arg), Finished)
    decreases |pieces|
  {
    hide Render, PieceOk, StandardPiece, Agrees, PieceText, NextArg, Stands;
    if pieces == [] {
      RenderHere(format, pos, args, arg);
    } else {
      var p := PieceText(pieces[0]);
      SplitAt(format, pos, p, FormatOf(pieces[1..]));
      PieceRenders(format, pos, pieces[0], args, arg);
      FormatRenders(format, pos + |p|, pieces[1..], args, NextArg(pieces[0], arg));
    }
  }

  /** The whole format, from its beginning. */
  lemma FormatIsStandard(pieces: seq<Piece>, args: Args)
    requires PiecesOk(pieces, args, 0) && AllAgree(pieces, args, 0)
    ensures Render(FormatOf(pieces), 0, args, 0) == Outcome(StandardFormat(pieces, args, 0), Finished)
  {
    FormatRenders(FormatOf(pieces), 0, pieces, args, 0);
  }
}

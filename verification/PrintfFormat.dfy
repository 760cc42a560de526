/** The directives of a format string, and the text that a whole format gives: what printf writes
    when nothing cuts it short. */
module PrintfFormat {
  import opened PrintfText
  import opened PrintfStandard

  const UINT: nat := 0x1_0000_0000

  /** What a char pointer leads to. */
  datatype Chars = Null | Chars(s: string)

  /** One argument: a 64-bit word, or the string that it points to. */
  datatype Arg = Arg(word: nat, str: Chars)

  /** The arguments in order. */
  type Args = nat -> Arg

  /** What an unsigned type of `range` values keeps of a word, and the same as a signed number. */
  function Low(word: nat, range: nat): nat
    requires range > 0
  {
    word % range
  }

  function Signed(word: nat, range: nat): (v: int)
    requires range > 0
    ensures 0 - range <= 2 * v < range
  {
    if 2 * Low(word, range) < range then Low(word, range) else Low(word, range) - range
  }

  function Range(size: Size): nat {
    match size
    case Char => 0x100
    case Short => 0x1_0000
    case Plain => UINT
    case Long => ULLONG
    case LongLong => ULLONG
  }

  /** The character at a position; the string ends with NUL. */
  function At(format: string, pos: nat): char {
    if pos < |format| then format[pos] else '\0'
  }

  predicate IsDigit(c: char) { '0' <= c <= '9' }

  // ----- the parts of a directive

  function ParseFlags(format: string, pos: nat, f: Flags): (r: (Flags, nat))
    ensures r.1 >= pos && r.0.precision == f.precision && r.0.uppercase == f.uppercase && r.0.size == f.size
    decreases |format| - pos
  {
    if At(format, pos) == '0' then ParseFlags(format, pos + 1, f.(zeropad := true))
    else if At(format, pos) == '-' then ParseFlags(format, pos + 1, f.(left := true))
    else if At(format, pos) == '+' then ParseFlags(format, pos + 1, f.(plus := true))
    else if At(format, pos) == ' ' then ParseFlags(format, pos + 1, f.(space := true))
    else if At(format, pos) == '#' then ParseFlags(format, pos + 1, f.(hash := true))
    else (f, pos)
  }

  /** _atoi, in an unsigned int. */
  function ParseNumber(format: string, pos: nat, acc: nat): (r: (nat, nat))
    ensures r.1 >= pos && (acc < UINT ==> r.0 < UINT)
    decreases |format| - pos
  {
    if IsDigit(At(format, pos)) then ParseNumber(format, pos + 1, (acc * 10 + (At(format, pos) - '0') as nat) % UINT)
    else (acc, pos)
  }

  /** Where parsing stands: the flags so far, the width or precision read, the next character and
      the next argument. */
  datatype Parsed = Parsed(f: Flags, value: nat, pos: nat, arg: nat)

  function ParseWidth(format: string, pos: nat, args: Args, arg: nat, f: Flags): (r: Parsed)
    ensures r.pos >= pos
  {
    if IsDigit(At(format, pos)) then
      var n := ParseNumber(format, pos, 0);
      Parsed(f, n.0, n.1, arg)
    else if At(format, pos) == '*' then
      var w := Signed(args(arg).word, UINT);
      if w < 0 then Parsed(f.(left := true), -w, pos + 1, arg + 1) else Parsed(f, w, pos + 1, arg + 1)
    else Parsed(f, 0, pos, arg)
  }

  function ParsePrecision(format: string, pos: nat, args: Args, arg: nat, f: Flags): (r: Parsed)
    ensures r.pos >= pos
  {
    if At(format, pos) != '.' then Parsed(f, 0, pos, arg)
    else
      var g := f.(precision := true);
      if IsDigit(At(format, pos + 1)) then
        var n := ParseNumber(format, pos + 1, 0);
        Parsed(g, n.0, n.1, arg)
      else if At(format, pos + 1) == '*' then
        var p := Signed(args(arg).word, UINT);
        Parsed(g, if p > 0 then p else 0, pos + 2, arg + 1)
      else Parsed(g, 0, pos + 1, arg)
  }

  function ParseSize(format: string, pos: nat): (r: (Size, nat))
    ensures r.1 >= pos
  {
    match At(format, pos)
    case 'l' => if At(format, pos + 1) == 'l' then (LongLong, pos + 2) else (Long, pos + 1)
    case 'h' => if At(format, pos + 1) == 'h' then (Char, pos + 2) else (Short, pos + 1)
    case 't' => (Long, pos + 1)
    case 'j' => (Long, pos + 1)
    case 'z' => (Long, pos + 1)
    case _ => (Plain, pos)
  }

  /** A directive up to its conversion character, which stands at `pos`. */
  datatype Directive = Directive(f: Flags, width: nat, precision: nat, pos: nat, arg: nat)

  const NO_FLAGS := Flags(false, false, false, false, false, false, false, Plain)

  /** The directive whose '%' stands before `pos`. */
  function Parse(format: string, pos: nat, args: Args, arg: nat): (d: Directive)
    ensures d.pos >= pos && d.precision < UINT && (!d.f.precision ==> d.precision == 0)
  {
    var flags := ParseFlags(format, pos, NO_FLAGS);
    var w := ParseWidth(format, flags.1, args, arg, flags.0);
    var p := ParsePrecision(format, w.pos, args, w.arg, w.f);
    var size := ParseSize(format, p.pos);
    Directive(p.f.(size := size.0), w.value, p.value, size.1, p.arg)
  }

  // ----- conversions

  function Base(conv: char): nat {
    if conv == 'x' || conv == 'X' then 16 else if conv == 'o' then 8 else if conv == 'b' then 2 else 10
  }

  predicate IsInteger(conv: char) {
    conv == 'd' || conv == 'i' || conv == 'u' || conv == 'x' || conv == 'X' || conv == 'o' || conv == 'b'
  }

  predicate IsSigned(conv: char) { conv == 'd' || conv == 'i' }

  predicate IsElsewhere(conv: char) {
    conv == 'f' || conv == 'F' || conv == 'e' || conv == 'E' || conv == 'g' || conv == 'G' || conv == 'p'
  }

  /** The flags that an integer conversion goes by. */
  function IntegerFlags(f: Flags, conv: char): Flags {
    f.(hash := f.hash && Base(conv) != 10, uppercase := f.uppercase || conv == 'X', plus := f.plus && IsSigned(conv),
       space := f.space && IsSigned(conv), zeropad := f.zeropad && !f.precision)
  }

  function IntegerValue(word: nat, size: Size, conv: char): int {
    if IsSigned(conv) then Signed(word, Range(size)) else Low(word, Range(size))
  }

  function Magnitude(v: int): nat { if v < 0 then -v else v }

  function Justified(s: string, width: nat, left: bool): string {
    if left then s + Repeat(' ', width - |s|) else Repeat(' ', width - |s|) + s
  }

  /** What %s shows of a string. */
  function Shown(s: string, f: Flags, precision: nat): string {
    if f.precision && precision < |s| then s[..precision] else s
  }

  /** The padded length is an unsigned int. */
  function StringText(s: string, d: Directive): string {
    var shown := Shown(s, d.f, d.precision);
    var pad := Repeat(' ', d.width - ShownLength(s, d) % UINT);
    if d.f.left then shown + pad else pad + shown
  }

  function ShownLength(s: string, d: Directive): nat { |Shown(s, d.f, d.precision)| }

  function ConversionText(conv: char, d: Directive, args: Args): string {
    if IsInteger(conv) then
      var v := IntegerValue(args(d.arg).word, d.f.size, conv);
      NtoaText(Magnitude(v), v < 0, Base(conv), d.precision, d.width, IntegerFlags(d.f, conv))
    else if conv == 'c' then Justified([Low(args(d.arg).word, 0x100) as char], d.width, d.f.left)
    else if conv == 's' then
      match args(d.arg).str
      case Null => OutRevText(")llun(", d.width, d.f)
      case Chars(s) => StringText(s, d)
    else [conv]
  }

  function ArgsTaken(conv: char): nat { if IsInteger(conv) || conv == 'c' || conv == 's' then 1 else 0 }

  // ----- whole formats

  /** How a format ends: at its NUL, behind it, or at a directive of the floating-point or pointer
      code. */
  datatype End = Finished | Overrun | Elsewhere

  datatype Outcome = Outcome(text: string, end: End)

  function Render(format: string, pos: nat, args: Args, arg: nat): Outcome
    decreases |format| - pos
  {
    if pos >= |format| then Outcome("", if pos == |format| then Finished else Overrun)
    else if format[pos] != '%' then
      var rest := Render(format, pos + 1, args, arg);
      Outcome([format[pos]] + rest.text, rest.end)
    else
      var d := Parse(format, pos + 1, args, arg);
      var conv := At(format, d.pos);
      if IsElsewhere(conv) then Outcome("", Elsewhere)
      else
        var rest := Render(format, d.pos + 1, args, d.arg + ArgsTaken(conv));
        Outcome(ConversionText(conv, d, args) + rest.text, rest.end)
  }

  // ----- properties

  /** The text from a position on: one character or one directive, and the rest. */
  lemma RenderHere(format: string, pos: nat, args: Args, arg: nat)
    ensures pos >= |format| ==> Render(format, pos, args, arg) == Outcome("", if pos == |format| then Finished else Overrun)
    ensures pos < |format| && format[pos] != '%' ==>
              var rest := Render(format, pos + 1, args, arg);
              Render(format, pos, args, arg) == Outcome([format[pos]] + rest.text, rest.end)
    ensures pos < |format| && format[pos] == '%' ==>
              var d := Parse(format, pos + 1, args, arg);
              var conv := At(format, d.pos);
              var rest := Render(format, d.pos + 1, args, d.arg + ArgsTaken(conv));
              Render(format, pos, args, arg) ==
                if IsElsewhere(conv) then Outcome("", Elsewhere) else Outcome(ConversionText(conv, d, args) + rest.text, rest.end)
  {
    hide Parse, At, IsElsewhere, ConversionText, ArgsTaken;
  }

  /** Where a directive's conversion character stands depends on the format alone. */
  function FieldEnd(format: string, pos: nat): (r: nat)
    ensures r >= pos
  {
    if IsDigit(At(format, pos)) then ParseNumber(format, pos, 0).1 else if At(format, pos) == '*' then pos + 1 else pos
  }

  function DirectiveEnd(format: string, pos: nat): (r: nat)
    ensures r >= pos
  {
    var w := FieldEnd(format, ParseFlags(format, pos, NO_FLAGS).1);
    ParseSize(format, if At(format, w) == '.' then FieldEnd(format, w + 1) else w).1
  }

  /** How a format ends, whatever the arguments. */
  function EndOf(format: string, pos: nat): End
    decreases |format| - pos
  {
    if pos >= |format| then if pos == |format| then Finished else Overrun
    else if format[pos] != '%' then EndOf(format, pos + 1)
    else
      var at := DirectiveEnd(format, pos + 1);
      if IsElsewhere(At(format, at)) then Elsewhere else EndOf(format, at + 1)
  }

  lemma WidthEnds(format: string, pos: nat, args: Args, arg: nat, f: Flags)
    ensures ParseWidth(format, pos, args, arg, f).pos == FieldEnd(format, pos)
  {
    hide ParseNumber, IsDigit, At, Signed;
  }

  lemma PrecisionEnds(format: string, pos: nat, args: Args, arg: nat, f: Flags)
    ensures ParsePrecision(format, pos, args, arg, f).pos == if At(format, pos) == '.' then FieldEnd(format, pos + 1) else pos
  {
    hide ParseNumber, IsDigit, At, Signed;
  }

  lemma ParseEnds(format: string, pos: nat, args: Args, arg: nat)
    ensures Parse(format, pos, args, arg).pos == DirectiveEnd(format, pos)
  {
    hide ParseFlags, ParseWidth, ParsePrecision, ParseSize, FieldEnd, At;
    var flags := ParseFlags(format, pos, NO_FLAGS);
    WidthEnds(format, flags.1, args, arg, flags.0);
    var w := ParseWidth(format, flags.1, args, arg, flags.0);
    PrecisionEnds(format, w.pos, args, w.arg, w.f);
  }

  lemma {:induction false} RenderEnds(format: string, pos: nat, args: Args, arg: nat)
    ensures Render(format, pos, args, arg).end == EndOf(format, pos)
    decreases |format| - pos
  {
    hide ConversionText, Parse, DirectiveEnd, At, IsElsewhere, ArgsTaken;
    if pos < |format| {
      if format[pos] != '%' {
        RenderEnds(format, pos + 1, args, arg);
      } else {
        ParseEnds(format, pos + 1, args, arg);
        var d := Parse(format, pos + 1, args, arg);
        if !IsElsewhere(At(format, d.pos)) {
          RenderEnds(format, d.pos + 1, args, d.arg + ArgsTaken(At(format, d.pos)));
        }
      }
    }
  }
}

/** Directives as section 7.21.6.1 of ISO/IEC 9899:2011 writes and reads them, and when the parser
    of the code reads and shows the same. */
module PrintfDirective {
  import opened PrintfText
  import opened PrintfStandard
  import opened PrintfFormat

  // ----- directives as they are written

  /** A width or a precision: left out, a numeral, or '*'. */
  datatype Field = Omitted | Numeral(digits: string) | Star

  /** The parts of a directive behind its '%', in their order. */
  datatype Spec = Spec(flags: string, width: Field, point: bool, precision: Field, length: string, conv: char)

  predicate AllDigits(s: string) { forall i | 0 <= i < |s| :: IsDigit(s[i]) }

  predicate AllFlags(s: string) { forall i | 0 <= i < |s| :: IsFlag(s[i]) }

  const LENGTHS: set<string> := {"", "hh", "h", "l", "ll", "t", "j", "z"}

  predicate IsConversion(conv: char) {
    conv == 'd' || conv == 'i' || conv == 'u' || conv == 'o' || conv == 'x' || conv == 'X' || conv == 'c' || conv == 's'
  }

  /** A numeral of the width does not begin with 0, which would be a flag. */
  predicate WellFormed(d: Spec) {
    && AllFlags(d.flags)
    && (d.width.Numeral? ==> d.width.digits != "" && AllDigits(d.width.digits) && d.width.digits[0] != '0')
    && (d.precision.Numeral? ==> d.precision.digits != "" && AllDigits(d.precision.digits))
    && (!d.point ==> d.precision.Omitted?)
    && d.length in LENGTHS
    && IsConversion(d.conv)
  }

  function FieldText(f: Field): string {
    match f
    case Omitted => ""
    case Numeral(digits) => digits
    case Star => "*"
  }

  function PrecisionText(d: Spec): string { if d.point then "." + FieldText(d.precision) else "" }

  function SpecText(d: Spec): string {
    d.flags + FieldText(d.width) + PrecisionText(d) + d.length + [d.conv]
  }

  // ----- what the standard reads

  function FlagsOf(s: string): Flags {
    NO_FLAGS.(zeropad := '0' in s, left := '-' in s, plus := '+' in s, space := ' ' in s, hash := '#' in s)
  }

  function SizeOf(length: string): Size {
    if length == "hh" then Char else if length == "h" then Short else if length == "" then Plain
    else if length == "ll" then LongLong else Long
  }

  function StarsIn(f: Field): nat { if f.Star? then 1 else 0 }

  /** A numeral has its value, however long, and '*' the value of an int argument. */
  function FieldValue(f: Field, args: Args, arg: nat): int {
    match f
    case Omitted => 0
    case Numeral(digits) => ReadNumeral(digits, 10)
    case Star => Signed(args(arg).word, UINT)
  }

  /** The number of the value's argument. */
  function ValueArg(d: Spec, arg: nat): nat { arg + StarsIn(d.width) + StarsIn(d.precision) }

  function WidthValue(d: Spec, args: Args, arg: nat): int { FieldValue(d.width, args, arg) }

  function PrecisionValue(d: Spec, args: Args, arg: nat): int { FieldValue(d.precision, args, arg + StarsIn(d.width)) }

  /** A negative width is a '-' flag and a width; a negative precision is as if there were none. */
  function Reading(d: Spec, args: Args, arg: nat, pos: nat): (r: Directive)
    ensures !r.f.precision ==> r.precision == 0
  {
    var w, p := WidthValue(d, args, arg), PrecisionValue(d, args, arg);
    var f := FlagsOf(d.flags);
    Directive(f.(left := f.left || w < 0, precision := d.point && p >= 0, size := SizeOf(d.length)),
              Magnitude(w), if d.point && p >= 0 then p else 0, pos + |SpecText(d)| - 1, ValueArg(d, arg))
  }

  // ----- the parser of the code, part by part

  /** The string s stands at that position. */
  predicate Stands(format: string, pos: nat, s: string) {
    pos + |s| <= |format| && format[pos..pos + |s|] == s
  }

  lemma StandsParts(format: string, pos: nat, s: string, t: string)
    requires Stands(format, pos, s + t)
    ensures Stands(format, pos, s) && Stands(format, pos + |s|, t)
  {
    assert format[pos..pos + |s|] == format[pos..pos + |s + t|][..|s|];
    assert format[pos + |s|..pos + |s| + |t|] == format[pos..pos + |s + t|][|s|..];
  }

  lemma StandsAt(format: string, pos: nat, s: string, i: nat)
    requires Stands(format, pos, s) && i < |s|
    ensures At(format, pos + i) == s[i]
  {
    assert format[pos..pos + |s|][i] == format[pos + i];
  }

  lemma StandsHead(format: string, pos: nat, s: string)
    requires Stands(format, pos, s) && s != ""
    ensures At(format, pos) == s[0] && Stands(format, pos + 1, s[1..])
  {
    StandsAt(format, pos, s, 0);
    assert s == [s[0]] + s[1..];
    StandsParts(format, pos, [s[0]], s[1..]);
  }

  function AddFlags(f: Flags, s: string): Flags {
    f.(zeropad := f.zeropad || '0' in s, left := f.left || '-' in s, plus := f.plus || '+' in s,
       space := f.space || ' ' in s, hash := f.hash || '#' in s)
  }

  predicate IsFlag(c: char) { c == '0' || c == '-' || c == '+' || c == ' ' || c == '#' }

  lemma FlagStep(format: string, pos: nat, f: Flags)
    ensures ParseFlags(format, pos, f) ==
              if IsFlag(At(format, pos)) then ParseFlags(format, pos + 1, AddFlags(f, [At(format, pos)])) else (f, pos)
  {
  }

  lemma AddFlagsJoin(f: Flags, c: char, s: string)
    ensures AddFlags(AddFlags(f, [c]), s) == AddFlags(f, [c] + s)
  {
  }

  lemma {:induction false} FlagsRead(format: string, pos: nat, s: string, f: Flags)
    requires Stands(format, pos, s) && AllFlags(s) && !IsFlag(At(format, pos + |s|))
    ensures ParseFlags(format, pos, f) == (AddFlags(f, s), pos + |s|)
    decreases |s|
  {
    hide ParseFlags, Stands, At, AddFlags;
    FlagStep(format, pos, f);
    if s == "" {
      NoFlagsAdded(f);
    } else {
      StandsHead(format, pos, s);
      AddFlagsJoin(f, s[0], s[1..]);
      assert s == [s[0]] + s[1..];
      FlagsRead(format, pos + 1, s[1..], AddFlags(f, [s[0]]));
    }
  }

  lemma NoFlagsAdded(f: Flags)
    ensures AddFlags(f, "") == f
  {
  }

  lemma NumberStep(format: string, pos: nat, acc: nat)
    ensures ParseNumber(format, pos, acc) ==
              if IsDigit(At(format, pos)) then ParseNumber(format, pos + 1, (acc * 10 + DigitValue(At(format, pos))) % UINT)
              else (acc, pos)
  {
  }

  /** _atoi reads a numeral modulo 2^32. */
  lemma {:induction false} NumeralRead(format: string, pos: nat, s: string, done: string)
    requires Stands(format, pos, s) && AllDigits(s) && !IsDigit(At(format, pos + |s|))
    ensures ParseNumber(format, pos, ReadNumeral(done, 10) % UINT) == (ReadNumeral(done + s, 10) % UINT, pos + |s|)
    decreases |s|
  {
    hide ParseNumber, Stands, At, ReadNumeral, DigitValue;
    NumberStep(format, pos, ReadNumeral(done, 10) % UINT);
    if s == "" {
      assert done + s == done;
    } else {
      StandsHead(format, pos, s);
      ReadStep(done, s[0], 10);
      Accumulate(ReadNumeral(done, 10), DigitValue(s[0]));
      assert done + s == done + [s[0]] + s[1..];
      NumeralRead(format, pos + 1, s[1..], done + [s[0]]);
    }
  }

  lemma Accumulate(n: nat, digit: nat)
    ensures (n % UINT * 10 + digit) % UINT == (n * 10 + digit) % UINT
  {
    var q, r := n / UINT, n % UINT;
    assert n * 10 + digit == (q * 10) * UINT + (r * 10 + digit);
    Multiples(q * 10, r * 10 + digit);
  }

  lemma Multiples(q: nat, b: nat)
    ensures (q * UINT + b) % UINT == b % UINT
  {
    var c, r := b / UINT, b % UINT;
    assert q * UINT + b == (q + c) * UINT + r;
  }

  /** Wherever _atoi is called: it takes all digits there are, and their value modulo 2^32. */
  lemma NumberRead(format: string, pos: nat, e: nat)
    requires pos <= e <= |format| && AllDigits(format[pos..e]) && !IsDigit(At(format, e))
    ensures ParseNumber(format, pos, 0) == (ReadNumeral(format[pos..e], 10) % UINT, e)
  {
    hide ParseNumber, ReadNumeral, At;
    NumeralRead(format, pos, format[pos..e], "");
    NothingRead(10);
    Ends(format[pos..e]);
  }

  /** A character that neither begins nor goes on with a flag, a width or a precision. */
  predicate IsLetter(c: char) { !IsDigit(c) && !IsFlag(c) && c != '*' && c != '.' }

  /** What stands behind the precision, behind the width, and behind the flags. */
  function Tail3(d: Spec): (s: string)
    ensures |s| == |d.length| + 1
  {
    d.length + [d.conv]
  }

  function Tail2(d: Spec): string { PrecisionText(d) + Tail3(d) }
  function Tail1(d: Spec): string { FieldText(d.width) + Tail2(d) }

  lemma Heads(d: Spec)
    requires WellFormed(d)
    ensures IsLetter(Tail3(d)[0])
    ensures if d.point then Tail2(d)[0] == '.' else Tail2(d)[0] == Tail3(d)[0]
    ensures if d.width.Omitted? then Tail1(d)[0] == Tail2(d)[0]
            else if d.width.Star? then Tail1(d)[0] == '*' else Tail1(d)[0] == d.width.digits[0]
  {
  }

  lemma SpecParts(d: Spec)
    ensures SpecText(d) == d.flags + Tail1(d)
  {
  }

  /** What the code makes of a directive. */
  function CodeReading(d: Spec, args: Args, arg: nat, pos: nat): Directive {
    var w, p := WidthValue(d, args, arg), PrecisionValue(d, args, arg);
    var f := FlagsOf(d.flags);
    Directive(f.(left := f.left || w < 0, precision := d.point, size := SizeOf(d.length)),
              Magnitude(w) % UINT, if p > 0 then p % UINT else 0, pos + |SpecText(d)| - 1, ValueArg(d, arg))
  }

  /** What the parser finds where the width may stand, and behind it. */
  lemma WidthStands(format: string, pos: nat, d: Spec)
    requires WellFormed(d) && Stands(format, pos, Tail1(d))
    ensures Stands(format, pos + |FieldText(d.width)|, Tail2(d)) && Stands(format, pos, FieldText(d.width))
    ensures d.width.Omitted? ==> !IsDigit(At(format, pos)) && At(format, pos) != '*'
    ensures d.width.Star? ==> At(format, pos) == '*' && !IsDigit(At(format, pos))
    ensures d.width.Numeral? ==> IsDigit(At(format, pos)) && !IsDigit(At(format, pos + |d.width.digits|))
  {
    hide Stands, At, Tail3;
    Heads(d);
    StandsParts(format, pos, FieldText(d.width), Tail2(d));
    StandsAt(format, pos, Tail1(d), 0);
    StandsAt(format, pos + |FieldText(d.width)|, Tail2(d), 0);
  }

  lemma WidthRead(format: string, pos: nat, d: Spec, args: Args, arg: nat, f: Flags)
    requires WellFormed(d) && Stands(format, pos, Tail1(d))
    ensures var w := WidthValue(d, args, arg);
            ParseWidth(format, pos, args, arg, f) ==
              Parsed(f.(left := f.left || w < 0), Magnitude(w) % UINT, pos + |FieldText(d.width)|, arg + StarsIn(d.width))
    ensures Stands(format, pos + |FieldText(d.width)|, Tail2(d))
  {
    hide ParseWidth, ReadNumeral, Stands, At, Tail1, Tail2, IsDigit, Signed;
    WidthStands(format, pos, d);
    if d.width.Star? {
      StarFits(args(arg).word);
      StarWidth(format, pos, args, arg, f);
    } else if d.width.Numeral? {
      NumeralWidth(format, pos, d.width.digits, args, arg, f);
    } else {
      NoWidth(format, pos, args, arg, f);
    }
  }

  lemma NoWidth(format: string, pos: nat, args: Args, arg: nat, f: Flags)
    requires !IsDigit(At(format, pos)) && At(format, pos) != '*'
    ensures ParseWidth(format, pos, args, arg, f) == Parsed(f, 0, pos, arg)
  {
  }

  lemma StarWidth(format: string, pos: nat, args: Args, arg: nat, f: Flags)
    requires !IsDigit(At(format, pos)) && At(format, pos) == '*'
    ensures var w := Signed(args(arg).word, UINT);
            ParseWidth(format, pos, args, arg, f) == Parsed(f.(left := f.left || w < 0), Magnitude(w), pos + 1, arg + 1)
  {
    hide Signed;
  }

  lemma NumeralWidth(format: string, pos: nat, digits: string, args: Args, arg: nat, f: Flags)
    requires Stands(format, pos, digits) && AllDigits(digits)
    requires IsDigit(At(format, pos)) && !IsDigit(At(format, pos + |digits|))
    ensures ParseWidth(format, pos, args, arg, f) == Parsed(f, ReadNumeral(digits, 10) % UINT, pos + |digits|, arg)
  {
    hide ParseNumber, ReadNumeral, Stands, At, IsDigit, Signed;
    NumeralRead(format, pos, digits, "");
    NothingRead(10);
    Ends(digits);
  }

  lemma StarFits(word: nat)
    ensures Magnitude(Signed(word, UINT)) % UINT == Magnitude(Signed(word, UINT))
  {
    hide Signed;
    var m := Magnitude(Signed(word, UINT));
    assert m < UINT;
  }

  lemma PrecisionRead(format: string, pos: nat, d: Spec, args: Args, arg: nat, f: Flags)
    requires WellFormed(d) && Stands(format, pos, Tail2(d))
    ensures var p := FieldValue(d.precision, args, arg);
            ParsePrecision(format, pos, args, arg, f) ==
              Parsed(f.(precision := f.precision || d.point), if p > 0 then p % UINT else 0, pos + |PrecisionText(d)|,
                     arg + StarsIn(d.precision))
    ensures Stands(format, pos + |PrecisionText(d)|, Tail3(d))
  {
    hide ParseNumber, ReadNumeral, Stands, At, Tail3;
    Heads(d);
    StandsParts(format, pos, PrecisionText(d), Tail3(d));
    StandsAt(format, pos, Tail2(d), 0);
    StandsAt(format, pos + |PrecisionText(d)|, Tail3(d), 0);
    if d.point {
      StandsParts(format, pos, ".", FieldText(d.precision));
      if d.precision.Numeral? {
        NumeralRead(format, pos + 1, d.precision.digits, "");
        NothingRead(10);
        Ends(d.precision.digits);
        StandsAt(format, pos + 1, d.precision.digits, 0);
      } else if d.precision.Star? {
        StandsAt(format, pos + 1, "*", 0);
      }
    }
  }

  lemma SizeRead(format: string, pos: nat, d: Spec)
    requires WellFormed(d) && Stands(format, pos, Tail3(d))
    ensures ParseSize(format, pos) == (SizeOf(d.length), pos + |d.length|)
    ensures At(format, pos + |d.length|) == d.conv
  {
    hide Stands, At;
    StandsAt(format, pos, Tail3(d), 0);
    StandsAt(format, pos, Tail3(d), |d.length|);
    if |d.length| == 1 || |d.length| == 2 {
      StandsAt(format, pos, Tail3(d), 1);
    }
  }

  /** The parser recovers every written directive: its flags, its numerals modulo 2^32, the values
      of its stars, its size and its conversion character. */
  lemma ParseWritten(format: string, pos: nat, d: Spec, args: Args, arg: nat)
    requires WellFormed(d) && Stands(format, pos, SpecText(d))
    ensures Parse(format, pos, args, arg) == CodeReading(d, args, arg, pos)
    ensures At(format, Parse(format, pos, args, arg).pos) == d.conv
  {
    hide Stands, At, ParseFlags, ParseWidth, ParsePrecision, ParseSize, Tail1, Tail2, Tail3;
    SpecParts(d);
    StandsParts(format, pos, d.flags, Tail1(d));
    Follows(format, pos + |d.flags|, d);
    FlagsRead(format, pos, d.flags, NO_FLAGS);
    var f, p1 := AddFlags(NO_FLAGS, d.flags), pos + |d.flags|;
    WidthRead(format, p1, d, args, arg, f);
    var w := ParseWidth(format, p1, args, arg, f);
    PrecisionRead(format, w.pos, d, args, w.arg, w.f);
    var p := ParsePrecision(format, w.pos, args, w.arg, w.f);
    SizeRead(format, p.pos, d);
  }

  lemma Follows(format: string, pos: nat, d: Spec)
    requires WellFormed(d) && Stands(format, pos, Tail1(d))
    ensures !IsFlag(At(format, pos))
  {
    hide Stands, At;
    Heads(d);
    StandsAt(format, pos, Tail1(d), 0);
  }

  // ----- when the code reads what the standard reads

  predicate NumeralFits(f: Field) { f.Numeral? ==> ReadNumeral(f.digits, 10) < UINT }

  /** A '*' for the precision whose argument is negative. */
  predicate NegativeStar(d: Spec, args: Args, arg: nat) { d.precision.Star? && PrecisionValue(d, args, arg) < 0 }

  /** The code reads a directive as the standard does exactly if its numerals fit an unsigned int
      and no '*' gives a negative precision. */
  lemma ReadingAgrees(d: Spec, args: Args, arg: nat, pos: nat)
    requires WellFormed(d)
    ensures CodeReading(d, args, arg, pos) == Reading(d, args, arg, pos)
            <==> NumeralFits(d.width) && NumeralFits(d.precision) && !NegativeStar(d, args, arg)
  {
    hide ReadNumeral, Signed, SpecText, FlagsOf;
    StarFits(args(arg).word);
    StarFits(args(arg + StarsIn(d.width)).word);
  }

  // ----- the texts

  /** What the standard has an integer directive write. */
  function StandardText(d: Spec, args: Args, arg: nat): string
    requires WellFormed(d)
  {
    var r := Reading(d, args, arg, 0);
    var v := IntegerValue(args(r.arg).word, r.f.size, d.conv);
    C11Text(Magnitude(v), v < 0, Base(d.conv), r.precision, r.width, IntegerFlags(r.f, d.conv))
  }

  /** The number of it fits the buffer of the code, or is one too long in the way that does no
      harm. */
  ghost predicate NumberFits(d: Spec, args: Args, arg: nat)
    requires WellFormed(d)
  {
    var r := Reading(d, args, arg, 0);
    var v, g := IntegerValue(args(r.arg).word, r.f.size, d.conv), IntegerFlags(r.f, d.conv);
    || C11Length(Magnitude(v), v < 0, Base(d.conv), r.precision, r.width, g) <= NTOA_BUFFER_SIZE
    || SpaceForSign(Magnitude(v), v < 0, Base(d.conv), r.precision, r.width, g)
  }

  /** No zero digit and no padding zero is called for, which a precision of 0 would suppress. */
  predicate ZeroPrecisionHarmless(value: nat, negative: bool, base: nat, width: nat, f: Flags)
    requires 2 <= base <= 16
  {
    && (value != 0 || (base == 8 && f.hash))
    && !(f.zeropad && !f.left && |C11Prefix(value, negative, base, f)| + |C11Body(value, base, 0, f)| < width)
  }

  function ZeroPrecision(f: Flags): Flags { f.(precision := true, zeropad := false) }

  lemma ZeroPrecisionBody(value: nat, base: nat, f: Flags)
    requires (base == 8 || base == 10 || base == 16) && value < ULLONG && !f.precision
    ensures value != 0 || (base == 8 && f.hash) ==> C11Body(value, base, 0, ZeroPrecision(f)) == C11Body(value, base, 0, f)
    ensures !(value != 0 || (base == 8 && f.hash)) ==>
              C11Body(value, base, 0, ZeroPrecision(f)) == "" && C11Body(value, base, 0, f) == "0"
  {
    hide Digits, Reverse;
    if value > 0 {
      LeadsWithDigit(value, base, f.uppercase);
      var digits := Reverse(Digits(value, base, f.uppercase));
      assert Repeat('0', 0 - |digits|) == Repeat('0', 1 - |digits|) == "";
    } else {
      NoDigits(base, f.uppercase);
      SingleZero();
      Ends("0");
      Ends("");
      assert Repeat('0', 0) == "";
    }
  }

  /** Laying a body out with zeros or with spaces makes a difference as soon as there is padding. */
  lemma PaddingShows(prefix: string, body: string, width: nat)
    requires NoSpaces(body) && (prefix == "" || prefix[0] != ' ' || prefix == " ")
    requires |prefix| + |body| < width
    ensures Laid(prefix, body, width, false, false) != Laid(prefix, body, width, false, true)
  {
    var pad := width - |prefix| - |body|;
    var t, u := Laid(prefix, body, width, false, false), Laid(prefix, body, width, false, true);
    assert t[0] == ' ';
    if prefix == "" {
      assert u[0] == '0';
    } else if prefix == " " {
      assert t[pad] == ' ' && u[pad] == '0';
    } else {
      assert u[0] == prefix[0];
    }
  }

  lemma ZeroPrecisionTexts(value: nat, negative: bool, base: nat, width: nat, f: Flags)
    requires Proper(value, negative, base, 0, f) && !f.precision
    ensures C11Text(value, negative, base, 0, width, ZeroPrecision(f)) == C11Text(value, negative, base, 0, width, f)
            <==> ZeroPrecisionHarmless(value, negative, base, width, f)
  {
    hide C11Body, Laid;
    var prefix, body := C11Prefix(value, negative, base, f), C11Body(value, base, 0, f);
    assert C11Prefix(value, negative, base, ZeroPrecision(f)) == prefix;
    ZeroPrecisionBody(value, base, f);
    BodyNoSpaces(value, base, 0, f);
    if value != 0 || (base == 8 && f.hash) {
      if f.zeropad && !f.left && |prefix| + |body| < width {
        PrefixOf(value, negative, base, f);
        PaddingShows(prefix, body, width);
      } else {
        NothingToPad(prefix, body, width, f);
      }
    } else {
      NoZeroShown(prefix, width, f);
    }
  }

  lemma NothingToPad(prefix: string, body: string, width: nat, f: Flags)
    requires !(f.zeropad && !f.left && |prefix| + |body| < width)
    ensures Laid(prefix, body, width, f.left, false) == Laid(prefix, body, width, f.left, f.zeropad)
  {
    Ends(prefix);
  }

  /** Without a digit the text has no '0'; with one it has. */
  lemma NoZeroShown(prefix: string, width: nat, f: Flags)
    requires |prefix| <= 1 && (prefix == "" || prefix[0] != '0')
    ensures Laid(prefix, "", width, f.left, false) != Laid(prefix, "0", width, f.left, f.zeropad)
  {
    hide Repeat;
    var t, u := Laid(prefix, "", width, f.left, false), Laid(prefix, "0", width, f.left, f.zeropad);
    assert '0' !in t;
    assert '0' in u;
  }

  lemma ZeroPrecisionFits(value: nat, negative: bool, base: nat, width: nat, f: Flags)
    requires Proper(value, negative, base, 0, f)
    ensures C11Length(value, negative, base, 0, width, ZeroPrecision(f)) <= NTOA_BUFFER_SIZE
  {
    hide Digits, Reverse, Repeat;
    DigitsFit(value, base, f.uppercase);
    SignLength(negative, ZeroPrecision(f));
  }

  lemma NtoaLength(value: nat, negative: bool, base: nat, precision: nat, width: nat, f: Flags)
    requires 2 <= base <= 16
    ensures var n := |NtoaText(value, negative, base, precision, width, f)|; n <= width || n <= NTOA_BUFFER_SIZE
  {
    hide Assembled, OutRevText, NtoaDigits;
    var b, g := NtoaDigits(value, base, f), NtoaFlags(value, base, f);
    NtoaDigitsFit(value, base, f);
    var w := WidthLeft(negative, width, g);
    AssembledFits(b, negative, base, precision, w, g);
    OutRevShape(Assembled(b, negative, base, precision, w, g), w, g);
  }

  lemma C11AtLeast(value: nat, negative: bool, base: nat, precision: nat, width: nat, f: Flags)
    requires 2 <= base <= 16
    ensures |C11Text(value, negative, base, precision, width, f)| >= width
    ensures f.precision ==> |C11Text(value, negative, base, precision, width, f)| >= precision
  {
    hide Digits, Reverse, Laid;
    LaidShape(C11Prefix(value, negative, base, f), C11Body(value, base, precision, f), width, f.left, f.zeropad);
  }

  lemma ConversionProper(d: Spec, args: Args, arg: nat)
    requires WellFormed(d) && IsInteger(d.conv)
    ensures var r := Reading(d, args, arg, 0);
            var v := IntegerValue(args(r.arg).word, r.f.size, d.conv);
            Proper(Magnitude(v), v < 0, Base(d.conv), r.precision, IntegerFlags(r.f, d.conv))
  {
    hide SpecText, FlagsOf, SizeOf;
  }

  /** When the code writes the standard's text: numerals fit an unsigned int, and either the number
      fits, or a negative '*' precision, which the code takes for 0, does no harm. */
  ghost predicate IntegerAgrees(d: Spec, args: Args, arg: nat)
    requires WellFormed(d)
  {
    var r := Reading(d, args, arg, 0);
    var v := IntegerValue(args(r.arg).word, r.f.size, d.conv);
    && NumeralFits(d.width) && NumeralFits(d.precision)
    && if NegativeStar(d, args, arg)
       then ZeroPrecisionHarmless(Magnitude(v), v < 0, Base(d.conv), r.width, IntegerFlags(r.f, d.conv))
       else NumberFits(d, args, arg)
  }

  lemma AgreeingReading(d: Spec, args: Args, arg: nat, pos: nat)
    requires WellFormed(d) && IsInteger(d.conv)
    requires NumeralFits(d.width) && NumeralFits(d.precision) && !NegativeStar(d, args, arg)
    ensures ConversionText(d.conv, CodeReading(d, args, arg, pos), args) == StandardText(d, args, arg)
            <==> NumberFits(d, args, arg)
  {
    hide CodeReading, Reading, NtoaText, C11Text, C11Length, SpaceForSign, Proper, NumeralFits, NegativeStar,
      IntegerValue, IntegerFlags;
    ReadingAgrees(d, args, arg, pos);
    ReadingMoves(d, args, arg, pos);
    ConversionProper(d, args, arg);
    var r := Reading(d, args, arg, 0);
    var v := IntegerValue(args(r.arg).word, r.f.size, d.conv);
    NtoaIsStandard(Magnitude(v), v < 0, Base(d.conv), r.precision, r.width, IntegerFlags(r.f, d.conv));
  }

  lemma ReadingMoves(d: Spec, args: Args, arg: nat, pos: nat)
    requires WellFormed(d)
    ensures var r, s := Reading(d, args, arg, 0), Reading(d, args, arg, pos);
            r.f == s.f && r.width == s.width && r.precision == s.precision && r.arg == s.arg
  {
    hide SpecText, FlagsOf, SizeOf, WidthValue, PrecisionValue;
  }

  /** What stays the same when the code misreads a negative '*' precision as 0. */
  lemma MisreadPrecision(d: Spec, args: Args, arg: nat, pos: nat)
    requires WellFormed(d) && NumeralFits(d.width) && NegativeStar(d, args, arg)
    ensures var c, r := CodeReading(d, args, arg, pos), Reading(d, args, arg, 0);
            && c.arg == r.arg && c.f.size == r.f.size && c.width == r.width && c.precision == r.precision == 0
            && c.f == r.f.(precision := true) && !r.f.precision
  {
    hide SpecText, FlagsOf, SizeOf, ReadNumeral, Signed;
    StarFits(args(arg).word);
  }

  lemma NegativeStarText(d: Spec, args: Args, arg: nat, pos: nat)
    requires WellFormed(d) && IsInteger(d.conv) && NumeralFits(d.width) && NegativeStar(d, args, arg)
    ensures ConversionText(d.conv, CodeReading(d, args, arg, pos), args) == StandardText(d, args, arg)
            <==> IntegerAgrees(d, args, arg)
  {
    hide CodeReading, Reading, NtoaText, C11Text, C11Length, Proper, NegativeStar, IntegerValue, ZeroPrecisionHarmless;
    MisreadPrecision(d, args, arg, pos);
    StarIsNoNumeral(d, args, arg);
    ConversionProper(d, args, arg);
    var r := Reading(d, args, arg, 0);
    var v, g := IntegerValue(args(r.arg).word, r.f.size, d.conv), IntegerFlags(r.f, d.conv);
    var negative := v < 0;
    ZeroPrecisionFits(Magnitude(v), negative, Base(d.conv), r.width, g);
    ZeroPrecisionProper(Magnitude(v), negative, Base(d.conv), g);
    MeetsStandard(Magnitude(v), negative, Base(d.conv), 0, r.width, ZeroPrecision(g));
    ZeroPrecisionTexts(Magnitude(v), negative, Base(d.conv), r.width, g);
  }

  lemma StarIsNoNumeral(d: Spec, args: Args, arg: nat)
    ensures NegativeStar(d, args, arg) ==> NumeralFits(d.precision)
  {
  }

  lemma ZeroPrecisionProper(value: nat, negative: bool, base: nat, f: Flags)
    requires Proper(value, negative, base, 0, f)
    ensures Proper(value, negative, base, 0, ZeroPrecision(f))
  {
  }

  /** A numeral of 2^32 or more asks for more characters than the code ever writes. */
  lemma LongNumeralText(d: Spec, args: Args, arg: nat, pos: nat)
    requires WellFormed(d) && IsInteger(d.conv) && (!NumeralFits(d.width) || !NumeralFits(d.precision))
    ensures ConversionText(d.conv, CodeReading(d, args, arg, pos), args) != StandardText(d, args, arg)
  {
    hide NtoaText, C11Text, ReadNumeral, IntegerValue, SpecText, FlagsOf, Signed;
    var c, r := CodeReading(d, args, arg, pos), Reading(d, args, arg, 0);
    assert c.width < UINT;
    var v, u := IntegerValue(args(c.arg).word, c.f.size, d.conv), IntegerValue(args(r.arg).word, r.f.size, d.conv);
    NtoaLength(Magnitude(v), v < 0, Base(d.conv), c.precision, c.width, IntegerFlags(c.f, d.conv));
    C11AtLeast(Magnitude(u), u < 0, Base(d.conv), r.precision, r.width, IntegerFlags(r.f, d.conv));
  }

  /** Exactly when an integer directive, wherever it stands in a format, writes what the standard
      asks for. */
  lemma IntegerDirective(format: string, pos: nat, d: Spec, args: Args, arg: nat)
    requires WellFormed(d) && IsInteger(d.conv) && Stands(format, pos, SpecText(d))
    ensures ConversionText(d.conv, Parse(format, pos, args, arg), args) == StandardText(d, args, arg)
            <==> IntegerAgrees(d, args, arg)
  {
    hide Parse, ConversionText, StandardText, CodeReading, NumberFits, ZeroPrecisionHarmless, NumeralFits, NegativeStar;
    ParseWritten(format, pos, d, args, arg);
    if !NumeralFits(d.width) || !NumeralFits(d.precision) {
      LongNumeralText(d, args, arg, pos);
    } else if NegativeStar(d, args, arg) {
      NegativeStarText(d, args, arg, pos);
    } else {
      AgreeingReading(d, args, arg, pos);
    }
  }

  // ----- strings

  /** What the standard has %s write: at most `precision` characters, justified in the width. */
  function StandardString(s: string, r: Directive): string {
    Justified(Shown(s, r.f, r.precision), r.width, r.f.left)
  }

  /** How many of n characters the code shows: a numeral counts modulo 2^32, a negative '*' as 0. */
  function CutAt(d: Spec, args: Args, arg: nat, n: nat): nat {
    if NegativeStar(d, args, arg) then 0
    else if d.precision.Numeral? then
      var k := ReadNumeral(d.precision.digits, 10) % UINT;
      if k < n then k else n
    else n
  }

  predicate SpacesFrom(s: string, from: nat) { forall i | from <= i < |s| :: s[i] == ' ' }

  /** Cutting s at k does no harm: padding stands in for what is cut off, or on the right side for
      all of s. */
  predicate CutIsSpaces(s: string, k: nat, width: nat, left: bool) {
    k >= |s| || (|s| <= width && SpacesFrom(s, if left then k else 0))
  }

  /** Justifying in two steps is justifying in the wider width. */
  lemma JustifiedTwice(s: string, middle: nat, width: nat, left: bool)
    requires |s| <= middle <= width
    ensures Justified(Justified(s, middle, left), width, left) == Justified(s, width, left)
  {
    hide Repeat;
    var x, y := Repeat(' ', middle - |s|), Repeat(' ', width - middle);
    assert x + y == y + x == Repeat(' ', width - |s|);
    Assoc(s, x, y);
    Assoc(y, x, s);
  }

  lemma JustifiedTells(s: string, t: string, width: nat, left: bool)
    requires |s| == |t| && Justified(s, width, left) == Justified(t, width, left)
    ensures s == t
  {
    hide Repeat;
    var u := Justified(s, width, left);
    assert s == if left then u[..|s|] else u[|u| - |s|..];
  }

  lemma JustifiedLength(s: string, width: nat, left: bool)
    ensures |Justified(s, width, left)| == if |s| < width then width else |s|
  {
    hide Repeat;
  }

  /** A string that is its own beginning behind g spaces has only spaces. */
  lemma {:induction false} OnlySpaces(s: string, g: nat, i: nat)
    requires 0 < g <= |s| && i < |s| && s == Repeat(' ', g) + s[..|s| - g]
    ensures s[i] == ' '
    decreases i
  {
    hide Repeat;
    var t := Repeat(' ', g) + s[..|s| - g];
    if i < g {
      assert t[i] == ' ';
    } else {
      assert t[i] == s[i - g];
      OnlySpaces(s, g, i - g);
    }
  }

  lemma CutOnLeft(s: string, k: nat)
    requires k < |s|
    ensures s[..k] + Repeat(' ', |s| - k) == s <==> SpacesFrom(s, k)
  {
    hide Repeat;
    var t := s[..k] + Repeat(' ', |s| - k);
    if t == s {
      forall i | k <= i < |s|
        ensures s[i] == ' '
      {
        assert t[i] == ' ';
      }
    }
    if SpacesFrom(s, k) {
      assert forall i | 0 <= i < |s| :: t[i] == s[i];
    }
  }

  lemma CutOnRight(s: string, k: nat)
    requires k < |s|
    ensures Repeat(' ', |s| - k) + s[..k] == s <==> SpacesFrom(s, 0)
  {
    hide Repeat;
    var t := Repeat(' ', |s| - k) + s[..k];
    if t == s {
      forall i | 0 <= i < |s|
        ensures s[i] == ' '
      {
        OnlySpaces(s, |s| - k, i);
      }
    }
    if SpacesFrom(s, 0) {
      assert forall i | 0 <= i < |s| :: t[i] == s[i];
    }
  }

  lemma CutShows(s: string, k: nat, left: bool)
    requires k < |s|
    ensures Justified(s[..k], |s|, left) == s <==> SpacesFrom(s, if left then k else 0)
  {
    hide Repeat, SpacesFrom;
    CutOnLeft(s, k);
    CutOnRight(s, k);
  }

  lemma JustifiedSame(s: string, k: nat, width: nat, left: bool)
    requires k <= |s|
    ensures Justified(s[..k], width, left) == Justified(s, width, left) <==> CutIsSpaces(s, k, width, left)
  {
    hide Justified, SpacesFrom;
    JustifiedLength(s[..k], width, left);
    JustifiedLength(s, width, left);
    JustifiedLength(s[..k], |s|, left);
    if k == |s| {
      assert s[..k] == s;
    } else if |s| <= width {
      CutShows(s, k, left);
      JustifiedTwice(s[..k], |s|, width, left);
      var small := Justified(s[..k], |s|, left);
      if Justified(small, width, left) == Justified(s, width, left) {
        JustifiedTells(small, s, width, left);
      }
    }
  }

  lemma StringConversion(s: string, c: Directive, args: Args)
    requires args(c.arg).str == Chars(s)
    ensures ConversionText('s', c, args) == StringText(s, c)
  {
    hide StringText;
  }

  /** How the widths of the two readings compare, whatever the precision. */
  lemma WidthsCompare(d: Spec, args: Args, arg: nat, pos: nat)
    requires WellFormed(d)
    ensures var c, r := CodeReading(d, args, arg, pos), Reading(d, args, arg, 0);
            && c.f.left == r.f.left
            && if NumeralFits(d.width) then c.width == r.width else c.width < UINT <= r.width
  {
    hide ReadNumeral, Signed, SpecText, FlagsOf, SizeOf, PrecisionValue, ValueArg;
    StarFits(args(arg).word);
  }

  /** The code shows as much of a string as the standard, or less of it. */
  lemma ShownCut(d: Spec, args: Args, arg: nat, pos: nat, s: string)
    requires WellFormed(d) && |s| < UINT
    ensures var c, r := CodeReading(d, args, arg, pos), Reading(d, args, arg, 0);
            var shown, k := Shown(s, r.f, r.precision), ShownLength(s, c);
            && k == CutAt(d, args, arg, |shown|) <= |shown| <= |s| && Shown(s, c.f, c.precision) == shown[..k]
  {
    hide ReadNumeral, Signed, SpecText, FlagsOf, SizeOf, WidthValue, ValueArg;
    StarFits(args(arg + StarsIn(d.width)).word);
  }

  /** When the code shows what the standard asks for: the width fits an unsigned int, and what is
      cut off too early is spaces, within the width. */
  predicate StringAgrees(d: Spec, args: Args, arg: nat, s: string) {
    var r := Reading(d, args, arg, 0);
    var shown := Shown(s, r.f, r.precision);
    NumeralFits(d.width) && CutIsSpaces(shown, CutAt(d, args, arg, |shown|), r.width, r.f.left)
  }

  /** Numerals below 2^32 and no negative '*' will do. */
  lemma PlainStringAgrees(d: Spec, args: Args, arg: nat, s: string)
    requires WellFormed(d) && NumeralFits(d.width) && NumeralFits(d.precision) && !NegativeStar(d, args, arg)
    ensures StringAgrees(d, args, arg, s)
  {
    hide ReadNumeral, Signed, SpecText, FlagsOf, SizeOf, WidthValue, ValueArg;
  }

  /** Exactly when a string directive shows what the standard asks for. */
  lemma StringDirective(format: string, pos: nat, d: Spec, args: Args, arg: nat, s: string)
    requires WellFormed(d) && d.conv == 's' && Stands(format, pos, SpecText(d)) && |s| < UINT
    requires args(ValueArg(d, arg)).str == Chars(s)
    ensures ConversionText('s', Parse(format, pos, args, arg), args) == StandardString(s, Reading(d, args, arg, 0))
            <==> StringAgrees(d, args, arg, s)
  {
    hide Parse, Stands, WellFormed, CodeReading, Reading, Shown, NumeralFits, CutAt, CutIsSpaces, Repeat, SpecText,
      ConversionText;
    ParseWritten(format, pos, d, args, arg);
    var c, r := CodeReading(d, args, arg, pos), Reading(d, args, arg, 0);
    ShownCut(d, args, arg, pos, s);
    WidthsCompare(d, args, arg, pos);
    StringArg(d, args, arg, pos);
    var shown, k := Shown(s, r.f, r.precision), ShownLength(s, c);
    StringConversion(s, c, args);
    assert StringText(s, c) == Justified(shown[..k], c.width, r.f.left);
    if NumeralFits(d.width) {
      JustifiedSame(shown, k, r.width, r.f.left);
    } else {
      assert |Justified(shown, r.width, r.f.left)| >= UINT > |Justified(shown[..k], c.width, r.f.left)|;
    }
  }

  lemma StringArg(d: Spec, args: Args, arg: nat, pos: nat)
    ensures CodeReading(d, args, arg, pos).arg == ValueArg(d, arg)
  {
  }

  // ----- where the code and the standard part

  /** "%.*d" with -1 and 0: the standard asks for "0", the code writes nothing. */
  lemma NegativePrecisionLosesZero(args: Args)
    requires args(0).word == 0xFFFF_FFFF && args(1).word == 0
    ensures var d := Spec("", Omitted, true, Star, "", 'd');
            && SpecText(d) == ".*d" && WellFormed(d)
            && ConversionText('d', Parse("%.*d", 1, args, 0), args) == "" && StandardText(d, args, 0) == "0"
  {
    hide Parse, ConversionText, CodeReading, StandardText, PrecisionValue;
    var d := Spec("", Omitted, true, Star, "", 'd');
    assert SpecText(d) == ".*d";
    assert "%.*d"[1..4] == ".*d";
    ParseWritten("%.*d", 1, d, args, 0);
    StarIsMinusOne(d, args);
    ZeroLost(d, args);
    ZeroAsked(d, args);
  }

  lemma ZeroLost(d: Spec, args: Args)
    requires d == Spec("", Omitted, true, Star, "", 'd') && PrecisionValue(d, args, 0) == -1 && args(1).word == 0
    ensures ConversionText('d', CodeReading(d, args, 0, 1), args) == ""
  {
    hide NtoaText, PrecisionValue, SpecText;
    NothingShown(IntegerFlags(NO_FLAGS, 'd'));
  }

  lemma ZeroAsked(d: Spec, args: Args)
    requires d == Spec("", Omitted, true, Star, "", 'd') && PrecisionValue(d, args, 0) == -1 && args(1).word == 0
    ensures StandardText(d, args, 0) == "0"
  {
    hide C11Text, PrecisionValue, SpecText;
    NothingShown(IntegerFlags(NO_FLAGS, 'd'));
  }

  lemma NothingShown(f: Flags)
    requires !f.plus && !f.space && !f.hash && !f.precision && !f.zeropad && !f.left
    ensures NtoaText(0, false, 10, 0, 0, ZeroPrecision(f)) == ""
    ensures C11Text(0, false, 10, 0, 0, f) == "0"
  {
    hide Repeat, Digits, Reverse;
    NoDigits(10, f.uppercase);
    SingleZero();
    assert Repeat('0', -1) == Repeat(' ', -1) == Repeat(' ', 0) == Repeat('0', 0) == "";
  }

  /** "%.*s" with -1: the standard asks for the whole string, the code shows nothing of it. */
  lemma NegativePrecisionHidesString(args: Args, s: string)
    requires args(0).word == 0xFFFF_FFFF && args(1).str == Chars(s)
    ensures var d := Spec("", Omitted, true, Star, "", 's');
            && SpecText(d) == ".*s" && WellFormed(d)
            && ConversionText('s', Parse("%.*s", 1, args, 0), args) == ""
            && StandardString(s, Reading(d, args, 0, 0)) == s
  {
    hide Parse, ConversionText, CodeReading, Reading, StandardString, PrecisionValue;
    var d := Spec("", Omitted, true, Star, "", 's');
    assert SpecText(d) == ".*s";
    assert "%.*s"[1..4] == ".*s";
    ParseWritten("%.*s", 1, d, args, 0);
    StarIsMinusOne(d, args);
    WholeStringAsked(d, args, s);
    NoneShown(d, args, s);
  }

  lemma StarIsMinusOne(d: Spec, args: Args)
    requires d.width.Omitted? && d.precision.Star? && args(0).word == 0xFFFF_FFFF
    ensures PrecisionValue(d, args, 0) == -1
  {
  }

  lemma WholeStringAsked(d: Spec, args: Args, s: string)
    requires d == Spec("", Omitted, true, Star, "", 's') && PrecisionValue(d, args, 0) == -1
    ensures StandardString(s, Reading(d, args, 0, 0)) == s
  {
    hide PrecisionValue, SpecText;
    assert Repeat(' ', 0 - |s|) == "";
    Ends(s);
  }

  lemma NoneShown(d: Spec, args: Args, s: string)
    requires d == Spec("", Omitted, true, Star, "", 's') && PrecisionValue(d, args, 0) == -1
    requires args(1).str == Chars(s)
    ensures ConversionText('s', CodeReading(d, args, 0, 1), args) == ""
  {
    hide PrecisionValue, SpecText, SizeOf, FlagsOf, StringText, ConversionText;
    var c := CodeReading(d, args, 0, 1);
    StringConversion(s, c, args);
    ShowsNothing(s, c);
  }

  lemma ShowsNothing(s: string, c: Directive)
    requires c.f.precision && c.precision == 0 && c.width == 0
    ensures StringText(s, c) == ""
  {
    hide Repeat;
    assert Shown(s, c.f, c.precision) == "";
  }
}

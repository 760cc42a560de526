/** What directives write, letter by letter: section 7.21.6.1 of ISO/IEC 9899:2011 in terms of the
    characters that come out. */
module PrintfWritten {
  import opened PrintfText
  import opened PrintfStandard
  import opened PrintfFormat
  import opened PrintfDirective
  import opened PrintfPieces

  /** What the sixteen digits count. */
  lemma DigitValues(i: nat)
    requires i < 16
    ensures DigitValue("0123456789abcdef"[i]) == DigitValue("0123456789ABCDEF"[i]) == i
  {
  }

  predicate Spaces(s: string) { forall i | 0 <= i < |s| :: s[i] == ' ' }

  predicate DigitOf(c: char, base: nat, uppercase: bool) {
    || ('0' <= c <= '9' && (c - '0') as nat < base)
    || (base == 16 && if uppercase then 'A' <= c <= 'F' else 'a' <= c <= 'f')
  }

  predicate DigitsOf(s: string, base: nat, uppercase: bool) { forall i | 0 <= i < |s| :: DigitOf(s[i], base, uppercase) }

  lemma OneDigit(digit: nat, base: nat, uppercase: bool)
    requires digit < base && (base == 8 || base == 10 || base == 16)
    ensures DigitOf(DigitChar(digit, uppercase), base, uppercase)
  {
  }

  lemma {:induction false} DigitsAreOf(value: nat, base: nat, uppercase: bool)
    requires base == 8 || base == 10 || base == 16
    ensures DigitsOf(Digits(value, base, uppercase), base, uppercase)
  {
    hide Digits, DigitChar, DigitOf;
    if value == 0 {
      NoDigits(base, uppercase);
    } else {
      DivMod(value, base);
      DigitsAreOf(value / base, base, uppercase);
      DigitsStep(value, base, uppercase);
      OneDigit(value % base, base, uppercase);
    }
  }

  /** The argument of an integer directive: its word modulo the width of the length modifier, and
      taken as signed by d and i only. */
  predicate ValueOf(word: nat, length: string, conv: char, v: int) {
    var range := if length == "hh" then 0x100 else if length == "h" then 0x1_0000 else if length == "" then 0x1_0000_0000
                 else 0x1_0000_0000_0000_0000;
    if conv == 'd' || conv == 'i' then
      -range <= 2 * v < range && (v == word % range || v == word % range - range)
    else v == word % range
  }

  lemma ValueIs(d: Spec, word: nat)
    requires WellFormed(d) && IsInteger(d.conv)
    ensures ValueOf(word, d.length, d.conv, IntegerValue(word, SizeOf(d.length), d.conv))
  {
  }

  /** How a body begins: with zeros only to make up the digits asked for. */
  lemma BodyShape(value: nat, base: nat, precision: nat, f: Flags)
    requires base == 8 || base == 10 || base == 16
    ensures var body, least := C11Body(value, base, precision, f), if f.precision then precision else 1;
            && DigitsOf(body, base, f.uppercase) && |body| >= least
            && (f.hash && base == 8 ==> body != "" && body[0] == '0')
            && (|body| > least && body[0] == '0' ==> f.hash && base == 8 && (|body| == 1 || body[1] != '0'))
  {
    hide Digits, Reverse, Repeat, DigitOf, C11Body;
    var digits := Reverse(Digits(value, base, f.uppercase));
    DigitsAreOf(value, base, f.uppercase);
    assert DigitsOf(digits, base, f.uppercase);
    if value > 0 {
      LeadsWithDigit(value, base, f.uppercase);
    } else {
      NoDigits(base, f.uppercase);
    }
    ShapeOf(digits, base, if f.precision then precision else 1, f);
    BodyIs(value, base, precision, f);
  }

  function BodyOf(digits: string, base: nat, least: nat, f: Flags): string {
    var body := Repeat('0', least - |digits|) + digits;
    if f.hash && base == 8 && (body == "" || body[0] != '0') then "0" + body else body
  }

  lemma BodyIs(value: nat, base: nat, precision: nat, f: Flags)
    requires 2 <= base <= 16
    ensures C11Body(value, base, precision, f)
            == BodyOf(Reverse(Digits(value, base, f.uppercase)), base, if f.precision then precision else 1, f)
  {
    hide Digits, Reverse, Repeat;
  }

  lemma ShapeOf(digits: string, base: nat, least: nat, f: Flags)
    requires base > 0 && DigitsOf(digits, base, f.uppercase) && (digits == "" || digits[0] != '0')
    ensures var body := BodyOf(digits, base, least, f);
            && DigitsOf(body, base, f.uppercase) && |body| >= least
            && (f.hash && base == 8 ==> body != "" && body[0] == '0')
            && (|body| > least && body[0] == '0' ==> f.hash && base == 8 && (|body| == 1 || body[1] != '0'))
  {
    hide Repeat, DigitOf;
    ZeroIsDigit(base, f.uppercase);
  }

  lemma ZeroIsDigit(base: nat, uppercase: bool)
    requires base > 0
    ensures DigitOf('0', base, uppercase)
  {
  }

  /** The parts of an integer's text: spaces, sign, prefix, digits, spaces. */
  datatype Parts = Parts(left: string, sign: string, prefix: string, numeral: string, right: string)

  function Joined(p: Parts): string { p.left + p.sign + p.prefix + p.numeral + p.right }

  /** The sign and the prefix, letter by letter. */
  predicate SignAndPrefix(p: Parts, flags: string, conv: char, v: int) {
    && p.sign == (if conv != 'd' && conv != 'i' then "" else if v < 0 then "-" else if '+' in flags then "+"
                  else if ' ' in flags then " " else "")
    && p.prefix == (if '#' !in flags || v == 0 then "" else if conv == 'x' then "0x" else if conv == 'X' then "0X" else "")
  }

  /** The digits, letter by letter: which there may be, and that they read as the value. */
  predicate NumeralOf(s: string, conv: char, v: int) {
    && ((conv == 'd' || conv == 'i' || conv == 'u') ==>
          (forall i | 0 <= i < |s| :: '0' <= s[i] <= '9') && ReadNumeral(s, 10) == if v < 0 then -v else v)
    && (conv == 'o' ==> (forall i | 0 <= i < |s| :: '0' <= s[i] <= '7') && ReadNumeral(s, 8) == v)
    && (conv == 'x' ==> (forall i | 0 <= i < |s| :: '0' <= s[i] <= '9' || 'a' <= s[i] <= 'f') && ReadNumeral(s, 16) == v)
    && (conv == 'X' ==> (forall i | 0 <= i < |s| :: '0' <= s[i] <= '9' || 'A' <= s[i] <= 'F') && ReadNumeral(s, 16) == v)
  }

  /** As many digits as the precision says, one without it.  Zeros in front only make that up, or
      fill the width for the flag 0, or are the one that # asks of o. */
  predicate ZerosOf(p: Parts, flags: string, conv: char, least: nat, width: nat, filled: bool) {
    && |p.numeral| >= least
    && ('#' in flags && conv == 'o' ==> p.numeral != "" && p.numeral[0] == '0')
    && (|p.numeral| > least && p.numeral[0] == '0' ==>
          || ('#' in flags && conv == 'o' && (|p.numeral| == 1 || p.numeral[1] != '0'))
          || (filled && |Joined(p)| == width))
  }

  /** Spaces on the side that the flags and the sign of the width say, as few as make up the width;
      zeros instead where `filled`. */
  predicate SpacesOf(p: Parts, width: nat, leftward: bool, filled: bool) {
    && Spaces(p.left) && Spaces(p.right)
    && (if leftward then p.left == "" else p.right == "")
    && (filled ==> p.left == p.right == "")
    && |Joined(p)| >= width && (|p.left| > 0 || |p.right| > 0 ==> |Joined(p)| == width)
  }

  // ----- the layout

  lemma LaidLeft(sign: string, prefix: string, body: string, width: nat, zeropad: bool)
    ensures Laid(sign + prefix, body, width, true, zeropad)
            == Joined(Parts("", sign, prefix, body, Repeat(' ', width - |sign + prefix| - |body|)))
  {
    hide Repeat;
    Ends(sign);
  }

  lemma LaidZeros(sign: string, prefix: string, body: string, width: nat)
    ensures Laid(sign + prefix, body, width, false, true)
            == Joined(Parts("", sign, prefix, Repeat('0', width - |sign + prefix| - |body|) + body, ""))
  {
    hide Repeat;
    var zeros := Repeat('0', width - |sign + prefix| - |body|);
    Ends(sign);
    Ends(sign + prefix + (zeros + body));
    Assoc(sign + prefix, zeros, body);
  }

  lemma LaidRight(sign: string, prefix: string, body: string, width: nat)
    ensures Laid(sign + prefix, body, width, false, false)
            == Joined(Parts(Repeat(' ', width - |sign + prefix| - |body|), sign, prefix, body, ""))
  {
    hide Repeat;
    var spaces := Repeat(' ', width - |sign + prefix| - |body|);
    Ends(spaces + sign + prefix + body);
    Assoc(spaces, sign, prefix);
  }

  /** A laid out number in its parts; z zeros fill the width. */
  lemma LaidParts(sign: string, prefix: string, body: string, width: nat, left: bool, zeropad: bool) returns (p: Parts, z: nat)
    ensures Laid(sign + prefix, body, width, left, zeropad) == Joined(p)
    ensures p.sign == sign && p.prefix == prefix && p.numeral == Repeat('0', z) + body
    ensures z > 0 ==> zeropad && !left && |Joined(p)| == width
    ensures SpacesOf(p, width, left, zeropad && !left)
  {
    hide Repeat, Laid;
    var pad := width - |sign + prefix| - |body|;
    z := 0;
    assert Repeat('0', 0) + body == body;
    if left {
      LaidLeft(sign, prefix, body, width, zeropad);
      p := Parts("", sign, prefix, body, Repeat(' ', pad));
    } else if zeropad {
      LaidZeros(sign, prefix, body, width);
      p := Parts("", sign, prefix, Repeat('0', pad) + body, "");
      z := if pad > 0 then pad else 0;
      assert Repeat('0', pad) == Repeat('0', z);
    } else {
      LaidRight(sign, prefix, body, width);
      p := Parts(Repeat(' ', pad), sign, prefix, body, "");
    }
  }

  /** Digits that filling zeros may stand before. */
  predicate Filled(s: string, base: nat, precision: nat, f: Flags, z: nat) {
    var least := if f.precision then precision else 1;
    && |s| >= least
    && (f.hash && base == 8 ==> s != "" && s[0] == '0')
    && (|s| > least && s[0] == '0' ==> z > 0 || (f.hash && base == 8 && (|s| == 1 || s[1] != '0')))
  }

  lemma BodyFilled(value: nat, base: nat, precision: nat, f: Flags, z: nat)
    requires base == 8 || base == 10 || base == 16
    ensures var s := Repeat('0', z) + C11Body(value, base, precision, f);
            ReadNumeral(s, base) == value && DigitsOf(s, base, f.uppercase) && Filled(s, base, precision, f, z)
  {
    hide C11Body, DigitsOf, ReadNumeral, Repeat;
    var body := C11Body(value, base, precision, f);
    BodyShape(value, base, precision, f);
    BodyReadsBack(value, base, precision, f);
    LeadingZeros(z, body, base);
    ZerosAreDigits(z, body, base, f.uppercase);
    if z == 0 {
      assert Repeat('0', z) + body == body;
    }
  }

  lemma ZerosAreDigits(n: int, s: string, base: nat, uppercase: bool)
    requires base > 0 && DigitsOf(s, base, uppercase)
    ensures DigitsOf(Repeat('0', n) + s, base, uppercase)
  {
  }

  /** The text of the number code's arguments. */
  lemma TextParts(value: nat, negative: bool, base: nat, precision: nat, width: nat, f: Flags) returns (p: Parts, z: nat)
    requires Proper(value, negative, base, precision, f)
    ensures C11Text(value, negative, base, precision, width, f) == Joined(p)
    ensures p.sign == Sign(negative, f)
    ensures p.prefix == if f.hash && base == 16 && value != 0 then (if f.uppercase then "0X" else "0x") else ""
    ensures ReadNumeral(p.numeral, base) == value && DigitsOf(p.numeral, base, f.uppercase)
    ensures SpacesOf(p, width, f.left, f.zeropad && !f.left) && Filled(p.numeral, base, precision, f, z)
    ensures z > 0 ==> f.zeropad && !f.left && |Joined(p)| == width
  {
    hide C11Body, DigitsOf, ReadNumeral, Sign, Repeat, Laid, Filled, SpacesOf;
    var body := C11Body(value, base, precision, f);
    var prefix := if f.hash && base == 16 && value != 0 then (if f.uppercase then "0X" else "0x") else "";
    p, z := LaidParts(Sign(negative, f), prefix, body, width, f.left, f.zeropad);
    BodyFilled(value, base, precision, f, z);
  }

  // ----- the directives

  /** What an integer directive of the standard writes, in terms of its own letters. */
  lemma IntegerWritten(d: Spec, args: Args, arg: nat) returns (v: int, p: Parts)
    requires WellFormed(d) && IsInteger(d.conv)
    ensures StandardText(d, args, arg) == Joined(p)
    ensures ValueOf(args(ValueArg(d, arg)).word, d.length, d.conv, v)
    ensures SignAndPrefix(p, d.flags, d.conv, v) && NumeralOf(p.numeral, d.conv, v)
    ensures var w, q := WidthValue(d, args, arg), PrecisionValue(d, args, arg);
            var width, leftward, exact := if w < 0 then -w else w, '-' in d.flags || w < 0, d.point && q >= 0;
            var filled := '0' in d.flags && !leftward && !exact;
            SpacesOf(p, width, leftward, filled) && ZerosOf(p, d.flags, d.conv, if exact then q else 1, width, filled)
  {
    hide SpecText, WidthValue, PrecisionValue, ValueArg, C11Text, Joined, SpacesOf, ReadNumeral, DigitOf, IntegerValue,
      ValueOf, Sign;
    var r := Reading(d, args, arg, 0);
    v := IntegerValue(args(r.arg).word, r.f.size, d.conv);
    var z;
    ConversionProper(d, args, arg);
    ValueIs(d, args(r.arg).word);
    p, z := TextParts(Magnitude(v), v < 0, Base(d.conv), r.precision, r.width, IntegerFlags(r.f, d.conv));
    SignByLetter(d, r.f, v, p);
    NumeralByLetter(p.numeral, d.conv, v, IntegerFlags(r.f, d.conv).uppercase);
  }

  lemma NumeralByLetter(s: string, conv: char, v: int, uppercase: bool)
    requires IsInteger(conv) && conv != 'b' && (conv != 'd' && conv != 'i' ==> v >= 0) && (uppercase <==> conv == 'X')
    requires ReadNumeral(s, Base(conv)) == Magnitude(v) && DigitsOf(s, Base(conv), uppercase)
    ensures NumeralOf(s, conv, v)
  {
    hide ReadNumeral;
  }

  lemma SignByLetter(d: Spec, f: Flags, v: int, p: Parts)
    requires WellFormed(d) && IsInteger(d.conv) && (d.conv != 'd' && d.conv != 'i' ==> v >= 0)
    requires f.plus == ('+' in d.flags) && f.space == (' ' in d.flags) && f.hash == ('#' in d.flags) && !f.uppercase
    requires var g := IntegerFlags(f, d.conv);
             && p.sign == Sign(v < 0, g)
             && p.prefix == if g.hash && Base(d.conv) == 16 && Magnitude(v) != 0 then (if g.uppercase then "0X" else "0x")
                            else ""
    ensures SignAndPrefix(p, d.flags, d.conv, v)
  {
  }

  // ----- which argument is which

  /** A field left out is 0, a numeral has its value, and a star takes the next argument as an int. */
  lemma FieldsWritten(d: Spec, args: Args, arg: nat)
    ensures d.width.Omitted? ==> WidthValue(d, args, arg) == 0
    ensures d.width.Numeral? ==> WidthValue(d, args, arg) == ReadNumeral(d.width.digits, 10)
    ensures d.width.Star? ==> ValueOf(args(arg).word, "", 'd', WidthValue(d, args, arg))
    ensures d.precision.Omitted? ==> PrecisionValue(d, args, arg) == 0
    ensures d.precision.Numeral? ==> PrecisionValue(d, args, arg) == ReadNumeral(d.precision.digits, 10)
    ensures d.precision.Star? ==>
              ValueOf(args(if d.width.Star? then arg + 1 else arg).word, "", 'd', PrecisionValue(d, args, arg))
    ensures ValueArg(d, arg) == arg + (if d.width.Star? then 1 else 0) + (if d.precision.Star? then 1 else 0)
  {
  }

  // ----- what the code writes

  /** Widths and precisions up to 29 are in order. */
  lemma ModerateAgrees(d: Spec, args: Args, arg: nat)
    requires WellFormed(d) && IsInteger(d.conv)
    requires -29 <= WidthValue(d, args, arg) <= 29 && 0 <= PrecisionValue(d, args, arg) <= 29
    ensures IntegerAgrees(d, args, arg)
  {
    hide SpecText, C11Length, SpaceForSign, IntegerValue, IntegerFlags, FlagsOf, SizeOf, ReadNumeral, ValueArg, Proper;
    var r := Reading(d, args, arg, 0);
    var v := IntegerValue(args(r.arg).word, r.f.size, d.conv);
    ConversionProper(d, args, arg);
    ModerateFits(Magnitude(v), v < 0, Base(d.conv), r.precision, r.width, IntegerFlags(r.f, d.conv));
  }

  /** An integer directive, wherever it stands in a format, as the code writes it. */
  lemma IntegerComesOut(format: string, pos: nat, d: Spec, args: Args, arg: nat) returns (v: int, p: Parts)
    requires WellFormed(d) && IsInteger(d.conv) && Stands(format, pos, SpecText(d)) && IntegerAgrees(d, args, arg)
    ensures ConversionText(d.conv, Parse(format, pos, args, arg), args) == Joined(p)
    ensures ValueOf(args(ValueArg(d, arg)).word, d.length, d.conv, v)
    ensures SignAndPrefix(p, d.flags, d.conv, v) && NumeralOf(p.numeral, d.conv, v)
    ensures var w, q := WidthValue(d, args, arg), PrecisionValue(d, args, arg);
            var width, leftward, exact := if w < 0 then -w else w, '-' in d.flags || w < 0, d.point && q >= 0;
            var filled := '0' in d.flags && !leftward && !exact;
            SpacesOf(p, width, leftward, filled) && ZerosOf(p, d.flags, d.conv, if exact then q else 1, width, filled)
  {
    hide SpecText, WidthValue, PrecisionValue, ValueArg, ConversionText, Parse, StandardText, IntegerAgrees, Joined, SpacesOf,
      ZerosOf, SignAndPrefix, NumeralOf, ValueOf, Stands;
    IntegerDirective(format, pos, d, args, arg);
    v, p := IntegerWritten(d, args, arg);
  }

  /** s in the width, on the left or on the right, with spaces for the rest. */
  predicate InWidth(t: string, s: string, width: nat, leftward: bool) {
    && |t| == (if |s| < width then width else |s|)
    && if leftward then t[..|s|] == s && Spaces(t[|s|..]) else t[|t| - |s|..] == s && Spaces(t[..|t| - |s|])
  }

  lemma JustifiedInWidth(s: string, width: nat, left: bool)
    ensures InWidth(Justified(s, width, left), s, width, left)
  {
    hide Repeat;
  }

  /** A character comes out as the lowest byte of its argument. */
  lemma CharWritten(format: string, pos: nat, d: Spec, args: Args, arg: nat)
    requires WellFormed(d) && d.conv == 'c' && Stands(format, pos, SpecText(d)) && NumeralFits(d.width)
    ensures var w := WidthValue(d, args, arg);
            InWidth(ConversionText('c', Parse(format, pos, args, arg), args), [(args(ValueArg(d, arg)).word % 0x100) as char],
                    if w < 0 then -w else w, '-' in d.flags || w < 0)
  {
    hide SpecText, WidthValue, PrecisionValue, ValueArg, ConversionText, Parse, InWidth, Stands, Justified, SizeOf;
    CharDirective(format, pos, d, args, arg);
    var r := Reading(d, args, arg, 0);
    JustifiedInWidth([Low(args(r.arg).word, 0x100) as char], r.width, r.f.left);
  }

  /** What the standard shows of a string: all of it, or as many characters as the precision says. */
  lemma StringWritten(d: Spec, args: Args, arg: nat, s: string)
    requires WellFormed(d)
    ensures var w, q := WidthValue(d, args, arg), PrecisionValue(d, args, arg);
            InWidth(StandardString(s, Reading(d, args, arg, 0)), if d.point && 0 <= q < |s| then s[..q] else s,
                    if w < 0 then -w else w, '-' in d.flags || w < 0)
  {
    hide SpecText, WidthValue, PrecisionValue, ValueArg, InWidth, Justified, SizeOf;
    var r := Reading(d, args, arg, 0);
    JustifiedInWidth(Shown(s, r.f, r.precision), r.width, r.f.left);
  }

  /** A null pointer shows as "(null)", whatever the precision; the flag 0 takes the spaces before it. */
  lemma NullWritten(format: string, pos: nat, d: Spec, args: Args, arg: nat)
    requires WellFormed(d) && d.conv == 's' && Stands(format, pos, SpecText(d)) && NumeralFits(d.width)
    requires args(ValueArg(d, arg)).str == Null
    ensures var w := WidthValue(d, args, arg);
            var leftward := '-' in d.flags || w < 0;
            InWidth(ConversionText('s', Parse(format, pos, args, arg), args), "(null)",
                    if '0' in d.flags && !leftward then 0 else if w < 0 then -w else w, leftward)
  {
    hide SpecText, WidthValue, PrecisionValue, ValueArg, ConversionText, Parse, InWidth, Stands, SizeOf, Justified, CodeReading;
    ParseWritten(format, pos, d, args, arg);
    WidthsCompare(d, args, arg, pos);
    StringArg(d, args, arg, pos);
    var c := CodeReading(d, args, arg, pos);
    NullText(c, args);
    CodeFlags(d, args, arg, pos);
    JustifiedInWidth("(null)", if c.f.zeropad && !c.f.left then 0 else c.width, c.f.left);
  }

  lemma CodeFlags(d: Spec, args: Args, arg: nat, pos: nat)
    ensures var c, w := CodeReading(d, args, arg, pos), WidthValue(d, args, arg);
            && c.f.zeropad == ('0' in d.flags) && c.f.left == ('-' in d.flags || w < 0)
            && Reading(d, args, arg, 0).width == if w < 0 then -w else w
  {
    hide SpecText, WidthValue, PrecisionValue, ValueArg, SizeOf;
  }

  lemma NullText(c: Directive, args: Args)
    requires args(c.arg).str == Null
    ensures ConversionText('s', c, args) == Justified("(null)", if c.f.zeropad && !c.f.left then 0 else c.width, c.f.left)
  {
    hide Repeat;
    NullReversed();
    Ends("(null)");
    assert Repeat(' ', 0 - 6) == "";
    Ends(Repeat(' ', c.width - 6) + "(null)");
    assert |")llun("| == |"(null)"| == 6;
  }

  lemma NullReversed()
    ensures Reverse(")llun(") == "(null)"
  {
    var s := ")llun(";
    assert forall i | 0 <= i < 6 :: Reverse(s)[i] == s[5 - i];
    assert Reverse(s) == "(null)";
  }

  // ----- binary, which the standard does not have

  function PowerOf2(n: nat): nat { if n == 0 then 1 else 2 * PowerOf2(n - 1) }

  lemma {:induction false} BitsAtMost(value: nat, n: nat)
    requires value < PowerOf2(n)
    ensures var s := Digits(value, 2, false); |s| <= n && forall i | 0 <= i < |s| :: s[i] == '0' || s[i] == '1'
  {
    hide Digits;
    if value == 0 {
      NoDigits(2, false);
    } else {
      BitsAtMost(value / 2, n - 1);
      DigitsStep(value, 2, false);
    }
  }

  /** %b shows an unsigned int in binary. */
  lemma BinaryWritten(args: Args)
    ensures var t := ConversionText('b', Directive(NO_FLAGS, 0, 0, 0, 0), args);
            && (forall i | 0 <= i < |t| :: t[i] == '0' || t[i] == '1')
            && ReadNumeral(t, 2) == args(0).word % 0x1_0000_0000
  {
    hide Digits, ReadNumeral, Reverse, Repeat, PowerOf2;
    var v := args(0).word % 0x1_0000_0000;
    assert PowerOf2(32) == 0x1_0000_0000 by { BinaryRange(); }
    BitsAtMost(v, 32);
    var b := if v == 0 then "0" else Digits(v, 2, false);
    BinaryText(v, b);
    if v == 0 {
      ReverseTwo("0");
      SingleZero();
      LeadingZeros(1, "", 2);
      Ends("0");
      NothingRead(2);
    } else {
      DigitsReadBack(v, 2, false);
    }
  }

  lemma BinaryRange()
    ensures PowerOf2(32) == 0x1_0000_0000
  {
    assert PowerOf2(8) == 0x100;
    assert PowerOf2(16) == 0x1_0000;
    assert PowerOf2(24) == 0x100_0000;
  }

  lemma BinaryText(v: nat, b: string)
    requires |Digits(v, 2, false)| <= 32 && b == if v == 0 then "0" else Digits(v, 2, false)
    ensures NtoaText(v, false, 2, 0, 0, NO_FLAGS) == Reverse(b)
  {
    hide Digits, Reverse;
    assert Repeat('0', 0 - |b|) == "" && Repeat(' ', 0 - |b|) == "";
    Ends(b);
    Ends(Reverse(b));
  }
}

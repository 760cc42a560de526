/** The number code against the standard: when the two texts are the same. */
module PrintfStandard {
  import opened PrintfText

  function HexPrefix(base: nat, f: Flags): string {
    if f.hash && base == 16 then (if f.uppercase then "0X" else "0x") else ""
  }

  function DigitsBody(b: string, base: nat, precision: nat, f: Flags): string {
    var zeros := Repeat('0', precision - |b|) + Reverse(b);
    if f.hash && base == 8 && precision <= |b| then "0" + zeros else zeros
  }

  /** The standard's text for digits already written and '#' already decided. */
  function DigitsText(b: string, negative: bool, base: nat, precision: nat, width: nat, f: Flags): string {
    Laid(Sign(negative, f) + HexPrefix(base, f), DigitsBody(b, base, precision, f), width, f.left, f.zeropad)
  }

  function DigitsLength(b: string, negative: bool, base: nat, precision: nat, width: nat, f: Flags): nat {
    LaidLength(Sign(negative, f) + HexPrefix(base, f), DigitsBody(b, base, precision, f), width, f.left, f.zeropad)
  }

  lemma ReverseParts(b: string, z: int, pre: string)
    ensures Reverse(b + Repeat('0', z) + pre) == Reverse(pre) + Repeat('0', z) + Reverse(b)
  {
    hide Reverse, Repeat;
    ReverseJoin(b + Repeat('0', z), pre);
    ReverseJoin(b, Repeat('0', z));
    ReverseRepeat('0', z);
  }

  /** The reversed prefix that the code pushes. */
  function Pushed(negative: bool, base: nat, octal: bool, f: Flags): string {
    (if f.hash && base == 16 then (if f.uppercase then "X0" else "x0") else if octal then "0" else "") + Sign(negative, f)
  }

  /** Without zero padding to the width. */
  lemma AssembledToPrecision(b: string, negative: bool, base: nat, precision: nat, width: nat, f: Flags)
    requires base == 8 || base == 10 || base == 16
    requires base == 10 ==> !f.hash
    requires base != 10 ==> !negative && !f.plus && !f.space
    requires !f.zeropad || f.left
    requires !f.precision ==> precision == 0
    requires DigitsLength(b, negative, base, precision, width, f) <= NTOA_BUFFER_SIZE
    ensures Assembled(b, negative, base, precision, width, f)
            == b + Repeat('0', precision - |b|) + Pushed(negative, base, f.hash && base == 8 && precision <= |b|, f)
  {
    hide DigitsLength, Repeat, TakenBack, ZeroFilled, Pushed, Sign;
    LengthIs(b, negative, base, precision, width, f);
    SignLength(negative, f);
    var octal := f.hash && base == 8 && precision <= |b|;
    PushedIs(negative, base, octal, f);
    var filled := b + Repeat('0', precision - |b|);
    ZeroFilledToPrecision(b, precision, width, f);
    NothingTakenBack(b, base, precision, width, f);
    assert TakenBack(filled, |b|, base, precision, width, f) == filled by {
      KeptWithPrecision(filled, |b|, base, precision, width, f);
      if !f.precision {
        assert Repeat('0', 0 - |b|) == "";
        Ends(b);
      }
    }
    if f.hash {
      NoSign(negative, f);
    }
  }

  lemma PushedIs(negative: bool, base: nat, octal: bool, f: Flags)
    requires base == 10 ==> !f.hash
    requires base != 10 ==> !negative && !f.plus && !f.space
    requires octal ==> f.hash && base == 8
    ensures f.hash && base == 16 ==> Pushed(negative, base, octal, f) == (if f.uppercase then "X0" else "x0")
    ensures f.hash && base != 16 ==> Pushed(negative, base, octal, f) == (if octal then "0" else "")
    ensures !f.hash ==> Pushed(negative, base, octal, f) == Sign(negative, f)
    ensures |HexPrefix(base, f)| == if f.hash && base == 16 then 2 else 0
  {
  }

  lemma NoSign(negative: bool, f: Flags)
    requires !negative && !f.plus && !f.space
    ensures Sign(negative, f) == ""
  {
  }

  lemma KeptWithPrecision(b: string, unpadded: nat, base: nat, precision: nat, width: nat, f: Flags)
    ensures f.precision ==> TakenBack(b, unpadded, base, precision, width, f) == b
  {
  }

  lemma ZeroFilledToPrecision(b: string, precision: nat, width: nat, f: Flags)
    requires (!f.zeropad || f.left) && precision <= NTOA_BUFFER_SIZE
    ensures ZeroFilled(b, precision, width, f) == b + Repeat('0', precision - |b|)
  {
  }

  lemma LengthIs(b: string, negative: bool, base: nat, precision: nat, width: nat, f: Flags)
    requires !f.zeropad || f.left
    ensures DigitsLength(b, negative, base, precision, width, f) ==
              |Sign(negative, f)| + |HexPrefix(base, f)| + (if precision > |b| then precision else |b|)
              + (if f.hash && base == 8 && precision <= |b| then 1 else 0)
  {
  }


  lemma ChopZero(b: string, z: int)
    ensures Chop(b + Repeat('0', z), |b|) == b + Repeat('0', z - 1)
  {
  }

  /** Taking back removes up to two padding zeros and never a digit. */
  lemma TakesBackZeros(b: string, width: nat, f: Flags)
    requires !f.precision
    ensures TakenBack(b + Repeat('0', width - |b|), |b|, 16, 0, width, f) == b + Repeat('0', width - |b| - 2)
  {
    hide Chop, Repeat;
    ChopZero(b, width - |b|);
    ChopZero(b, width - |b| - 1);
    assert Repeat('0', width - |b| - 1) == "" ==> Repeat('0', width - |b| - 2) == "";
    if |b| >= width {
      assert b + Repeat('0', width - |b|) == b + Repeat('0', width - |b| - 2) == b;
    }
  }

  lemma ZeroFilledToWidth(b: string, width: nat, f: Flags)
    requires f.zeropad && !f.left && width <= NTOA_BUFFER_SIZE
    ensures ZeroFilled(b, 0, width, f) == b + Repeat('0', width - |b|)
  {
    hide Repeat;
    assert forall s: string :: s + Repeat('0', 0 - |s|) == s;
  }

  lemma AssembledHex(b: string, width: nat, f: Flags)
    requires f.hash && f.zeropad && !f.left && !f.precision && !f.plus && !f.space
    requires |b| + 2 <= NTOA_BUFFER_SIZE && width <= NTOA_BUFFER_SIZE
    ensures Assembled(b, false, 16, 0, width, f) == b + Repeat('0', width - |b| - 2) + (if f.uppercase then "X0" else "x0")
  {
    hide Repeat, TakenBack, ZeroFilled;
    ZeroFilledToWidth(b, width, f);
    TakesBackZeros(b, width, f);
  }

  lemma AssembledOctal(b: string, width: nat, f: Flags)
    requires f.hash && f.zeropad && !f.left && !f.precision && !f.plus && !f.space
    requires |b| + (if width <= |b| then 1 else 0) <= NTOA_BUFFER_SIZE && width <= NTOA_BUFFER_SIZE
    ensures Assembled(b, false, 8, 0, width, f) == b + Repeat('0', width - |b|) + (if width <= |b| then "0" else "")
  {
    hide Repeat, TakenBack, ZeroFilled;
    ZeroFilledToWidth(b, width, f);
    NothingTakenBack(b, 8, 0, width, f);
    assert width <= |b| ==> b + Repeat('0', width - |b|) == b;
  }

  lemma AssembledPlain(b: string, negative: bool, base: nat, width: nat, f: Flags)
    requires !f.hash && f.zeropad && !f.left && !f.precision
    requires |b| + |Sign(negative, f)| <= NTOA_BUFFER_SIZE && width + |Sign(negative, f)| <= NTOA_BUFFER_SIZE
    ensures Assembled(b, negative, base, 0, width, f) == b + Repeat('0', width - |b|) + Sign(negative, f)
  {
    hide Repeat, TakenBack, ZeroFilled;
    ZeroFilledToWidth(b, width, f);
  }

  lemma NothingTakenBack(b: string, base: nat, precision: nat, width: nat, f: Flags)
    ensures TakenBack(b, |b|, base, precision, width, f) == b
  {
  }

  /** Hexadecimal with '#': the prefix takes the place of two zeros. */
  lemma HexIsDigitsText(b: string, width: nat, f: Flags)
    requires f.hash && f.zeropad && !f.left && !f.precision && !f.plus && !f.space
    requires |b| + 2 <= NTOA_BUFFER_SIZE && width <= NTOA_BUFFER_SIZE
    ensures FormatText(b, false, 16, 0, width, f) == DigitsText(b, false, 16, 0, width, f)
  {
    hide Assembled, Repeat, Reverse;
    var z, pre := width - |b| - 2, if f.uppercase then "X0" else "x0";
    AssembledHex(b, width, f);
    ReverseParts(b, z, pre);
    assert Reverse(pre) == if f.uppercase then "0X" else "0x" by { ReverseTwo(pre); }
    Ends(Reverse(b + Repeat('0', z) + pre));
    Ends(Reverse(b));
    Ends(if f.uppercase then "0X" else "0x");
    assert Repeat('0', 0 - |b|) == "";
  }

  lemma ReverseTwo(s: string)
    ensures |s| == 2 ==> Reverse(s) == [s[1], s[0]]
    ensures |s| == 1 ==> Reverse(s) == s
    ensures Reverse("") == ""
  {
  }

  /** Octal with '#': any padding zero does for the prefix. */
  lemma OctalIsDigitsText(b: string, width: nat, f: Flags)
    requires f.hash && f.zeropad && !f.left && !f.precision && !f.plus && !f.space
    requires |b| + 1 <= NTOA_BUFFER_SIZE && width <= NTOA_BUFFER_SIZE
    ensures FormatText(b, false, 8, 0, width, f) == DigitsText(b, false, 8, 0, width, f)
  {
    hide Assembled, Repeat, Reverse;
    var z, pre := width - |b|, if width <= |b| then "0" else "";
    AssembledOctal(b, width, f);
    ReverseParts(b, z, pre);
    ReverseTwo(pre);
    Ends(Reverse(b + Repeat('0', z) + pre));
    Ends(Reverse(b));
    assert Repeat('0', 0 - |b|) == "";
    OctalZero(z, Reverse(b));
  }

  lemma OctalZero(z: int, digits: string)
    ensures Repeat('0', z - 1) + ("0" + digits) == (if z <= 0 then "0" else "") + Repeat('0', z) + digits
  {
  }

  /** No '#': zeros between the sign and the digits. */
  lemma PlainIsDigitsText(b: string, negative: bool, base: nat, width: nat, f: Flags)
    requires !f.hash && f.zeropad && !f.left && !f.precision
    requires |b| + |Sign(negative, f)| <= NTOA_BUFFER_SIZE && width <= NTOA_BUFFER_SIZE
    ensures FormatText(b, negative, base, 0, width, f) == DigitsText(b, negative, base, 0, width, f)
  {
    hide Assembled, Repeat, Reverse, Sign;
    SignLength(negative, f);
    var w, sign := WidthLeft(negative, width, f), Sign(negative, f);
    AssembledPlain(b, negative, base, w, f);
    ReverseParts(b, w - |b|, sign);
    ReverseTwo(sign);
    Ends(Reverse(b + Repeat('0', w - |b|) + sign));
    Ends(Reverse(b));
    Ends(sign);
    assert Repeat('0', 0 - |b|) == "";
    assert Repeat('0', width - |sign| - |b|) == Repeat('0', w - |b|);
  }

  lemma Ends(s: string)
    ensures "" + s == s && s + "" == s
  {
  }

  lemma SignLength(negative: bool, f: Flags)
    ensures |Sign(negative, f)| == if negative || f.plus || f.space then 1 else 0
  {
  }

  lemma Assoc(s: string, t: string, u: string)
    ensures s + (t + u) == s + t + u
  {
  }

  lemma ToPrecisionIsDigitsText(b: string, negative: bool, base: nat, precision: nat, width: nat, f: Flags)
    requires base == 8 || base == 10 || base == 16
    requires base == 10 ==> !f.hash
    requires base != 10 ==> !negative && !f.plus && !f.space
    requires !f.zeropad || f.left
    requires !f.precision ==> precision == 0
    requires DigitsLength(b, negative, base, precision, width, f) <= NTOA_BUFFER_SIZE
    ensures FormatText(b, negative, base, precision, width, f) == DigitsText(b, negative, base, precision, width, f)
  {
    hide Assembled, Reverse, DigitsBody, HexPrefix, Sign, Laid, OutRevText, DigitsLength;
    ReversedToPrecision(b, negative, base, precision, width, f);
    OutRevIsLaid(Assembled(b, negative, base, precision, width, f), Sign(negative, f) + HexPrefix(base, f),
                 DigitsBody(b, base, precision, f), width, f);
  }

  lemma ReversedToPrecision(b: string, negative: bool, base: nat, precision: nat, width: nat, f: Flags)
    requires base == 8 || base == 10 || base == 16
    requires base == 10 ==> !f.hash
    requires base != 10 ==> !negative && !f.plus && !f.space
    requires !f.zeropad || f.left
    requires !f.precision ==> precision == 0
    requires DigitsLength(b, negative, base, precision, width, f) <= NTOA_BUFFER_SIZE
    ensures Reverse(Assembled(b, negative, base, precision, width, f))
            == Sign(negative, f) + HexPrefix(base, f) + DigitsBody(b, base, precision, f)
  {
    hide Assembled, Repeat, Reverse, Pushed, HexPrefix, Sign, DigitsLength;
    AssembledToPrecision(b, negative, base, precision, width, f);
    var octal := f.hash && base == 8 && precision <= |b|;
    ReverseParts(b, precision - |b|, Pushed(negative, base, octal, f));
    ReversePushed(negative, base, octal, f);
    var prefix, zeros := Sign(negative, f) + HexPrefix(base, f), Repeat('0', precision - |b|) + Reverse(b);
    Assoc(prefix, "0", zeros);
    Assoc(prefix + if octal then "0" else "", Repeat('0', precision - |b|), Reverse(b));
    Ends(prefix);
  }

  /** Without zeros to the width, the padding is spaces on one side. */
  lemma OutRevIsLaid(b: string, prefix: string, body: string, width: nat, f: Flags)
    requires Reverse(b) == prefix + body && (!f.zeropad || f.left)
    ensures OutRevText(b, width, f) == Laid(prefix, body, width, f.left, f.zeropad)
  {
    hide Repeat, Reverse;
    var spaces := Repeat(' ', width - |b|);
    Ends(prefix + body);
    Ends(spaces + (prefix + body));
    Assoc(spaces, prefix, body);
  }

  /** The code's text is the standard's as long as the number itself fits the buffer. */
  lemma FormatIsDigitsText(b: string, negative: bool, base: nat, precision: nat, width: nat, f: Flags)
    requires base == 8 || base == 10 || base == 16
    requires base == 10 ==> !f.hash
    requires base != 10 ==> !negative && !f.plus && !f.space
    requires f.precision ==> !f.zeropad
    requires !f.precision ==> precision == 0
    requires DigitsLength(b, negative, base, precision, width, f) <= NTOA_BUFFER_SIZE
    ensures FormatText(b, negative, base, precision, width, f) == DigitsText(b, negative, base, precision, width, f)
  {
    hide FormatText, DigitsText;
    if f.zeropad && !f.left {
      if f.hash && base == 16 {
        HexIsDigitsText(b, width, f);
      } else if f.hash {
        OctalIsDigitsText(b, width, f);
      } else {
        PlainIsDigitsText(b, negative, base, width, f);
      }
    } else {
      ToPrecisionIsDigitsText(b, negative, base, precision, width, f);
    }
  }

  lemma ReversePushed(negative: bool, base: nat, octal: bool, f: Flags)
    requires base == 10 ==> !f.hash
    requires base != 10 ==> !negative && !f.plus && !f.space
    requires octal ==> base == 8
    ensures Reverse(Pushed(negative, base, octal, f)) == Sign(negative, f) + HexPrefix(base, f) + (if octal then "0" else "")
  {
  }

  lemma {:induction false} TopDigit(value: nat, base: nat, uppercase: bool)
    requires 2 <= base <= 16 && value > 0
    ensures var d := Digits(value, base, uppercase); |d| > 0 && d[|d| - 1] != '0'
  {
    hide Digits, DigitChar;
    DivMod(value, base);
    DigitsStep(value, base, uppercase);
    if value / base > 0 {
      TopDigit(value / base, base, uppercase);
    } else {
      NoDigits(base, uppercase);
      PositiveDigit(value % base, uppercase);
    }
  }

  lemma PositiveDigit(digit: nat, uppercase: bool)
    requires 0 < digit < 16
    ensures DigitChar(digit, uppercase) != '0'
  {
  }

  lemma LeadsWithDigit(value: nat, base: nat, uppercase: bool)
    requires 2 <= base <= 16 && value > 0
    ensures var d := Reverse(Digits(value, base, uppercase)); |d| > 0 && d[0] != '0'
  {
    TopDigit(value, base, uppercase);
  }

  lemma BodyOfZero(base: nat, precision: nat, f: Flags)
    requires base == 8 || base == 10 || base == 16
    requires base == 10 ==> !f.hash
    requires f.precision
    ensures DigitsBody(NtoaDigits(0, base, f), base, precision, NtoaFlags(0, base, f)) == C11Body(0, base, precision, f)
  {
    hide Digits, Reverse;
    NoDigits(base, f.uppercase);
    Ends(Repeat('0', precision));
  }

  lemma BodyOfPlainZero(base: nat, f: Flags)
    requires base == 8 || base == 10 || base == 16
    requires !f.precision
    ensures DigitsBody(NtoaDigits(0, base, f), base, 0, NtoaFlags(0, base, f)) == C11Body(0, base, 0, f)
  {
    hide Digits, Reverse;
    NoDigits(base, f.uppercase);
    ReverseTwo("0");
    assert Repeat('0', 1) == "0" && Repeat('0', -1) == "";
    Ends("0");
  }

  lemma BodyOfPositive(value: nat, base: nat, precision: nat, f: Flags)
    requires 0 < value < ULLONG && (base == 8 || base == 10 || base == 16)
    requires !f.precision ==> precision == 0
    ensures DigitsBody(NtoaDigits(value, base, f), base, precision, f) == C11Body(value, base, precision, f)
  {
    hide Digits, Reverse;
    DigitsFit(value, base, f.uppercase);
    LeadsWithDigit(value, base, f.uppercase);
    var b := Digits(value, base, f.uppercase);
    assert !f.precision ==> Repeat('0', 0 - |b|) == Repeat('0', 1 - |b|);
    var body := Repeat('0', precision - |b|) + Reverse(b);
    assert precision <= |b| <==> body[0] != '0';
  }

  /** The digits with '#' as the code leaves it give the standard's body and prefix. */
  lemma DigitsTextIsC11(value: nat, negative: bool, base: nat, precision: nat, width: nat, f: Flags)
    requires Proper(value, negative, base, precision, f)
    ensures var b, g := NtoaDigits(value, base, f), NtoaFlags(value, base, f);
            && DigitsText(b, negative, base, precision, width, g) == C11Text(value, negative, base, precision, width, f)
            && DigitsLength(b, negative, base, precision, width, g) == C11Length(value, negative, base, precision, width, f)
            && |b| <= 22
  {
    hide Digits, Reverse, C11Body, DigitsBody, Laid, LaidLength;
    DigitsFit(value, base, f.uppercase);
    var b, g := NtoaDigits(value, base, f), NtoaFlags(value, base, f);
    assert DigitsBody(b, base, precision, g) == C11Body(value, base, precision, f) by {
      if value > 0 {
        BodyOfPositive(value, base, precision, f);
      } else if f.precision {
        BodyOfZero(base, precision, f);
      } else {
        BodyOfPlainZero(base, f);
      }
    }
    assert Sign(negative, g) == Sign(negative, f);
    assert C11Prefix(value, negative, base, f) == Sign(negative, g) + HexPrefix(base, g);
  }

  lemma AssembledFits(b: string, negative: bool, base: nat, precision: nat, width: nat, f: Flags)
    requires |b| <= NTOA_BUFFER_SIZE
    ensures |Assembled(b, negative, base, precision, width, f)| <= NTOA_BUFFER_SIZE
  {
    hide Repeat;
  }

  /** The number code writes what the standard asks for whenever the number, with its sign, prefix
      and zeros, fits the 32 characters of the buffer. */
  lemma MeetsStandard(value: nat, negative: bool, base: nat, precision: nat, width: nat, f: Flags)
    requires Proper(value, negative, base, precision, f)
    requires C11Length(value, negative, base, precision, width, f) <= NTOA_BUFFER_SIZE
    ensures NtoaText(value, negative, base, precision, width, f) == C11Text(value, negative, base, precision, width, f)
  {
    hide FormatText, DigitsText, DigitsLength, C11Text, C11Length, NtoaDigits;
    DigitsTextIsC11(value, negative, base, precision, width, f);
    FormatIsDigitsText(NtoaDigits(value, base, f), negative, base, precision, width, NtoaFlags(value, base, f));
  }

  predicate NoSpaces(s: string) { forall i | 0 <= i < |s| :: s[i] != ' ' }

  lemma DigitIsNoSpace(digit: nat, uppercase: bool)
    requires digit < 16
    ensures DigitChar(digit, uppercase) != ' '
  {
  }

  lemma {:induction false} DigitsNoSpaces(value: nat, base: nat, uppercase: bool)
    requires 2 <= base <= 16
    ensures NoSpaces(Digits(value, base, uppercase))
  {
    hide Digits, DigitChar;
    if value == 0 {
      NoDigits(base, uppercase);
    } else {
      DivMod(value, base);
      DigitsNoSpaces(value / base, base, uppercase);
      DigitsStep(value, base, uppercase);
      DigitIsNoSpace(value % base, uppercase);
    }
  }

  lemma BodyNoSpaces(value: nat, base: nat, precision: nat, f: Flags)
    requires 2 <= base <= 16
    ensures NoSpaces(C11Body(value, base, precision, f))
  {
    hide Digits, Repeat;
    DigitsNoSpaces(value, base, f.uppercase);
    assert NoSpaces(Reverse(Digits(value, base, f.uppercase)));
  }

  /** A number that is one too long still comes out right if its sign is a space and the width
      puts another space there. */
  predicate SpaceForSign(value: nat, negative: bool, base: nat, precision: nat, width: nat, f: Flags)
    requires 2 <= base <= 16
  {
    && Sign(negative, f) == " " && !f.left && !f.zeropad
    && C11Length(value, negative, base, precision, width, f) == NTOA_BUFFER_SIZE + 1 <= width
  }

  lemma LaidShape(prefix: string, body: string, width: nat, left: bool, zeropad: bool)
    ensures var t, n := Laid(prefix, body, width, left, zeropad), |prefix| + |body|;
            && |t| == (if n < width then width else n)
            && (!left && !zeropad && n <= width ==> forall i | 0 <= i < n :: t[width - n + i] == (prefix + body)[i])
            && (left && n > 0 ==> t[n - 1] == (prefix + body)[n - 1])
  {
    hide Repeat;
  }

  lemma OutRevShape(b: string, width: nat, f: Flags)
    ensures var t := OutRevText(b, width, f);
            && (f.zeropad && !f.left ==> |t| == |b|)
            && (!f.zeropad || f.left ==> |t| == if |b| < width then width else |b|)
            && (!f.zeropad && !f.left ==> forall i | 0 <= i < width - |b| :: t[i] == ' ')
            && (f.left ==> forall i | |b| <= i < |t| :: t[i] == ' ')
  {
    hide Repeat;
  }

  lemma BodyEnds(body: string)
    requires NoSpaces(body) && body != ""
    ensures body[0] != ' ' && body[|body| - 1] != ' '
  {
  }

  /** A number cut off to fit the buffer leaves a space of padding where a character belongs. */
  lemma PaddingTells(b: string, prefix: string, body: string, width: nat, f: Flags)
    requires |b| <= NTOA_BUFFER_SIZE < |prefix| + |body| <= width && (!f.zeropad || f.left)
    requires NoSpaces(body) && |prefix| <= 3
    requires f.left || prefix == "" || prefix[0] != ' ' || (prefix == " " && |prefix| + |body| > NTOA_BUFFER_SIZE + 1)
    ensures OutRevText(b, width, f) != Laid(prefix, body, width, f.left, f.zeropad)
  {
    hide OutRevText, Laid, NoSpaces;
    var n, ours, theirs := |prefix| + |body|, OutRevText(b, width, f), Laid(prefix, body, width, f.left, f.zeropad);
    OutRevShape(b, width, f);
    LaidShape(prefix, body, width, f.left, f.zeropad);
    BodyEnds(body);
    if f.left {
      assert ours[n - 1] == ' ' && theirs[n - 1] == (prefix + body)[n - 1] == body[|body| - 1];
    } else if prefix == " " {
      assert ours[width - n + 1] == ' ' && theirs[width - n + 1] == (prefix + body)[1] == body[0];
    } else {
      assert ours[width - n + 0] == ' ' && theirs[width - n + 0] == (prefix + body)[0];
    }
  }

  /** Where there is no padding of spaces, it is too short. */
  lemma LengthTells(b: string, prefix: string, body: string, width: nat, w: nat, f: Flags)
    requires |b| <= NTOA_BUFFER_SIZE && (w == width || (f.zeropad && !f.left))
    requires NTOA_BUFFER_SIZE < LaidLength(prefix, body, width, f.left, f.zeropad)
    requires (f.zeropad && !f.left) || |prefix| + |body| > width
    ensures OutRevText(b, w, f) != Laid(prefix, body, width, f.left, f.zeropad)
  {
    hide OutRevText, Laid;
    OutRevShape(b, w, f);
    LaidShape(prefix, body, width, f.left, f.zeropad);
  }

  lemma PrefixOf(value: nat, negative: bool, base: nat, f: Flags)
    requires base != 10 ==> !negative && !f.plus && !f.space
    requires base == 10 ==> !f.hash
    ensures var prefix := C11Prefix(value, negative, base, f);
            && |prefix| <= 2 && (prefix == "" || prefix[0] != ' ' || prefix == " ")
            && (prefix == " " <==> Sign(negative, f) == " ")
  {
  }

  lemma TooLong(value: nat, negative: bool, base: nat, precision: nat, width: nat, f: Flags)
    requires Proper(value, negative, base, precision, f)
    requires C11Length(value, negative, base, precision, width, f) > NTOA_BUFFER_SIZE
    requires !SpaceForSign(value, negative, base, precision, width, f)
    ensures NtoaText(value, negative, base, precision, width, f) != C11Text(value, negative, base, precision, width, f)
  {
    hide Assembled, OutRevText, Laid, C11Body, C11Prefix, NtoaDigits, Sign, NoSpaces;
    var prefix, body := C11Prefix(value, negative, base, f), C11Body(value, base, precision, f);
    var b, g := NtoaDigits(value, base, f), NtoaFlags(value, base, f);
    NtoaDigitsFit(value, base, f);
    var w := WidthLeft(negative, width, g);
    var assembled := Assembled(b, negative, base, precision, w, g);
    AssembledFits(b, negative, base, precision, w, g);
    PrefixOf(value, negative, base, f);
    if (f.left || !f.zeropad) && |prefix| + |body| <= width {
      BodyNoSpaces(value, base, precision, f);
      PaddingTells(assembled, prefix, body, width, g);
    } else {
      LengthTells(assembled, prefix, body, width, w, g);
    }
  }

  lemma NtoaDigitsFit(value: nat, base: nat, f: Flags)
    requires 2 <= base <= 16
    ensures |NtoaDigits(value, base, f)| <= NTOA_BUFFER_SIZE
  {
  }

  /** A full buffer has no room for the sign. */
  lemma SignDropped(b: string, negative: bool, base: nat, width: nat, f: Flags)
    requires !f.hash && !f.zeropad && |b| <= NTOA_BUFFER_SIZE
    ensures Assembled(b, negative, base, NTOA_BUFFER_SIZE, width, f) == b + Repeat('0', NTOA_BUFFER_SIZE - |b|)
  {
    hide Repeat, TakenBack, ZeroFilled;
    ZeroFilledToPrecision(b, NTOA_BUFFER_SIZE, width, f);
  }

  lemma ReverseFilled(b: string, z: int)
    ensures Reverse(b + Repeat('0', z)) == Repeat('0', z) + Reverse(b)
  {
    ReverseJoin(b, Repeat('0', z));
    ReverseRepeat('0', z);
  }

  /** That happens to decimal numbers whose digits fill the buffer. */
  lemma SpaceFacts(value: nat, negative: bool, base: nat, precision: nat, width: nat, f: Flags)
    requires Proper(value, negative, base, precision, f)
    requires SpaceForSign(value, negative, base, precision, width, f)
    ensures base == 10 && !f.hash && !f.left && !f.zeropad && C11Prefix(value, negative, base, f) == " "
    ensures precision == NTOA_BUFFER_SIZE < width && |C11Body(value, base, precision, f)| == precision
    ensures var b := NtoaDigits(value, base, f);
            |b| <= precision && C11Body(value, base, precision, f) == Repeat('0', precision - |b|) + Reverse(b)
  {
    hide Digits, Reverse, Repeat, C11Body, NtoaDigits;
    BodyWithoutHash(value, negative, base, precision, width, f);
    NtoaDigitsShort(value, base, f);
  }

  lemma NtoaDigitsShort(value: nat, base: nat, f: Flags)
    requires 8 <= base <= 16 && value < ULLONG
    ensures |NtoaDigits(value, base, f)| <= 22
  {
    hide Digits;
    DigitsFit(value, base, f.uppercase);
  }

  lemma SpaceSigned(value: nat, negative: bool, base: nat, precision: nat, width: nat, f: Flags)
    requires Proper(value, negative, base, precision, f)
    requires SpaceForSign(value, negative, base, precision, width, f)
    ensures NtoaText(value, negative, base, precision, width, f) == C11Text(value, negative, base, precision, width, f)
  {
    hide Reverse, Repeat, Assembled, NtoaText, OutRevText, C11Body, C11Prefix, NtoaDigits, Proper, SpaceForSign, Sign;
    SpaceFacts(value, negative, base, precision, width, f);
    var b, g := NtoaDigits(value, base, f), NtoaFlags(value, base, f);
    NtoaDigitsFit(value, base, f);
    SignDropped(b, negative, base, width, g);
    ReverseFilled(b, precision - |b|);
    PlainOutRev(Assembled(b, negative, base, precision, width, g), width, g);
    Unfolded(value, negative, base, precision, width, f);
    OneMoreSpace(width - NTOA_BUFFER_SIZE, C11Body(value, base, precision, f));
  }

  lemma BodyWithoutHash(value: nat, negative: bool, base: nat, precision: nat, width: nat, f: Flags)
    requires Proper(value, negative, base, precision, f) && base == 10
    ensures var b := NtoaDigits(value, base, f); C11Body(value, base, precision, f) == Repeat('0', precision - |b|) + Reverse(b)
  {
    if value > 0 {
      BodyOfPositive(value, base, precision, f);
    } else if f.precision {
      BodyOfZero(base, precision, f);
    } else {
      BodyOfPlainZero(base, f);
    }
  }

  lemma Unfolded(value: nat, negative: bool, base: nat, precision: nat, width: nat, f: Flags)
    requires 2 <= base <= 16 && !f.zeropad
    ensures NtoaText(value, negative, base, precision, width, f) ==
              OutRevText(Assembled(NtoaDigits(value, base, f), negative, base, precision, width, NtoaFlags(value, base, f)),
                         width, NtoaFlags(value, base, f))
  {
  }

  lemma PlainOutRev(b: string, width: nat, f: Flags)
    requires !f.left && !f.zeropad
    ensures OutRevText(b, width, f) == Repeat(' ', width - |b|) + Reverse(b)
  {
    Ends(Repeat(' ', width - |b|) + Reverse(b));
  }

  lemma OneMoreSpace(n: nat, body: string)
    requires n > 0
    ensures Repeat(' ', n - 1) + " " + body == Repeat(' ', n) + body
  {
  }

  /** Exactly when the number code writes what the standard asks for. */
  lemma NtoaIsStandard(value: nat, negative: bool, base: nat, precision: nat, width: nat, f: Flags)
    requires Proper(value, negative, base, precision, f)
    ensures NtoaText(value, negative, base, precision, width, f) == C11Text(value, negative, base, precision, width, f)
            <==> C11Length(value, negative, base, precision, width, f) <= NTOA_BUFFER_SIZE
                 || SpaceForSign(value, negative, base, precision, width, f)
  {
    hide NtoaText, C11Text, C11Length, SpaceForSign;
    if C11Length(value, negative, base, precision, width, f) <= NTOA_BUFFER_SIZE {
      MeetsStandard(value, negative, base, precision, width, f);
    } else if SpaceForSign(value, negative, base, precision, width, f) {
      SpaceSigned(value, negative, base, precision, width, f);
    } else {
      TooLong(value, negative, base, precision, width, f);
    }
  }

  /** Widths and precisions up to 29 are always in order. */
  lemma ModerateFits(value: nat, negative: bool, base: nat, precision: nat, width: nat, f: Flags)
    requires Proper(value, negative, base, precision, f) && precision <= 29 && width <= 29
    ensures C11Length(value, negative, base, precision, width, f) <= 31
    ensures |C11Text(value, negative, base, precision, width, f)| >= width
  {
    hide Digits, Reverse, Repeat;
    DigitsFit(value, base, f.uppercase);
    SignLength(negative, f);
    LaidShape(C11Prefix(value, negative, base, f), C11Body(value, base, precision, f), width, f.left, f.zeropad);
  }

  /** The digits of the standard's text, padding zeros and all, read back as the value. */
  lemma BodyReadsBack(value: nat, base: nat, precision: nat, f: Flags)
    requires 2 <= base <= 16
    ensures ReadNumeral(C11Body(value, base, precision, f), base) == value
  {
    hide Digits, Reverse, Repeat, ReadNumeral;
    DigitsReadBack(value, base, f.uppercase);
    var digits := Reverse(Digits(value, base, f.uppercase));
    var zeros := Repeat('0', (if f.precision then precision else 1) - |digits|);
    LeadingZeros(|zeros|, digits, base);
    LeadingZeros(1, zeros + digits, base);
    assert Repeat('0', 1) == "0" by { SingleZero(); }
    assert zeros == Repeat('0', |zeros|);
  }

  lemma SingleZero()
    ensures Repeat('0', 1) == "0"
  {
  }
}

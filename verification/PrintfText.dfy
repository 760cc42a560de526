/** Integer formatting: what printf's number code writes, as a function of its arguments, and what
    section 7.21.6.1 of ISO/IEC 9899:2011 asks for. */
module PrintfText {
  const NTOA_BUFFER_SIZE: nat := 32
  const ULLONG: nat := 0x1_0000_0000_0000_0000  // 2^64

  datatype Size = Plain | Char | Short | Long | LongLong

  datatype Flags = Flags(zeropad: bool, left: bool, plus: bool, space: bool, hash: bool, uppercase: bool, precision: bool, size: Size)

  // ----- strings

  function Repeat(c: char, n: int): (s: string)
    ensures |s| == if n < 0 then 0 else n
    ensures forall i | 0 <= i < |s| :: s[i] == c
    decreases if n < 0 then 0 else n
  {
    if n <= 0 then "" else Repeat(c, n - 1) + [c]
  }

  function Reverse(s: string): (r: string)
    ensures |r| == |s|
    ensures forall i | 0 <= i < |s| :: r[i] == s[|s| - 1 - i]
  {
    if s == "" then "" else [s[|s| - 1]] + Reverse(s[..|s| - 1])
  }

  lemma ReverseJoin(s: string, t: string)
    ensures Reverse(s + t) == Reverse(t) + Reverse(s)
  {
  }

  lemma ReverseRepeat(c: char, n: int)
    ensures Reverse(Repeat(c, n)) == Repeat(c, n)
  {
  }

  // ----- digits

  function DigitChar(digit: nat, uppercase: bool): char
    requires digit < 16
  {
    if digit < 10 then '0' + digit as char else (if uppercase then 'A' else 'a') + (digit - 10) as char
  }

  /** The digits of a number, lowest first; none for 0. */
  function Digits(value: nat, base: nat, uppercase: bool): string
    requires 2 <= base <= 16
  {
    if value == 0 then ""
    else
      DivMod(value, base);
      [DigitChar(value % base, uppercase)] + Digits(value / base, base, uppercase)
  }

  function DigitValue(c: char): nat {
    if '0' <= c <= '9' then (c - '0') as nat
    else if 'a' <= c <= 'f' then (c - 'a') as nat + 10
    else if 'A' <= c <= 'F' then (c - 'A') as nat + 10
    else 0
  }

  /** The number that a numeral stands for. */
  function ReadNumeral(s: string, base: nat): nat {
    if s == "" then 0 else ReadNumeral(s[..|s| - 1], base) * base + DigitValue(s[|s| - 1])
  }

  lemma DigitCharReads(digit: nat, uppercase: bool)
    requires digit < 16
    ensures DigitValue(DigitChar(digit, uppercase)) == digit
  {
  }

  lemma DivMod(value: nat, base: nat)
    requires base >= 2
    ensures value == value / base * base + value % base && value % base < base
    ensures value > 0 ==> value / base < value
  {
  }

  lemma ReadStep(s: string, c: char, base: nat)
    ensures ReadNumeral(s + [c], base) == ReadNumeral(s, base) * base + DigitValue(c)
  {
    assert (s + [c])[..|s|] == s;
  }

  /** The digits of a positive number: its last digit first. */
  lemma DigitsStep(value: nat, base: nat, uppercase: bool)
    requires 2 <= base <= 16 && value > 0
    ensures Digits(value, base, uppercase) == [DigitChar(value % base, uppercase)] + Digits(value / base, base, uppercase)
  {
    DivMod(value, base);
  }

  lemma NoDigits(base: nat, uppercase: bool)
    requires 2 <= base <= 16
    ensures Digits(0, base, uppercase) == "" && Reverse("") == ""
  {
  }

  lemma NothingRead(base: nat)
    ensures ReadNumeral("", base) == 0
  {
  }

  lemma OneMoreDigit(rest: string, digit: nat, base: nat, uppercase: bool)
    requires 2 <= base <= 16 && digit < 16
    ensures ReadNumeral(Reverse([DigitChar(digit, uppercase)] + rest), base) == ReadNumeral(Reverse(rest), base) * base + digit
  {
    hide DigitChar, DigitValue, ReadNumeral, Reverse;
    var c := DigitChar(digit, uppercase);
    ReverseJoin([c], rest);
    assert Reverse([c]) == [c];
    ReadStep(Reverse(rest), c, base);
    DigitCharReads(digit, uppercase);
  }

  lemma {:induction false} DigitsReadBack(value: nat, base: nat, uppercase: bool)
    requires 2 <= base <= 16
    ensures ReadNumeral(Reverse(Digits(value, base, uppercase)), base) == value
  {
    hide Digits, DigitChar, ReadNumeral, Reverse;
    if value == 0 {
      NoDigits(base, uppercase);
      NothingRead(base);
    } else {
      DivMod(value, base);
      DigitsReadBack(value / base, base, uppercase);
      DigitsStep(value, base, uppercase);
      OneMoreDigit(Digits(value / base, base, uppercase), value % base, base, uppercase);
    }
  }

  lemma {:induction false} LeadingZeros(n: int, s: string, base: nat)
    ensures ReadNumeral(Repeat('0', n) + s, base) == ReadNumeral(s, base)
    decreases |s|, if n < 0 then 0 else n
  {
    var t := Repeat('0', n) + s;
    if s != "" {
      assert t[..|t| - 1] == Repeat('0', n) + s[..|s| - 1];
      LeadingZeros(n, s[..|s| - 1], base);
    } else if n > 0 {
      assert t[..|t| - 1] == Repeat('0', n - 1) + s;
      LeadingZeros(n - 1, s, base);
    }
  }

  function PowerOf8(n: nat): nat { if n == 0 then 1 else 8 * PowerOf8(n - 1) }

  lemma {:induction false} DigitsAtMost(value: nat, base: nat, uppercase: bool, n: nat)
    requires 8 <= base <= 16 && value < PowerOf8(n)
    ensures |Digits(value, base, uppercase)| <= n
  {
    hide Digits, PowerOf8;
    if value == 0 {
      NoDigits(base, uppercase);
    } else {
      DivLess(value, base);
      Eighth(value, n);
      DigitsAtMost(value / base, base, uppercase, n - 1);
      DigitsStep(value, base, uppercase);
    }
  }

  lemma Eighth(value: nat, n: nat)
    requires 0 < value < PowerOf8(n)
    ensures n > 0 && value / 8 < PowerOf8(n - 1)
  {
  }

  lemma DivLess(value: nat, base: nat)
    requires base >= 8
    ensures value / base <= value / 8
  {
    var q := value / base;
    DivMod(value, base);
    AtLeast(q, base);
  }

  lemma AtLeast(q: nat, base: nat)
    requires base >= 8
    ensures q * 8 <= q * base
  {
    assert q * base == q * 8 + q * (base - 8);
  }

  lemma PowerStep(n: nat)
    ensures PowerOf8(n + 4) == 4096 * PowerOf8(n)
  {
    assert PowerOf8(n + 4) == 8 * PowerOf8(n + 3) && PowerOf8(n + 3) == 8 * PowerOf8(n + 2);
    assert PowerOf8(n + 2) == 8 * PowerOf8(n + 1);
  }

  /** A 64-bit number has at most 22 digits in the bases of the standard. */
  lemma DigitsFit(value: nat, base: nat, uppercase: bool)
    requires 8 <= base <= 16 && value < ULLONG
    ensures |Digits(value, base, uppercase)| <= 22
  {
    PowerStep(0);
    PowerStep(4);
    PowerStep(8);
    PowerStep(12);
    PowerStep(16);
    assert PowerOf8(22) == 8 * (8 * PowerOf8(20));
    DigitsAtMost(value, base, uppercase, 22);
  }

  // ----- what the code writes

  function Min(a: int, b: int): int { if a < b then a else b }

  function Cut(s: string): string { if |s| <= NTOA_BUFFER_SIZE then s else s[..NTOA_BUFFER_SIZE] }

  /** The buffer, lowest digit first, filled up with zeros. */
  function Padded(b: string, upto: nat): string { b + Repeat('0', Min(upto, NTOA_BUFFER_SIZE) - |b|) }

  /** One place is kept for the sign when zeros fill the width. */
  function WidthLeft(negative: bool, width: nat, f: Flags): nat {
    if !f.left && width > 0 && f.zeropad && (negative || f.plus || f.space) then width - 1 else width
  }

  function Sign(negative: bool, f: Flags): string {
    if negative then "-" else if f.plus then "+" else if f.space then " " else ""
  }

  function Chop(b: string, keep: nat): string { if keep < |b| then b[..|b| - 1] else b }

  /** Padding zeros taken back to make room for the prefix. */
  function TakenBack(b: string, unpadded: nat, base: nat, precision: nat, width: nat, f: Flags): string {
    if !f.precision && |b| > 0 && (|b| == precision || |b| == width) then
      var c := Chop(b, unpadded);
      if |c| > 0 && base == 16 then Chop(c, unpadded) else c
    else b
  }

  function Push(b: string, c: char): string { if |b| < NTOA_BUFFER_SIZE then b + [c] else b }

  function Prefixed(b: string, base: nat, f: Flags): string {
    var c := if base == 16 then Push(b, if f.uppercase then 'X' else 'x') else if base == 2 then Push(b, 'b') else b;
    Push(c, '0')
  }

  function ZeroFilled(b: string, precision: nat, width: nat, f: Flags): string {
    Padded(if !f.left && f.zeropad then Padded(b, width) else b, precision)
  }

  /** The number with zeros, prefix and sign, reversed; `width` is what the sign leaves. */
  function Assembled(b: string, negative: bool, base: nat, precision: nat, width: nat, f: Flags): string {
    var filled := ZeroFilled(b, precision, width, f);
    var prefixed :=
      if f.hash && !(base == 8 && |filled| > |b|) then Prefixed(TakenBack(filled, |b|, base, precision, width, f), base, f)
      else filled;
    if |prefixed| < NTOA_BUFFER_SIZE then prefixed + Sign(negative, f) else prefixed
  }

  /** _out_rev. */
  function OutRevText(b: string, width: nat, f: Flags): string {
    (if !f.left && !f.zeropad then Repeat(' ', width - |b|) else "")
    + Reverse(b) + (if f.left then Repeat(' ', width - |b|) else "")
  }

  /** _ntoa_format. */
  function FormatText(b: string, negative: bool, base: nat, precision: nat, width: nat, f: Flags): string {
    var w := WidthLeft(negative, width, f);
    OutRevText(Assembled(b, negative, base, precision, w, f), w, f)
  }

  function NtoaFlags(value: nat, base: nat, f: Flags): Flags {
    if value == 0 && (!f.precision || base == 16) then f.(hash := false) else f
  }

  function NtoaDigits(value: nat, base: nat, f: Flags): string
    requires 2 <= base <= 16
  {
    if value == 0 && !f.precision then "0" else Cut(Digits(value, base, f.uppercase))
  }

  /** _ntoa. */
  function NtoaText(value: nat, negative: bool, base: nat, precision: nat, width: nat, f: Flags): string
    requires 2 <= base <= 16
  {
    FormatText(NtoaDigits(value, base, f), negative, base, precision, width, NtoaFlags(value, base, f))
  }

  // ----- what the standard asks for

  /** At least `precision` digits, 1 if none is given; an octal numeral begins with 0 if '#' is given. */
  function C11Body(value: nat, base: nat, precision: nat, f: Flags): string
    requires 2 <= base <= 16
  {
    var digits := Reverse(Digits(value, base, f.uppercase));
    var body := Repeat('0', (if f.precision then precision else 1) - |digits|) + digits;
    if f.hash && base == 8 && (body == "" || body[0] != '0') then "0" + body else body
  }

  function C11Prefix(value: nat, negative: bool, base: nat, f: Flags): string {
    Sign(negative, f) + if f.hash && base == 16 && value != 0 then (if f.uppercase then "0X" else "0x") else ""
  }

  /** The width is made up with spaces on the right, zeros behind the prefix, or spaces on the left. */
  function Laid(prefix: string, body: string, width: nat, left: bool, zeropad: bool): string {
    var pad := width - |prefix| - |body|;
    if left then prefix + body + Repeat(' ', pad)
    else if zeropad then prefix + Repeat('0', pad) + body
    else Repeat(' ', pad) + prefix + body
  }

  /** How many of these characters are not padding spaces. */
  function LaidLength(prefix: string, body: string, width: nat, left: bool, zeropad: bool): nat {
    var n := |prefix| + |body|;
    if zeropad && !left && n < width then width else n
  }

  function C11Text(value: nat, negative: bool, base: nat, precision: nat, width: nat, f: Flags): string
    requires 2 <= base <= 16
  {
    Laid(C11Prefix(value, negative, base, f), C11Body(value, base, precision, f), width, f.left, f.zeropad)
  }

  function C11Length(value: nat, negative: bool, base: nat, precision: nat, width: nat, f: Flags): nat
    requires 2 <= base <= 16
  {
    LaidLength(C11Prefix(value, negative, base, f), C11Body(value, base, precision, f), width, f.left, f.zeropad)
  }

  /** How the directives of the standard call the number code: d and i have a sign and no '#', the
      others the reverse, and a precision cancels '0'. */
  predicate Proper(value: nat, negative: bool, base: nat, precision: nat, f: Flags) {
    && value < ULLONG
    && (base == 8 || base == 10 || base == 16)
    && (base == 10 ==> !f.hash)
    && (base != 10 ==> !negative && !f.plus && !f.space)
    && (f.precision ==> !f.zeropad)
    && (!f.precision ==> precision == 0)
  }
}

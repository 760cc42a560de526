/** printf's integer core: the number buffer, the directive loop and vsnprintf.  What each method
    writes is stated by the functions of PrintfText and PrintfFormat. */
module Printf {
  import opened PrintfText
  import opened PrintfFormat
  import opened PrintfStandard

  /** The output function with its buffer, index and bound.  A null buffer takes nothing. */
  class Sink {
    const buffer: array?<char>
    const maxlen: nat
    var idx: nat
    ghost var text: string          // all that was put out
    ghost const before: seq<char>   // the buffer at first

    ghost predicate Valid()
      reads this, buffer
    {
      && idx == |text|
      && (buffer != null ==>
            && |before| == buffer.Length && maxlen <= buffer.Length
            && forall i | 0 <= i < buffer.Length :: buffer[i] == if i < |text| && i < maxlen then text[i] else before[i])
    }

    constructor (buffer: array?<char>, maxlen: nat)
      requires buffer != null ==> maxlen <= buffer.Length
      ensures Valid() && this.buffer == buffer && this.maxlen == maxlen && text == ""
      ensures buffer != null ==> before == buffer[..]
    {
      this.buffer, this.maxlen, idx, text := buffer, maxlen, 0, "";
      before := if buffer != null then buffer[..] else [];
    }

    /** _out_buffer, or _out_null when there is no buffer. */
    method Put(c: char)
      requires Valid()
      modifies this`idx, this`text, buffer
      ensures Valid() && text == old(text) + [c]
    {
      if buffer != null && idx < maxlen {
        buffer[idx] := c;
      }
      idx, text := idx + 1, text + [c];
    }

    /** The termination: behind the text, or in the last place; nowhere if there is no place. */
    method Terminate()
      requires Valid()
      modifies buffer
      ensures buffer != null ==> buffer[..] == Terminated(text, maxlen, before)
    {
      var last := if idx < maxlen then idx else maxlen - 1;
      if buffer != null && 0 <= last < maxlen {
        buffer[last] := '\0';
        assert buffer[..] == Terminated(text, maxlen, before);
      } else if buffer != null {
        assert buffer[..] == before;
      }
    }
  }

  /** The first n - 1 characters at most and a NUL, in a buffer of which n characters are ours. */
  function Terminated(text: string, n: nat, before: string): string
    requires n <= |before|
  {
    if n == 0 then before
    else
      var k := Min(|text|, n - 1);
      text[..k] + ['\0'] + before[k + 1..]
  }

  /** The first k characters of a text, and a NUL. */
  predicate BeginsWith(s: string, text: string, k: nat) {
    k < |s| && k <= |text| && s[..k] == text[..k] && s[k] == '\0'
  }

  lemma TerminatedTail(text: string, n: nat, before: string)
    requires n <= |before|
    ensures |Terminated(text, n, before)| == |before|
    ensures forall i | n <= i < |before| :: Terminated(text, n, before)[i] == before[i]
    ensures n > 0 ==> BeginsWith(Terminated(text, n, before), text, if |text| < n - 1 then |text| else n - 1)
  {
  }

  // ----- the number code

  /** The padding loops: a space for every place from `from` up to the width. */
  method Spaces(sink: Sink, from: nat, width: nat)
    requires sink.Valid()
    modifies sink`idx, sink`text, sink.buffer
    ensures sink.Valid() && sink.text == old(sink.text) + Repeat(' ', width - from)
  {
    ghost var t := sink.text;
    var i := from;
    while i < width
      invariant sink.Valid() && i >= from && sink.text == t + Repeat(' ', i - from)
      invariant i == from || i <= width
    {
      sink.Put(' ');
      i := i + 1;
    }
  }

  /** _out_rev. */
  method OutRev(sink: Sink, buf: array<char>, len: nat, width: nat, f: Flags)
    requires sink.Valid() && len <= buf.Length && buf != sink.buffer
    modifies sink`idx, sink`text, sink.buffer
    ensures sink.Valid() && sink.text == old(sink.text) + OutRevText(buf[..len], width, f)
  {
    hide Repeat, Reverse;
    ghost var b, t := buf[..len], sink.text;
    var start := sink.idx;
    if !f.left && !f.zeropad {
      Spaces(sink, len, width);
    }
    ghost var pre := sink.text;
    var n := len;
    while n > 0
      invariant 0 <= n <= len && sink.Valid() && sink.text == pre + Reverse(b)[..len - n]
    {
      n := n - 1;
      assert Reverse(b)[..len - n] == Reverse(b)[..len - n - 1] + [b[n]];
      sink.Put(buf[n]);
    }
    assert Reverse(b)[..len] == Reverse(b);
    if f.left {
      Spaces(sink, sink.idx - start, width);
    }
  }

  /** The loops that add zeros to the number buffer. */
  method FillZeros(buf: array<char>, from: nat, upto: nat) returns (len: nat)
    requires buf.Length == NTOA_BUFFER_SIZE && from <= buf.Length
    modifies buf
    ensures len <= buf.Length && buf[..len] == Padded(old(buf[..from]), upto)
  {
    ghost var b := buf[..from];
    len := from;
    while len < upto && len < NTOA_BUFFER_SIZE
      invariant from <= len <= buf.Length && buf[..len] == b + Repeat('0', len - from)
      invariant len == from || len <= upto
    {
      buf[len] := '0';
      len := len + 1;
    }
  }

  /** One guarded store at the end of the number buffer. */
  method PushChar(buf: array<char>, from: nat, c: char) returns (len: nat)
    requires buf.Length == NTOA_BUFFER_SIZE && from <= buf.Length
    modifies buf
    ensures len <= buf.Length && buf[..len] == Push(old(buf[..from]), c)
  {
    len := from;
    if len < NTOA_BUFFER_SIZE {
      buf[len] := c;
      len := len + 1;
    }
  }

  /** The '#' part of _ntoa_format. */
  method PushPrefix(buf: array<char>, from: nat, unpadded: nat, base: nat, precision: nat, width: nat, f: Flags) returns (len: nat)
    requires buf.Length == NTOA_BUFFER_SIZE && from <= buf.Length
    modifies buf
    ensures len <= buf.Length
    ensures buf[..len] == Prefixed(TakenBack(old(buf[..from]), unpadded, base, precision, width, f), base, f)
  {
    ghost var b := buf[..from];
    len := from;
    if !f.precision && len > 0 && (len == precision || len == width) {
      if unpadded < len {
        len := len - 1;
      }
      if len > 0 && base == 16 {
        if unpadded < len {
          len := len - 1;
        }
      }
    }
    assert buf[..len] == TakenBack(b, unpadded, base, precision, width, f);
    if base == 16 {
      len := PushChar(buf, len, if f.uppercase then 'X' else 'x');
    } else if base == 2 {
      len := PushChar(buf, len, 'b');
    }
    len := PushChar(buf, len, '0');
  }

  /** The sign, if there is room. */
  method PushSign(buf: array<char>, from: nat, negative: bool, f: Flags) returns (len: nat)
    requires buf.Length == NTOA_BUFFER_SIZE && from <= buf.Length
    modifies buf
    ensures len <= buf.Length
    ensures buf[..len] == old(buf[..from]) + (if from < NTOA_BUFFER_SIZE then Sign(negative, f) else "")
  {
    len := from;
    if len < NTOA_BUFFER_SIZE {
      if negative {
        buf[len] := '-';
        len := len + 1;
      } else if f.plus {
        buf[len] := '+';
        len := len + 1;
      } else if f.space {
        buf[len] := ' ';
        len := len + 1;
      }
    }
  }

  /** _ntoa_format up to its last line: fills the number buffer. */
  method FillBuffer(buf: array<char>, from: nat, negative: bool, base: nat, precision: nat, width: nat, f: Flags) returns (len: nat)
    requires buf.Length == NTOA_BUFFER_SIZE && from <= buf.Length
    modifies buf
    ensures len <= buf.Length && buf[..len] == Assembled(old(buf[..from]), negative, base, precision, width, f)
  {
    hide Padded, Prefixed, TakenBack, Push, Sign;
    ghost var b := buf[..from];
    len := from;
    if !f.left && f.zeropad {
      len := FillZeros(buf, len, width);
    }
    len := FillZeros(buf, len, precision);
    ghost var filled := buf[..len];
    assert filled == ZeroFilled(b, precision, width, f);
    if f.hash && !(base == 8 && len > from) {
      len := PushPrefix(buf, len, from, base, precision, width, f);
    }
    len := PushSign(buf, len, negative, f);
  }

  /** _ntoa_format. */
  method NtoaFormat(sink: Sink, buf: array<char>, from: nat, negative: bool, base: nat, precision: nat, fullWidth: nat, f: Flags)
    requires sink.Valid() && buf.Length == NTOA_BUFFER_SIZE && from <= buf.Length && buf != sink.buffer
    modifies buf, sink`idx, sink`text, sink.buffer
    ensures sink.Valid()
    ensures sink.text == old(sink.text) + FormatText(old(buf[..from]), negative, base, precision, fullWidth, f)
  {
    hide Assembled, OutRevText;
    var width := fullWidth;
    if !f.left && width > 0 && f.zeropad && (negative || f.plus || f.space) {
      width := width - 1;
    }
    var len := FillBuffer(buf, from, negative, base, precision, width, f);
    OutRev(sink, buf, len, width, f);
  }

  /** The digit loop: lowest first, as far as the buffer goes. */
  method WriteDigits(buf: array<char>, number: nat, base: nat, uppercase: bool) returns (len: nat)
    requires buf.Length == NTOA_BUFFER_SIZE && 2 <= base <= 16
    modifies buf
    ensures len <= buf.Length && buf[..len] == Cut(Digits(number, base, uppercase))
  {
    hide DigitChar, Digits, Cut;
    ghost var all := Digits(number, base, uppercase);
    var value: nat := number;
    Ends(all);
    len := 0;
    while value != 0 && len < NTOA_BUFFER_SIZE
      invariant value >= 0
      invariant len <= buf.Length && all == buf[..len] + Digits(value, base, uppercase)
      decreases NTOA_BUFFER_SIZE - len
    {
      ghost var done := buf[..len];
      DivMod(value, base);
      DigitsStep(value, base, uppercase);
      Assoc(done, [DigitChar(value % base, uppercase)], Digits(value / base, base, uppercase));
      buf[len] := DigitChar(value % base, uppercase);
      len := len + 1;
      value := value / base;
      assert buf[..len] == done + [buf[len - 1]];
    }
    CutsOff(buf[..len], value, base, uppercase);
  }

  lemma CutsOff(done: string, value: nat, base: nat, uppercase: bool)
    requires 2 <= base <= 16 && |done| <= NTOA_BUFFER_SIZE && (value == 0 || |done| == NTOA_BUFFER_SIZE)
    ensures Cut(done + Digits(value, base, uppercase)) == done
  {
  }

  /** _ntoa. */
  method Ntoa(sink: Sink, value: nat, negative: bool, base: nat, precision: nat, width: nat, flags: Flags)
    requires sink.Valid() && 2 <= base <= 16
    modifies sink`idx, sink`text, sink.buffer
    ensures sink.Valid() && sink.text == old(sink.text) + NtoaText(value, negative, base, precision, width, flags)
  {
    hide FormatText, Digits;
    var buf := new char[NTOA_BUFFER_SIZE];
    var len, f := 0, flags;
    if value == 0 {
      if !f.precision {
        buf[0] := '0';
        len := 1;
        f := f.(hash := false);
      } else if base == 16 {
        f := f.(hash := false);
      }
      NoDigits(base, f.uppercase);
    } else {
      len := WriteDigits(buf, value, base, f.uppercase);
    }
    assert buf[..len] == NtoaDigits(value, base, flags);
    NtoaFormat(sink, buf, len, negative, base, precision, width, f);
  }

  // ----- the parts of a directive

  method ReadFlags(format: string, from: nat) returns (f: Flags, pos: nat)
    ensures (f, pos) == ParseFlags(format, from, NO_FLAGS)
  {
    f, pos := NO_FLAGS, from;
    var more := true;
    while more
      invariant ParseFlags(format, pos, f) == ParseFlags(format, from, NO_FLAGS)
      invariant !more ==> (f, pos) == ParseFlags(format, pos, f)
      decreases more, |format| - pos
    {
      match At(format, pos) {
        case '0' => f, pos := f.(zeropad := true), pos + 1;
        case '-' => f, pos := f.(left := true), pos + 1;
        case '+' => f, pos := f.(plus := true), pos + 1;
        case ' ' => f, pos := f.(space := true), pos + 1;
        case '#' => f, pos := f.(hash := true), pos + 1;
        case _ => more := false;
      }
    }
  }

  /** _atoi. */
  method Atoi(format: string, from: nat) returns (i: nat, pos: nat)
    ensures (i, pos) == ParseNumber(format, from, 0)
  {
    i, pos := 0, from;
    while IsDigit(At(format, pos))
      invariant ParseNumber(format, pos, i) == ParseNumber(format, from, 0)
      decreases |format| - pos
    {
      i, pos := (i * 10 + (At(format, pos) - '0') as nat) % UINT, pos + 1;
    }
  }

  method ReadSize(format: string, from: nat) returns (size: Size, pos: nat)
    ensures (size, pos) == ParseSize(format, from)
  {
    size, pos := Plain, from;
    match At(format, pos) {
      case 'l' =>
        size, pos := Long, pos + 1;
        if At(format, pos) == 'l' {
          size, pos := LongLong, pos + 1;
        }
      case 'h' =>
        size, pos := Short, pos + 1;
        if At(format, pos) == 'h' {
          size, pos := Char, pos + 1;
        }
      case 't' => size, pos := Long, pos + 1;
      case 'j' => size, pos := Long, pos + 1;
      case 'z' => size, pos := Long, pos + 1;
      case _ =>
    }
  }

  method ReadWidth(format: string, from: nat, args: Args, arg: nat, f: Flags) returns (p: Parsed)
    ensures p == ParseWidth(format, from, args, arg, f)
  {
    hide ParseNumber;
    p := Parsed(f, 0, from, arg);
    if IsDigit(At(format, from)) {
      var width, pos := Atoi(format, from);
      p := p.(value := width, pos := pos);
    } else if At(format, from) == '*' {
      var w := Signed(args(arg).word, UINT);
      if w < 0 {
        p := p.(f := f.(left := true), value := -w);
      } else {
        p := p.(value := w);
      }
      p := p.(pos := from + 1, arg := arg + 1);
    }
  }

  method ReadPrecision(format: string, from: nat, args: Args, arg: nat, f: Flags) returns (p: Parsed)
    ensures p == ParsePrecision(format, from, args, arg, f)
  {
    hide ParseNumber;
    p := Parsed(f, 0, from, arg);
    if At(format, from) == '.' {
      p := p.(f := f.(precision := true), pos := from + 1);
      if IsDigit(At(format, p.pos)) {
        var precision, pos := Atoi(format, p.pos);
        p := p.(value := precision, pos := pos);
      } else if At(format, p.pos) == '*' {
        var precision := Signed(args(arg).word, UINT);
        p := p.(value := if precision > 0 then precision else 0, pos := p.pos + 1, arg := arg + 1);
      }
    }
  }

  /** From behind the '%' to the conversion character. */
  method ReadDirective(format: string, from: nat, args: Args, arg: nat) returns (d: Directive)
    ensures d == Parse(format, from, args, arg)
  {
    hide ParseFlags, ParseWidth, ParsePrecision, ParseSize;
    var f, start := ReadFlags(format, from);
    var w := ReadWidth(format, start, args, arg, f);
    var p := ReadPrecision(format, w.pos, args, w.arg, w.f);
    var size, pos := ReadSize(format, p.pos);
    d := Directive(p.f.(size := size), w.value, p.value, pos, p.arg);
  }

  // ----- conversions

  /** NTOA_ABS: negation in the unsigned type, which is right for the lowest value too. */
  function NtoaAbs(v: int): (r: nat)
    requires -0x8000_0000_0000_0000 <= v < ULLONG
    ensures r == Magnitude(v)
  {
    if v > 0 then v else (ULLONG - v % ULLONG) % ULLONG
  }

  method ConvertInteger(sink: Sink, conv: char, d: Directive, word: nat)
    requires sink.Valid() && IsInteger(conv)
    modifies sink`idx, sink`text, sink.buffer
    ensures sink.Valid()
    ensures var v := IntegerValue(word, d.f.size, conv);
            sink.text == old(sink.text) + NtoaText(Magnitude(v), v < 0, Base(conv), d.precision, d.width, IntegerFlags(d.f, conv))
  {
    hide NtoaText, Magnitude;
    var f := d.f;
    var base: nat;
    if conv == 'x' || conv == 'X' {
      base := 16;
    } else if conv == 'o' {
      base := 8;
    } else if conv == 'b' {
      base := 2;
    } else {
      base := 10;
      f := f.(hash := false);
    }
    if conv == 'X' {
      f := f.(uppercase := true);
    }
    if conv != 'i' && conv != 'd' {
      f := f.(plus := false, space := false);
    }
    if f.precision {
      f := f.(zeropad := false);
    }
    if conv == 'i' || conv == 'd' {
      var v := Signed(word, Range(f.size));
      Ntoa(sink, NtoaAbs(v), v < 0, base, d.precision, d.width, f);
    } else {
      var v := Low(word, Range(f.size));
      Ntoa(sink, v, false, base, d.precision, d.width, f);
      MagnitudeOfNat(v);
    }
  }

  lemma MagnitudeOfNat(v: nat)
    ensures Magnitude(v) == v
  {
  }

  method ConvertChar(sink: Sink, d: Directive, word: nat)
    requires sink.Valid()
    modifies sink`idx, sink`text, sink.buffer
    ensures sink.Valid() && sink.text == old(sink.text) + Justified([Low(word, 0x100) as char], d.width, d.f.left)
  {
    if !d.f.left {
      Spaces(sink, 1, d.width);
    }
    sink.Put(Low(word, 0x100) as char);
    if d.f.left {
      Spaces(sink, 1, d.width);
    }
  }

  method ConvertString(sink: Sink, d: Directive, s: string)
    requires sink.Valid() && d.precision < UINT && (!d.f.precision ==> d.precision == 0)
    modifies sink`idx, sink`text, sink.buffer
    ensures sink.Valid() && sink.text == old(sink.text) + StringText(s, d)
  {
    hide Repeat;
    ghost var shown, pad, t0 := Shown(s, d.f, d.precision), Repeat(' ', d.width - ShownLength(s, d) % UINT), sink.text;
    var l := (if d.precision != 0 && d.precision < |s| then d.precision else |s|) % UINT;
    if d.f.precision {
      l := if l < d.precision then l else d.precision;
    }
    assert l == ShownLength(s, d) % UINT;
    if !d.f.left {
      Spaces(sink, l, d.width);
    }
    ghost var t := sink.text;
    var i := 0;
    while i < |s| && (!d.f.precision || i < d.precision)
      invariant 0 <= i <= |shown| && sink.Valid() && sink.text == t + shown[..i]
    {
      sink.Put(s[i]);
      i := i + 1;
    }
    assert shown[..i] == shown;
    if d.f.left {
      Spaces(sink, l, d.width);
      Assoc(t0, shown, pad);
    } else {
      Assoc(t0, pad, shown);
    }
  }

  lemma SignedSmall(n: nat)
    ensures n < 0x8000_0000 ==> Signed(n, UINT) == n
  {
  }

  // ----- vsnprintf

  /** One directive's output, from its conversion character. */
  method Convert(sink: Sink, conv: char, d: Directive, args: Args)
    requires sink.Valid() && d.precision < UINT && (!d.f.precision ==> d.precision == 0)
    modifies sink`idx, sink`text, sink.buffer
    ensures sink.Valid() && sink.text == old(sink.text) + ConversionText(conv, d, args)
  {
    hide NtoaText, OutRevText, StringText, Justified;
    if IsInteger(conv) {
      ConvertInteger(sink, conv, d, args(d.arg).word);
    } else if conv == 'c' {
      ConvertChar(sink, d, args(d.arg).word);
    } else if conv == 's' {
      match args(d.arg).str {
        case Null =>
          var name := new char[6] [')', 'l', 'l', 'u', 'n', '('];
          assert name[..6] == ")llun(";
          OutRev(sink, name, 6, d.width, d.f);
        case Chars(s) => ConvertString(sink, d, s);
      }
    } else {
      sink.Put(conv);
    }
  }

  /** _vsnprintf with _out_buffer.  The buffer gets the first n - 1 characters of the whole text
      and a NUL, and nothing from place n on; the result is the length of the whole text whatever
      n is.  When the format breaks off in a directive or comes to a conversion that is not
      modelled, the run is followed up to there. */
  method Vsnprintf(buffer: array?<char>, n: nat, format: string, args: Args) returns (written: int, end: End)
    requires buffer != null ==> n <= buffer.Length
    requires '\0' !in format
    modifies buffer
    ensures end == Render(format, 0, args, 0).end
    ensures end == Finished ==> written == Signed(|Render(format, 0, args, 0).text|, UINT)
    ensures end == Finished && buffer != null ==> buffer[..] == Terminated(Render(format, 0, args, 0).text, n, old(buffer[..]))
    ensures end == Finished && |Render(format, 0, args, 0).text| < 0x8000_0000 ==> written == |Render(format, 0, args, 0).text|
    ensures end == Finished && buffer != null && n > 0 ==>
              var text := Render(format, 0, args, 0).text;
              BeginsWith(buffer[..], text, if |text| < n - 1 then |text| else n - 1)
    ensures buffer != null ==> forall i | n <= i < buffer.Length :: buffer[i] == old(buffer[i])
  {
    hide ConversionText, Parse, Terminated, IsElsewhere, Signed, BeginsWith, Render;
    var sink := new Sink(buffer, n);
    ghost var whole := Render(format, 0, args, 0);
    assert buffer != null ==> sink.before == old(buffer[..]);
    var pos: nat, arg: nat := 0, 0;
    while At(format, pos) != '\0'
      invariant 0 <= arg && 0 <= pos <= |format| && sink.Valid() && sink.buffer == buffer && fresh(sink)
      invariant whole == Outcome(sink.text + Render(format, pos, args, arg).text, Render(format, pos, args, arg).end)
      decreases |format| - pos
    {
      ghost var t := sink.text;
      RenderHere(format, pos, args, arg);
      if format[pos] != '%' {
        sink.Put(format[pos]);
        pos := pos + 1;
        Assoc(t, [format[pos - 1]], Render(format, pos, args, arg).text);
      } else {
        var d := ReadDirective(format, pos + 1, args, arg);
        var conv := At(format, d.pos);
        if IsElsewhere(conv) {
          return 0, Elsewhere;
        }
        Convert(sink, conv, d, args);
        pos, arg := d.pos + 1, d.arg + ArgsTaken(conv);
        Assoc(t, ConversionText(conv, d, args), Render(format, pos, args, arg).text);
        if pos > |format| {
          RenderHere(format, pos, args, arg);
          return 0, Overrun;
        }
      }
    }
    RenderHere(format, pos, args, arg);
    Ends(sink.text);
    sink.Terminate();
    if buffer != null {
      TerminatedTail(sink.text, n, sink.before);
    }
    SignedSmall(sink.idx);
    return Signed(sink.idx, UINT), Finished;
  }
}

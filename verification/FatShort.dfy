/** 8.3 names, written and read back, and what a directory slot without a long name lists. */
module FatShort {
  import opened Bytes
  import opened FatNames
  import opened FatDirectory

  /** No space, dot or NUL. */
  predicate Plain(s: seq<byte>) { forall q | 0 <= q < |s| :: s[q] != 0x20 && s[q] != 0x2E && s[q] != 0 }

  function Padded(s: seq<byte>, n: nat): (r: seq<byte>)
    requires |s| <= n
    ensures |r| == n
  {
    s + seq(n - |s|, _ => 0x20)
  }

  /** Stem and extension as one name. */
  function Dotted(stem: seq<byte>, ext: seq<byte>): seq<byte> { if ext == [] then stem else stem + [0x2E] + ext }

  function Capitals(s: seq<byte>): (r: seq<byte>)
    ensures |r| == |s| && forall q | 0 <= q < |s| :: r[q] == if 97 <= s[q] <= 122 then s[q] - 32 else s[q]
  {
    seq(|s|, q requires 0 <= q < |s| => if 97 <= s[q] <= 122 then s[q] - 32 else s[q])
  }

  function AtMost(s: seq<byte>, n: nat): seq<byte> { if |s| <= n then s else s[..n] }

  lemma {:induction false} TrimmedPadded(s: seq<byte>, n: nat)
    requires |s| <= n && Plain(s)
    ensures Trimmed(Padded(s, n)) == s
  {
    if s != [] {
      assert Padded(s, n)[1..] == Padded(s[1..], n - 1);
      TrimmedPadded(s[1..], n - 1);
    }
  }

  /** The two fields of an 8.3 name read as stem, dot and extension. */
  lemma FieldsReadAsName(buf: seq<byte>, at: nat, stem: seq<byte>, ext: seq<byte>)
    requires at + 11 <= |buf| && |stem| <= 8 && |ext| <= 3 && Plain(stem) && Plain(ext)
    requires buf[at..at + 11] == Padded(stem, 8) + Padded(ext, 3)
    ensures ShortText(buf, at) == if ext == [] then stem else stem + [0x2E] + ext
  {
    hide Trimmed;
    TrimmedPadded(stem, 8);
    TrimmedPadded(ext, 3);
    assert buf[at..at + 8] == buf[at..at + 11][..8] == Padded(stem, 8);
    assert buf[at + 8..at + 11] == buf[at..at + 11][8..] == Padded(ext, 3);
  }

  lemma ShortSlotStep(buf: seq<byte>, k: nat)
    requires 32 * k + 32 <= |buf| && buf[32 * k] != 0 && buf[32 * k] != 0xE5 && buf[32 * k + 11] != 0x0F
    ensures HasSlot(buf, k) && StepOk(buf, k) && Next(buf, k) == k + 1 && Emits(buf, k) == [Entry(buf, k, 0)]
  {
    hide Entry;
    assert LfnRun(buf, k) == 0;
  }

  /** The attributes, the first cluster and the size from their places in the slot at `at`. */
  function FieldsAt(buf: seq<byte>, at: nat, name: seq<byte>): Listing
    requires at + 32 <= |buf|
  {
    Listing(name, buf[at + 11], Number(buf[at + 26], buf[at + 27], buf[at + 20], buf[at + 21]),
            Number(buf[at + 28], buf[at + 29], buf[at + 30], buf[at + 31]))
  }

  lemma ShortEntry(buf: seq<byte>, k: nat)
    requires HasSlot(buf, k)
    ensures Entry(buf, k, 0) == FieldsAt(buf, 32 * k, ShortText(buf, 32 * k))
  {
    hide ShortText;
  }

  /** What a slot with no long name before it lists: the name of its two fields, and the rest from
      its places. */
  lemma ShortSlotListed(buf: seq<byte>, k: nat, stem: seq<byte>, ext: seq<byte>)
    requires 32 * k + 32 <= |buf| && 1 <= |stem| <= 8 && |ext| <= 3 && Plain(stem) && Plain(ext)
    requires buf[32 * k..32 * k + 11] == Padded(stem, 8) + Padded(ext, 3) && stem[0] != 0xE5 && buf[32 * k + 11] != 0x0F
    ensures HasSlot(buf, k) && StepOk(buf, k) && Next(buf, k) == k + 1
    ensures Emits(buf, k) == [FieldsAt(buf, 32 * k, if ext == [] then stem else stem + [0x2E] + ext)]
  {
    hide ShortText, Entry, Emits, StepOk, Next, LfnRun;
    FieldsReadAsName(buf, 32 * k, stem, ext);
    assert buf[32 * k] == buf[32 * k..32 * k + 11][0] == stem[0];
    ShortSlotStep(buf, k);
    ShortEntry(buf, k);
  }

  /** A slot lists nothing exactly if its first byte is 0 or 0xE5. */
  lemma FreeSlotListed(buf: seq<byte>, k: nat)
    requires 32 * k + 32 <= |buf| && StepOk(buf, k)
    ensures Emits(buf, k) == [] <==> buf[32 * k] == 0 || buf[32 * k] == 0xE5
    ensures Emits(buf, k) == [] ==> Next(buf, k) == k + 1
  {
  }

  lemma {:induction false} LastDotIs(stem: seq<byte>, ext: seq<byte>)
    requires Plain(stem) && Plain(ext)
    ensures LastDot(Dotted(stem, ext)) == if ext == [] then -1 else |stem|
  {
    hide LastDot;
    var s, i := Dotted(stem, ext), LastDot(Dotted(stem, ext));
    if ext != [] {
      assert s[|stem|] == 0x2E;
      assert forall j | |stem| < j < |s| :: s[j] == ext[j - |stem| - 1];
    }
  }

  /** Up to eight characters of stem and three of extension stay, as capitals; a longer stem is cut
      to six and "~1". */
  lemma ShortNameFields(stem: seq<byte>, ext: seq<byte>)
    requires Plain(stem) && Plain(ext)
    ensures ShortNameOf(Dotted(stem, ext)) ==
              (if |stem| <= 8 then Padded(Capitals(stem), 8) else Capitals(stem[..6]) + [0x7E, 0x31])
              + Padded(Capitals(AtMost(ext, 3)), 3)
  {
    hide ShortByte;
    forall b: nat | b < 8
      ensures ShortByte(Dotted(stem, ext), b) ==
                (if |stem| <= 8 then Padded(Capitals(stem), 8) else Capitals(stem[..6]) + [0x7E, 0x31])[b]
    {
      StemByteIs(stem, ext, b);
    }
    forall b: nat | 8 <= b < 11
      ensures ShortByte(Dotted(stem, ext), b) == Padded(Capitals(AtMost(ext, 3)), 3)[b - 8]
    {
      ExtensionByteIs(stem, ext, b);
    }
  }

  lemma StemByteIs(stem: seq<byte>, ext: seq<byte>, b: nat)
    requires Plain(stem) && Plain(ext) && b < 8
    ensures ShortByte(Dotted(stem, ext), b) ==
              (if |stem| <= 8 then Padded(Capitals(stem), 8) else Capitals(stem[..6]) + [0x7E, 0x31])[b]
  {
    hide LastDot;
    LastDotIs(stem, ext);
  }

  lemma ExtensionByteIs(stem: seq<byte>, ext: seq<byte>, b: nat)
    requires Plain(stem) && Plain(ext) && 8 <= b < 11
    ensures ShortByte(Dotted(stem, ext), b) == Padded(Capitals(AtMost(ext, 3)), 3)[b - 8]
  {
    hide LastDot;
    LastDotIs(stem, ext);
  }

  lemma CapitalsPlain(s: seq<byte>)
    requires Plain(s)
    ensures Plain(Capitals(s))
  {
  }

  lemma PlainPart(s: seq<byte>, n: nat)
    requires Plain(s)
    ensures Plain(AtMost(s, n))
  {
  }

  lemma TildeOne(s: seq<byte>)
    requires Plain(s) && |s| == 6
    ensures Plain(s + [0x7E, 0x31]) && Padded(s + [0x7E, 0x31], 8) == s + [0x7E, 0x31]
  {
  }

  lemma CapitalsJoin(stem: seq<byte>, ext: seq<byte>)
    ensures Capitals(stem + [0x2E] + ext) == Capitals(stem) + [0x2E] + Capitals(ext)
  {
  }

  /** The 8.3 form of a name that fits reads back as the name in capitals; of a longer stem six
      characters and "~1" are left, of an extension three. */
  lemma ShortNameReadsBack(buf: seq<byte>, at: nat, stem: seq<byte>, ext: seq<byte>)
    requires at + 11 <= |buf| && Plain(stem) && Plain(ext)
    requires buf[at..at + 11] == ShortNameOf(if ext == [] then stem else stem + [0x2E] + ext)
    ensures |stem| <= 8 && |ext| <= 3 ==> ShortText(buf, at) == Capitals(if ext == [] then stem else stem + [0x2E] + ext)
    ensures |stem| > 8 && ext == [] ==> ShortText(buf, at) == Capitals(stem[..6]) + [0x7E, 0x31]
    ensures |stem| > 8 && ext != [] ==>
              ShortText(buf, at) == Capitals(stem[..6]) + [0x7E, 0x31, 0x2E] + Capitals(if |ext| <= 3 then ext else ext[..3])
    ensures |stem| <= 8 && |ext| > 3 ==> ShortText(buf, at) == Capitals(stem) + [0x2E] + Capitals(ext[..3])
  {
    hide ShortText, ShortNameOf, Capitals, Plain, Padded;
    ShortNameFields(stem, ext);
    PlainPart(stem, 6);
    PlainPart(ext, 3);
    CapitalsPlain(AtMost(ext, 3));
    var e := Capitals(AtMost(ext, 3));
    if |stem| <= 8 {
      CapitalsPlain(stem);
      FieldsReadAsName(buf, at, Capitals(stem), e);
      CapitalsJoin(stem, ext);
    } else {
      CapitalsPlain(stem[..6]);
      var s := Capitals(stem[..6]) + [0x7E, 0x31];
      TildeOne(Capitals(stem[..6]));
      FieldsReadAsName(buf, at, s, e);
      assert s + [0x2E] + e == Capitals(stem[..6]) + [0x7E, 0x31, 0x2E] + e;
    }
  }
}

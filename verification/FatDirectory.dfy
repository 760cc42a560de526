/** A directory cluster as a sequence of 32-byte slots: free slots, and groups of long-name
    slots followed by one short slot. */
module FatDirectory {
  import opened Bytes
  import opened FatNames

  datatype Listing = Listing(name: seq<byte>, attrs: byte, firstCluster: nat, fileSize: nat)

  function Le16(buf: seq<byte>, at: nat): nat
    requires at + 2 <= |buf|
  {
    var b0: int, b1: int := buf[at], buf[at + 1];
    b0 + 0x100 * b1
  }

  function Le32(buf: seq<byte>, at: nat): nat
    requires at + 4 <= |buf|
  {
    var b0: int, b1: int, b2: int, b3: int := buf[at], buf[at + 1], buf[at + 2], buf[at + 3];
    b0 + 0x100 * b1 + 0x1_0000 * b2 + 0x100_0000 * b3
  }

  predicate HasSlot(buf: seq<byte>, k: nat) { SLOT * (k + 1) <= |buf| }

  predicate SlotFree(buf: seq<byte>, k: nat)
    requires HasSlot(buf, k)
  {
    buf[SLOT * k] == 0 || buf[SLOT * k] == 0xE5
  }

  predicate SlotLfn(buf: seq<byte>, k: nat)
    requires HasSlot(buf, k)
  {
    buf[SLOT * k + 11] == LFN
  }

  function LfnRun(buf: seq<byte>, k: nat): (n: nat)
    ensures n > 0 ==> SLOT * (k + n) <= |buf|
    ensures forall t: nat | k <= t < k + n :: HasSlot(buf, t) && SlotLfn(buf, t)
    ensures HasSlot(buf, k + n) ==> !SlotLfn(buf, k + n)
    decreases |buf| - SLOT * k
  {
    if HasSlot(buf, k) && SlotLfn(buf, k) then 1 + LfnRun(buf, k + 1) else 0
  }

  // ----- entries without a long name

  /** Everything before the first space or NUL. */
  function Trimmed(s: seq<byte>): (r: seq<byte>)
    ensures r <= s
  {
    if s == [] || s[0] == 0x20 || s[0] == 0 then [] else [s[0]] + Trimmed(s[1..])
  }

  function ShortText(buf: seq<byte>, at: nat): seq<byte>
    requires at + 11 <= |buf|
  {
    var stem, extension := Trimmed(buf[at..at + 8]), Trimmed(buf[at + 8..at + 11]);
    if extension == [] then stem else stem + ['.' as int] + extension
  }

  // ----- groups

  ghost predicate GroupOk(buf: seq<byte>, k: nat, n: nat)
    requires HasSlot(buf, k + n)
  {
    && (forall t: nat | k <= t <= k + n :: !SlotFree(buf, t))
    && (n > 0 ==> Numbered(buf, SLOT * k, n) && 0 in LongName(buf, SLOT * k, n))
  }

  function GroupName(buf: seq<byte>, k: nat, n: nat): seq<byte>
    requires HasSlot(buf, k + n)
  {
    if n > 0 then CStr(LongName(buf, SLOT * k, n)) else ShortText(buf, SLOT * k)
  }

  function Entry(buf: seq<byte>, k: nat, n: nat): Listing
    requires HasSlot(buf, k + n)
  {
    var at := SLOT * (k + n);
    Listing(GroupName(buf, k, n), buf[at + 11], Le16(buf, at + 20) * 0x1_0000 + Le16(buf, at + 26), Le32(buf, at + 28))
  }

  /** The slot after the free slot or the group at k. */
  function Next(buf: seq<byte>, k: nat): (k': nat)
    requires HasSlot(buf, k)
    ensures k' > k
  {
    if SlotFree(buf, k) then k + 1 else k + LfnRun(buf, k) + 1
  }

  ghost predicate StepOk(buf: seq<byte>, k: nat)
    requires HasSlot(buf, k)
  {
    SlotFree(buf, k) || (HasSlot(buf, k + LfnRun(buf, k)) && GroupOk(buf, k, LfnRun(buf, k)))
  }

  /** What reading at slot k adds to the listing. */
  ghost function Emits(buf: seq<byte>, k: nat): seq<Listing>
    requires HasSlot(buf, k) && StepOk(buf, k)
  {
    if SlotFree(buf, k) then [] else [Entry(buf, k, LfnRun(buf, k))]
  }

  /** From slot k on there are only free slots and complete groups. */
  ghost predicate Wf(buf: seq<byte>, k: nat)
    decreases |buf| - SLOT * k
  {
    HasSlot(buf, k) ==> StepOk(buf, k) && Wf(buf, Next(buf, k))
  }

  ghost function List(buf: seq<byte>, k: nat): seq<Listing>
    requires Wf(buf, k)
    decreases |buf| - SLOT * k
  {
    if !HasSlot(buf, k) then [] else Emits(buf, k) + List(buf, Next(buf, k))
  }

  lemma ListStep(buf: seq<byte>, k: nat)
    requires HasSlot(buf, k)
    ensures Wf(buf, k) <==> StepOk(buf, k) && Wf(buf, Next(buf, k))
    ensures Wf(buf, k) ==> List(buf, k) == Emits(buf, k) + List(buf, Next(buf, k))
  {
    hide StepOk, Next, Emits;
  }

  lemma Moved(e: seq<Listing>, l: seq<Listing>, j: nat)
    requires j <= |l|
    ensures (e + l)[..|e| + j] == e + l[..j] && (e + l)[|e| + j..] == l[j..]
  {
  }

  // ----- buffers that agree on some slots

  ghost predicate SameSlots(a: seq<byte>, b: seq<byte>, from: nat, to: nat) {
    |a| == |b| && forall i | SLOT * from <= i < SLOT * to && i < |a| :: a[i] == b[i]
  }

  lemma {:induction false} SameRun(a: seq<byte>, b: seq<byte>, k: nat, to: nat)
    requires SameSlots(a, b, k, to) && k + LfnRun(a, k) < to
    ensures LfnRun(b, k) == LfnRun(a, k)
    decreases |a| - SLOT * k
  {
    if HasSlot(a, k) && SlotLfn(a, k) {
      SameRun(a, b, k + 1, to);
    }
  }

  lemma SameChar(a: seq<byte>, b: seq<byte>, k: nat, n: nat, q: nat)
    requires HasSlot(a, k + n) && SameSlots(a, b, k, k + n + 1) && q < LFN_CHARS * n
    ensures LongChar(a, SLOT * k, n, q) == LongChar(b, SLOT * k, n, q)
  {
    hide CharPos;
    var i := k + (n - 1 - q / LFN_CHARS);
    assert SlotAt(a, SLOT * i) == SlotAt(b, SLOT * i);
  }

  lemma SameName(a: seq<byte>, b: seq<byte>, k: nat, n: nat)
    requires HasSlot(a, k + n) && SameSlots(a, b, k, k + n + 1)
    ensures LongName(a, SLOT * k, n) == LongName(b, SLOT * k, n) && GroupName(a, k, n) == GroupName(b, k, n)
  {
    hide LongChar, CStr, Trimmed;
    forall q | 0 <= q < LFN_CHARS * n
      ensures LongChar(a, SLOT * k, n, q) == LongChar(b, SLOT * k, n, q)
    {
      SameChar(a, b, k, n, q);
    }
    assert LongName(a, SLOT * k, n) == LongName(b, SLOT * k, n);
    if n == 0 {
      var at := SLOT * k;
      assert a[at..at + 8] == b[at..at + 8] && a[at + 8..at + 11] == b[at + 8..at + 11];
    }
  }

  lemma SameGroup(a: seq<byte>, b: seq<byte>, k: nat, n: nat)
    requires HasSlot(a, k + n) && SameSlots(a, b, k, k + n + 1) && GroupOk(a, k, n)
    ensures GroupOk(b, k, n) && Entry(a, k, n) == Entry(b, k, n)
  {
    hide LongName, GroupName;
    SameName(a, b, k, n);
    forall t: nat | k <= t <= k + n
      ensures !SlotFree(b, t)
    {
      assert !SlotFree(a, t);
    }
    if n > 0 {
      forall t | 0 <= t < n
        ensures EntryNo(b, SLOT * k + SLOT * t) == n - t
      {
        assert EntryNo(a, SLOT * k + SLOT * t) == n - t;
      }
    }
  }

  lemma SameStep(a: seq<byte>, b: seq<byte>, k: nat)
    requires HasSlot(a, k) && StepOk(a, k) && SameSlots(a, b, k, Next(a, k))
    ensures StepOk(b, k) && Next(b, k) == Next(a, k) && Emits(b, k) == Emits(a, k)
  {
    hide GroupOk, Entry;
    if !SlotFree(a, k) {
      SameRun(a, b, k, Next(a, k));
      SameGroup(a, b, k, LfnRun(a, k));
    }
  }

  lemma {:induction false} SameSuffix(a: seq<byte>, b: seq<byte>, k: nat)
    requires |a| == |b| && forall i | SLOT * k <= i < |a| :: a[i] == b[i]
    requires Wf(a, k)
    ensures Wf(b, k) && List(b, k) == List(a, k)
    decreases |a| - SLOT * k
  {
    hide StepOk, Next, Emits;
    if HasSlot(a, k) {
      SameStep(a, b, k);
      SameSuffix(a, b, Next(a, k));
    }
  }

  // ----- free runs and groups

  ghost predicate FreeRun(buf: seq<byte>, s: nat, count: nat) {
    SLOT * (s + count) <= |buf| && forall t: nat | s <= t < s + count :: SlotFree(buf, t)
  }

  lemma FreeStep(buf: seq<byte>, s: nat)
    requires HasSlot(buf, s) && SlotFree(buf, s)
    ensures StepOk(buf, s) && Next(buf, s) == s + 1 && Emits(buf, s) == []
  {
  }

  lemma {:induction false} SkipFree(buf: seq<byte>, s: nat, count: nat)
    requires FreeRun(buf, s, count) && (Wf(buf, s) || Wf(buf, s + count))
    ensures Wf(buf, s) && Wf(buf, s + count) && List(buf, s) == List(buf, s + count)
    decreases count
  {
    hide StepOk, Next, Emits;
    if count > 0 {
      FreeStep(buf, s);
      SkipFree(buf, s + 1, count - 1);
    }
  }

  /** Reading never jumps over a free slot. */
  lemma NextBelowFree(buf: seq<byte>, k: nat, s: nat)
    requires HasSlot(buf, k) && StepOk(buf, k) && k < s && HasSlot(buf, s) && SlotFree(buf, s)
    ensures Next(buf, k) <= s
  {
  }

  /** A complete group of n long-name slots and a short one, starting at slot s. */
  ghost predicate GroupAt(buf: seq<byte>, s: nat, n: nat) {
    HasSlot(buf, s + n) && LfnRun(buf, s) == n && GroupOk(buf, s, n)
  }

  lemma GroupStep(buf: seq<byte>, s: nat, n: nat)
    requires GroupAt(buf, s, n)
    ensures HasSlot(buf, s) && HasSlot(buf, s + n) && SLOT * (s + n + 1) <= |buf|
    ensures StepOk(buf, s) && Next(buf, s) == s + n + 1 && Emits(buf, s) == [Entry(buf, s, n)]
  {
    assert !SlotFree(buf, s);
  }

  /** Filling a free run with a complete group adds exactly one listing. */
  lemma {:induction false} InsertGroup(a: seq<byte>, b: seq<byte>, k: nat, s: nat, n: nat) returns (j: nat)
    requires k <= s && Wf(a, k) && FreeRun(a, s, n + 1) && GroupAt(b, s, n)
    requires |a| == |b| && forall i | 0 <= i < |a| && !(SLOT * s <= i < SLOT * (s + n + 1)) :: a[i] == b[i]
    ensures Wf(b, k) && j <= |List(a, k)|
    ensures List(b, k) == List(a, k)[..j] + [Entry(b, s, n)] + List(a, k)[j..]
    decreases s - k
  {
    hide StepOk, Next, Emits, Entry, GroupAt, Wf, List;
    assert SlotFree(a, s);
    if k == s {
      SkipFree(a, s, n + 1);
      SameSuffix(a, b, s + n + 1);
      GroupStep(b, s, n);
      ListStep(b, s);
      j := 0;
    } else {
      ListStep(a, k);
      NextBelowFree(a, k, s);
      SameStep(a, b, k);
      j := InsertGroup(a, b, Next(a, k), s, n);
      ListStep(b, k);
      Moved(Emits(a, k), List(a, Next(a, k)), j);
      j := j + |Emits(a, k)|;
    }
  }

  /** Reading from slot k comes to slot g. */
  ghost predicate Reaches(buf: seq<byte>, k: nat, g: nat)
    decreases g - k
  {
    k == g || (k < g && HasSlot(buf, k) && Reaches(buf, Next(buf, k), g))
  }

  lemma {:induction false} ReachesNext(buf: seq<byte>, k: nat, g: nat)
    requires Reaches(buf, k, g) && HasSlot(buf, g)
    ensures Reaches(buf, k, Next(buf, g))
    decreases g - k
  {
    hide Next;
    if k < g {
      ReachesNext(buf, Next(buf, k), g);
    }
  }

  ghost predicate ZeroedSlots(a: seq<byte>, b: seq<byte>, s: nat, count: nat) {
    && |a| == |b|
    && forall i | 0 <= i < |a| :: b[i] == if SLOT * s <= i < SLOT * (s + count) then 0 else a[i]
  }

  lemma ZeroedIsFree(a: seq<byte>, b: seq<byte>, s: nat, count: nat)
    requires ZeroedSlots(a, b, s, count) && SLOT * (s + count) <= |a|
    ensures FreeRun(b, s, count)
  {
  }

  /** Zeroing a whole group takes exactly its listing away. */
  lemma {:induction false} RemoveGroup(a: seq<byte>, b: seq<byte>, k: nat, g: nat, n: nat) returns (j: nat)
    requires Wf(a, k) && Reaches(a, k, g) && GroupAt(a, g, n) && ZeroedSlots(a, b, g, n + 1)
    ensures Wf(b, k) && Wf(a, g) && j < |List(a, k)| && List(a, k)[j] == Entry(a, g, n)
    ensures List(a, k)[j..] == List(a, g)
    ensures List(b, k) == List(a, k)[..j] + List(a, k)[j + 1..]
    decreases g - k
  {
    hide StepOk, Next, Emits, Entry, GroupAt, Wf, List;
    if k == g {
      GroupStep(a, g, n);
      ListStep(a, g);
      SameSuffix(a, b, g + n + 1);
      ZeroedIsFree(a, b, g, n + 1);
      SkipFree(b, g, n + 1);
      j := 0;
    } else {
      ReachesAbove(a, Next(a, k), g);
      ListStep(a, k);
      SameStep(a, b, k);
      j := RemoveGroup(a, b, Next(a, k), g, n);
      ListStep(b, k);
      Moved(Emits(a, k), List(a, Next(a, k)), j);
      Moved(Emits(a, k), List(a, Next(a, k)), j + 1);
      j := j + |Emits(a, k)|;
    }
  }

  lemma ReachesAbove(buf: seq<byte>, k: nat, g: nat)
    requires Reaches(buf, k, g)
    ensures k <= g
  {
  }

  /** A cleared cluster is an empty piece of directory. */
  lemma {:induction false} ClearedCluster(buf: seq<byte>, k: nat)
    requires forall i | 0 <= i < |buf| :: buf[i] == 0
    ensures Wf(buf, k) && List(buf, k) == []
    decreases |buf| - SLOT * k
  {
    if HasSlot(buf, k) {
      ClearedCluster(buf, k + 1);
    }
  }
}

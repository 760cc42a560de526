/** The loops of the driver that read, search and clear the slots of one directory cluster. */
module FatDirScan {
  import opened Bytes
  import opened FatNames
  import opened FatDirectory

  // ----- trimming 8.3 names

  /** UtilTrimSpaces: the first space among max + 1 characters becomes the terminator. */
  method TrimSpaces(c: array<byte>, from: nat, max: nat)
    requires from + max < c.Length && c[from + max] == 0
    modifies c
    ensures CStr(c[from..from + max + 1]) == Trimmed(old(c[from..from + max]))
    ensures c[from + max] == 0
    ensures forall k | 0 <= k < c.Length && !(from <= k < from + max) :: c[k] == old(c[k])
  {
    hide CStr, Trimmed;
    var p, i := from, 0;
    while c[p] != 0x20 && i < max
      invariant i <= max && p == from + i
      invariant forall k | from <= k < p :: c[k] != 0x20
      decreases max - i
    {
      i := i + 1;
      p := p + 1;
    }
    ghost var s := c[from..from + max];
    if c[p] == 0x20 {
      c[p] := 0;
    }
    TrimmedAt(s, c[from..from + max + 1], p - from);
  }

  /** A terminator for the first space, or behind them all if there is none. */
  lemma {:induction false} TrimmedAt(s: seq<byte>, t: seq<byte>, p: nat)
    requires p <= |s| && p < |t| && t[p] == 0 && (p < |s| ==> s[p] == 0x20)
    requires forall i | 0 <= i < p :: s[i] == t[i] != 0x20
    ensures CStr(t) == Trimmed(s)
  {
    if p > 0 && s[0] != 0 {
      TrimmedAt(s[1..], t[1..], p - 1);
    }
  }

  lemma TrimmedNoNul(s: seq<byte>)
    ensures 0 !in Trimmed(s) && |Trimmed(s)| <= |s|
  {
  }

  method StrLen(c: array<byte>) returns (n: nat)
    requires 0 in c[..]
    ensures n < c.Length && c[n] == 0 && c[..n] == CStr(c[..])
  {
    n := 0;
    while c[n] != 0
      invariant n <= c.Length && 0 !in c[..n] && 0 in c[n..]
      decreases c.Length - n
    {
      n := n + 1;
      assert c[..n] == c[..n - 1] + [c[n - 1]];
    }
    CStrPrefix(c[..n], c[n..]);
    assert c[..] == c[..n] + c[n..];
  }

  /** The stem and the extension of an 8.3 name as two strings. */
  method SplitShort(buf: seq<byte>, at: nat) returns (name: array<byte>, extension: array<byte>)
    requires at + 11 <= |buf|
    ensures fresh(name) && fresh(extension) && name != extension && name.Length == 13 && extension.Length == 4
    ensures name[8] == 0 && extension[3] == 0
    ensures CStr(name[..]) == Trimmed(buf[at..at + 8]) && CStr(extension[..]) == Trimmed(buf[at + 8..at + 11])
  {
    hide Trimmed, CStr;
    name := new byte[13](_ => 0);
    CopyIn(name, 0, buf[at..at + 11]);
    assert forall k | 0 <= k < 11 :: name[k] == buf[at + k];
    name[11] := 0;
    extension := new byte[4](_ => 0);
    CopyIn(extension, 0, name[8..11]);
    assert forall k | 0 <= k < 3 :: extension[k] == buf[at + 8 + k];
    extension[3] := 0;
    assert extension[0..3] == buf[at + 8..at + 11];
    TrimSpaces(extension, 0, 3);
    assert extension[0..4] == extension[..];
    name[8] := 0;
    assert forall k | 0 <= k < 8 :: name[k] == buf[at + k];
    assert name[0..8] == buf[at..at + 8];
    TrimSpaces(name, 0, 8);
    assert name[..][8] == 0;
    SameString(name[..], name[0..9], 8);
  }

  /** The name of an entry that has no long name. */
  method ShortName(buf: seq<byte>, at: nat) returns (name: array<byte>)
    requires at + 11 <= |buf|
    ensures fresh(name) && 0 in name[..] && CStr(name[..]) == ShortText(buf, at)
  {
    hide Trimmed, CStr;
    var extension: array<byte>;
    name, extension := SplitShort(buf, at);
    ghost var stem, ext := Trimmed(buf[at..at + 8]), Trimmed(buf[at + 8..at + 11]);
    TrimmedNoNul(buf[at..at + 8]);
    TrimmedNoNul(buf[at + 8..at + 11]);
    assert name[..][8] == 0 && extension[..][3] == 0;
    var n := StrLen(extension);
    if n > 0 {
      var len := StrLen(name);
      name[len] := '.' as int;
      CopyIn(name, len + 1, extension[0..4]);
      assert name[..] == (stem + ['.' as int] + ext) + name[len + 1 + n..];
      CStrPrefix(stem + ['.' as int] + ext, name[len + 1 + n..]);
      assert name[..][len + 1 + n] == 0;
    }
  }

  /** What lies behind a NUL makes no difference. */
  lemma {:induction false} SameString(s: seq<byte>, t: seq<byte>, m: nat)
    requires m < |s| && m < |t| && s[m] == 0 && forall i | 0 <= i <= m :: s[i] == t[i]
    ensures CStr(s) == CStr(t)
  {
    if m > 0 {
      SameString(s[1..], t[1..], m - 1);
    }
  }

  method CopyIn(dst: array<byte>, at: nat, src: seq<byte>)
    requires at + |src| <= dst.Length
    modifies dst
    ensures forall k | 0 <= k < dst.Length :: dst[k] == if at <= k < at + |src| then src[k - at] else old(dst[k])
  {
    var i := 0;
    while i < |src|
      invariant 0 <= i <= |src|
      invariant forall k | 0 <= k < dst.Length :: dst[k] == if at <= k < at + i then src[k - at] else old(dst[k])
    {
      dst[at + i] := src[i];
      i := i + 1;
    }
  }

  // ----- reading one entry

  /** How many long-name slots start at k, unless they run to the end of the cluster. */
  method CountLfn(buf: seq<byte>, k: nat) returns (ok: bool, count: nat)
    requires |buf| % SLOT == 0 && HasSlot(buf, k)
    ensures ok <==> HasSlot(buf, k + LfnRun(buf, k))
    ensures ok ==> count == LfnRun(buf, k)
  {
    count := 0;
    while buf[SLOT * (k + count) + 11] == LFN
      invariant HasSlot(buf, k + count) && count + LfnRun(buf, k + count) == LfnRun(buf, k)
      decreases |buf| - SLOT * (k + count)
    {
      count := count + 1;
      if SLOT * (k + count) == |buf| {
        return false, count;
      }
    }
    ok := true;
  }

  /** FatReadDirectoryEntry.  `next` is the slot behind the entry; there is none when the slot is
      free or the long-name slots run to the end of the cluster. */
  method ReadDirectoryEntry(buf: seq<byte>, k: nat) returns (ok: bool, next: nat, entry: Listing)
    requires |buf| % SLOT == 0 && HasSlot(buf, k)
    requires HasSlot(buf, k + LfnRun(buf, k)) && LfnRun(buf, k) > 0 ==> Numbered(buf, SLOT * k, LfnRun(buf, k))
    ensures ok <==> !SlotFree(buf, k) && HasSlot(buf, k + LfnRun(buf, k))
    ensures ok ==> next == Next(buf, k) && entry == Entry(buf, k, LfnRun(buf, k))
  {
    hide LfnRun, CStr, LongName, ShortText, Numbered, Le16, Le32;
    ok, next, entry := false, k, Listing([], 0, 0, 0);
    var first := buf[SLOT * k];
    if first == 0 || first == 0xE5 {
      return;
    }
    var count: nat;
    ok, count := CountLfn(buf, k);
    if !ok {
      return;
    }
    var name: array<byte>;
    if count > 0 {
      name := ParseLongName(buf, SLOT * k, count);
    } else {
      name := ShortName(buf, SLOT * k);
    }
    var at := SLOT * (k + count);
    next := k + count + 1;
    entry := Listing(CStr(name[..]), buf[at + 11], Le16(buf, at + 20) * 0x1_0000 + Le16(buf, at + 26), Le32(buf, at + 28));
  }

  lemma StepFacts(buf: seq<byte>, k: nat)
    requires HasSlot(buf, k) && StepOk(buf, k) && !SlotFree(buf, k)
    ensures GroupAt(buf, k, LfnRun(buf, k)) && Emits(buf, k) == [Entry(buf, k, LfnRun(buf, k))]
    ensures HasSlot(buf, k + LfnRun(buf, k)) && Next(buf, k) == k + LfnRun(buf, k) + 1
    ensures LfnRun(buf, k) > 0 ==> Numbered(buf, SLOT * k, LfnRun(buf, k))
  {
  }

  /** The inner loop of FatPopulateDir. */
  method ListCluster(buf: seq<byte>) returns (entries: seq<Listing>)
    requires |buf| % SLOT == 0 && Wf(buf, 0)
    ensures entries == List(buf, 0)
  {
    hide StepOk, Emits, Next, Entry, GroupAt;
    entries := [];
    var k := 0;
    while SLOT * k < |buf|
      invariant SLOT * k <= |buf| && Wf(buf, k) && entries + List(buf, k) == List(buf, 0)
      decreases |buf| - SLOT * k
    {
      var first := buf[SLOT * k];
      if first == 0 || first == 0xE5 {
        FreeStep(buf, k);
        k := k + 1;
      } else {
        StepFacts(buf, k);
        var ok, next, entry := ReadDirectoryEntry(buf, k);
        entries := entries + [entry];
        k := next;
      }
    }
  }

  // ----- searching room

  /** The inner loop of FatLocateEntries: the first place for `count` slots in a row. */
  method FindFreeRun(buf: seq<byte>, count: nat) returns (index: int)
    requires |buf| % SLOT == 0 && count > 0
    ensures index >= 0 ==> FreeRun(buf, index, count)
    ensures forall s: nat | index < 0 || s < index :: !FreeRun(buf, s, count)
  {
    index := -1;
    var inARow, i := 0, 0;
    while SLOT * i < |buf|
      invariant SLOT * i <= |buf| && inARow <= i && inARow < count
      invariant forall t: nat | i - inARow <= t < i :: SlotFree(buf, t)
      invariant inARow < i ==> !SlotFree(buf, i - inARow - 1)
      invariant forall s: nat | s + count <= i :: !FreeRun(buf, s, count)
    {
      var first := buf[SLOT * i];
      if first == 0x00 || first == 0xE5 {
        inARow := inARow + 1;
      } else {
        inARow := 0;
      }
      if inARow == count {
        index := i - (inARow - 1);
        return;
      }
      BlockedRun(buf, i, inARow, count);
      i := i + 1;
    }
  }

  lemma BlockedRun(buf: seq<byte>, i: nat, inARow: nat, count: nat)
    requires HasSlot(buf, i) && inARow <= i + 1 && inARow < count
    requires inARow < i + 1 ==> !SlotFree(buf, i - inARow)
    ensures forall s: nat | s + count == i + 1 :: !FreeRun(buf, s, count)
  {
  }

  // ----- deleting

  /** Where the first entry of that name is, if the cluster has one. */
  ghost predicate FirstNamed(buf: seq<byte>, filename: seq<byte>, j: nat)
    requires Wf(buf, 0)
  {
    j < |List(buf, 0)| && List(buf, 0)[j].name == filename && forall i | 0 <= i < j :: List(buf, 0)[i].name != filename
  }

  /** A group of that name is zero, and every other byte as it was. */
  ghost predicate GroupCleared(before: seq<byte>, after: seq<byte>, filename: seq<byte>, g: nat, n: nat) {
    && GroupAt(before, g, n) && Entry(before, g, n).name == filename && |after| == |before|
    && forall i | 0 <= i < |before| :: after[i] == if 32 * g <= i < 32 * (g + n + 1) then 0 else before[i]
  }

  lemma ClearedIs(before: seq<byte>, after: seq<byte>, filename: seq<byte>, g: nat, n: nat)
    requires GroupAt(before, g, n) && Entry(before, g, n).name == filename && ZeroedSlots(before, after, g, n + 1)
    ensures SlotsCleared(before, after, filename)
  {
    hide GroupAt, Entry;
    assert GroupCleared(before, after, filename, g, n);
  }

  ghost predicate SlotsCleared(before: seq<byte>, after: seq<byte>, filename: seq<byte>) {
    exists g: nat, n: nat :: GroupCleared(before, after, filename, g, n)
  }

  /** The inner loop of FatDeleteFile: find the entry and clear its slots. */
  method DeleteInCluster(buf: array<byte>, filename: seq<byte>) returns (found: bool, entry: Listing, ghost j: nat)
    requires buf.Length % SLOT == 0 && Wf(buf[..], 0)
    modifies buf
    ensures Wf(buf[..], 0)
    ensures !found ==> buf[..] == old(buf[..]) && forall e | e in List(buf[..], 0) :: e.name != filename
    ensures found ==>
              && FirstNamed(old(buf[..]), filename, j) && entry == List(old(buf[..]), 0)[j]
              && List(buf[..], 0) == List(old(buf[..]), 0)[..j] + List(old(buf[..]), 0)[j + 1..]
              && SlotsCleared(old(buf[..]), buf[..], filename)
  {
    hide StepOk, Emits, Next, Entry, GroupAt, LfnRun, Wf, List, Reaches, HasSlot, ZeroedSlots, SlotsCleared;
    found, entry, j := false, Listing([], 0, 0, 0), 0;
    ghost var before := buf[..];
    ghost var all := List(before, 0);
    var k := 0;
    ScanBegin(before);
    while SLOT * k < buf.Length
      invariant SLOT * k <= buf.Length && buf[..] == before && Wf(before, k) && Reaches(before, 0, k)
      invariant j <= |all| && all[j..] == List(before, k)
      invariant forall i | 0 <= i < j :: all[i].name != filename
      decreases buf.Length - SLOT * k
    {
      ScanStep(before, k);
      var first := buf[SLOT * k];
      if first == 0 || first == 0xE5 {
        k := k + 1;
      } else {
        var ok, next, target := ReadDirectoryEntry(buf[..], k);
        assert all[j..][0] == target && all[j..][1..] == List(before, next);
        if target.name == filename {
          found, entry := true, target;
          ClearSlots(buf, k, next - k);
          ClearedIs(before, buf[..], filename, k, LfnRun(before, k));
          var j' := RemoveGroup(before, buf[..], 0, k, LfnRun(before, k));
          assert |all[j..]| == |all[j'..]|;
          return;
        }
        k := next;
        j := j + 1;
      }
    }
    ScanEnd(before, k);
    assert j == |all|;
  }

  lemma ScanBegin(buf: seq<byte>)
    ensures Reaches(buf, 0, 0)
  {
  }

  lemma ScanEnd(buf: seq<byte>, k: nat)
    requires Wf(buf, k) && SLOT * k == |buf|
    ensures List(buf, k) == []
  {
  }

  /** What one round of a scan over the slots finds at slot k. */
  lemma ScanStep(buf: seq<byte>, k: nat)
    requires |buf| % SLOT == 0 && SLOT * k < |buf| && Wf(buf, k) && Reaches(buf, 0, k)
    ensures HasSlot(buf, k) && SLOT * Next(buf, k) <= |buf| && k < Next(buf, k)
    ensures Wf(buf, Next(buf, k)) && Reaches(buf, 0, Next(buf, k))
    ensures SlotFree(buf, k) ==> Next(buf, k) == k + 1 && List(buf, k) == List(buf, k + 1)
    ensures !SlotFree(buf, k) ==>
              && HasSlot(buf, k + LfnRun(buf, k)) && GroupAt(buf, k, LfnRun(buf, k))
              && Next(buf, k) == k + LfnRun(buf, k) + 1
              && (LfnRun(buf, k) > 0 ==> Numbered(buf, SLOT * k, LfnRun(buf, k)))
              && List(buf, k) == [Entry(buf, k, LfnRun(buf, k))] + List(buf, Next(buf, k))
  {
    hide StepOk, Emits, Next, Entry, GroupAt, LfnRun;
    ReachesNext(buf, 0, k);
    if SlotFree(buf, k) {
      FreeStep(buf, k);
    } else {
      StepFacts(buf, k);
    }
  }

  method ClearSlots(buf: array<byte>, k: nat, count: nat)
    requires SLOT * (k + count) <= buf.Length
    modifies buf
    ensures ZeroedSlots(old(buf[..]), buf[..], k, count)
  {
    var i := SLOT * k;
    while i < SLOT * (k + count)
      invariant SLOT * k <= i <= SLOT * (k + count)
      invariant forall x | 0 <= x < buf.Length :: buf[x] == if SLOT * k <= x < i then 0 else old(buf[x])
    {
      buf[i] := 0;
      i := i + 1;
    }
  }
}

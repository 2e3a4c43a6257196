/** How many blocks a disk has left, and how many files and writes take. */
module Space {
  import opened Disk
  import opened Images

  // ---------- the blocks that are left ----------

  /** The blocks of the disk that the bitmap does not mark. */
  ghost function Unmarked(blocks: seq<Block>, ninodes: nat): set<nat>
    requires DataStart(|blocks|, ninodes) <= |blocks|
  {
    set b: nat | b < |blocks| && !Marked(blocks, ninodes, b)
  }

  ghost function Free(blocks: seq<Block>, ninodes: nat): nat
    requires DataStart(|blocks|, ninodes) <= |blocks|
  {
    |Unmarked(blocks, ninodes)|
  }

  function Below(n: nat): (r: set<nat>)
    ensures |r| == n && forall b: nat :: b in r <==> b < n
  {
    if n == 0 then {} else Below(n - 1) + {n - 1}
  }

  lemma ThreeParts(n: nat, start: nat, owned: set<nat>, free: set<nat>)
    requires start <= n && forall b | b in owned :: start <= b < n
    requires forall b: nat :: b in free <==> start <= b < n && b !in owned
    ensures |free| + |owned| + start == n
  {
    assert Below(n) == free + owned + Below(start);
    assert free !! owned && (free + owned) !! Below(start);
  }

  /** What is not metadata and nobody's is free. */
  lemma FreeOwned(blocks: seq<Block>, inodes: seq<Dinode>, owner: map<nat, (nat, nat)>)
    requires Sound(blocks, inodes, owner)
    ensures Free(blocks, |inodes|) + |owner| + DataStart(|blocks|, |inodes|) == |blocks|
  {
    hide Marked, Slot, IsZero, DataStart;
    ThreeParts(|blocks|, DataStart(|blocks|, |inodes|), owner.Keys, Unmarked(blocks, |inodes|));
    assert |owner| == |owner.Keys|;
  }

  lemma NoneFree(blocks: seq<Block>, ninodes: nat)
    requires DataStart(|blocks|, ninodes) <= |blocks|
    ensures Free(blocks, ninodes) > 0 <==> exists b | 0 <= b < |blocks| :: !Marked(blocks, ninodes, b)
  {
    if b: nat :| b < |blocks| && !Marked(blocks, ninodes, b) {
      assert b in Unmarked(blocks, ninodes);
    } else {
      assert Unmarked(blocks, ninodes) == {};
    }
  }

  /** A block given to a slot is one free block less. */
  lemma OneLess(blocks: seq<Block>, inodes: seq<Dinode>, owner: map<nat, (nat, nat)>, b: nat, at: (nat, nat),
                blocks': seq<Block>, inodes': seq<Dinode>)
    requires Sound(blocks, inodes, owner) && b < |blocks| && !Marked(blocks, |inodes|, b)
    requires Sound(blocks', inodes', owner[b := at]) && |blocks'| == |blocks| && |inodes'| == |inodes|
    ensures Free(blocks', |inodes|) + 1 == Free(blocks, |inodes|)
  {
    hide Marked, Slot, Free;
    FreeOwned(blocks, inodes, owner);
    FreeOwned(blocks', inodes', owner[b := at]);
    assert owner[b := at].Keys == owner.Keys + {b} && |owner| == |owner.Keys|;
  }

  lemma SameFree(blocks: seq<Block>, inodes: seq<Dinode>, owner: map<nat, (nat, nat)>, blocks': seq<Block>,
                 inodes': seq<Dinode>)
    requires Sound(blocks, inodes, owner) && Sound(blocks', inodes', owner)
    requires |blocks'| == |blocks| && |inodes'| == |inodes|
    ensures Free(blocks', |inodes|) == Free(blocks, |inodes|)
  {
    hide Marked, Slot, Free;
    FreeOwned(blocks, inodes, owner);
    FreeOwned(blocks', inodes', owner);
  }

  // ---------- the blocks a transfer takes ----------

  /** What bmap takes for block bn of the file: the block, and the indirect block, if missing. */
  function NeedsAt(blocks: seq<Block>, d: Dinode, bn: nat): nat
    requires bn < MAXFILE
  {
    (if Slot(blocks, d, DataSlot(bn)) == 0 then 1 else 0) + if bn >= NDIRECT && d.addrs[12] == 0 then 1 else 0
  }

  /** The data blocks from lo up to hi that are missing. */
  function Missing(blocks: seq<Block>, d: Dinode, lo: nat, hi: nat): nat
    requires lo <= hi <= MAXFILE
    decreases hi - lo
  {
    if lo == hi then 0
    else (if Slot(blocks, d, DataSlot(lo)) == 0 then 1 else 0) + Missing(blocks, d, lo + 1, hi)
  }

  /** The blocks a transfer of k bytes at off takes: those that are missing, and the indirect block if it is missing and
      the transfer goes past the twelfth block. */
  function Needs(blocks: seq<Block>, d: Dinode, off: nat, k: nat): nat
    requires off + k <= MAXBYTES
  {
    if k == 0 then 0
    else Missing(blocks, d, off / 512, (off + k - 1) / 512 + 1)
         + if (off + k - 1) / 512 >= NDIRECT && d.addrs[12] == 0 then 1 else 0
  }

  lemma {:induction false} MissingSame(blocks: seq<Block>, d: Dinode, blocks': seq<Block>, d': Dinode, lo: nat, hi: nat)
    requires lo <= hi <= MAXFILE
    requires forall n | lo <= n < hi :: Slot(blocks', d', DataSlot(n)) == Slot(blocks, d, DataSlot(n))
    ensures Missing(blocks', d', lo, hi) == Missing(blocks, d, lo, hi)
    decreases hi - lo
  {
    if lo < hi { MissingSame(blocks, d, blocks', d', lo + 1, hi); }
  }

  /** The first m bytes, within one block, and then the rest. */
  lemma NeedsInTurn(blocks: seq<Block>, d: Dinode, blocks': seq<Block>, d': Dinode, off: nat, k: nat, m: nat)
    requires off + k <= MAXBYTES && 0 < m <= k && off % 512 + m <= 512 && (m < k ==> off % 512 + m == 512)
    requires Elsewhere(blocks, d, blocks', d', DataSlot(off / 512))
    requires d'.addrs[12] != 0 || (off / 512 < NDIRECT && d.addrs[12] == 0)
    requires off / 512 < NDIRECT ==> d'.addrs[12] == d.addrs[12]
    ensures off / 512 < MAXFILE
    ensures Needs(blocks, d, off, k) == NeedsAt(blocks, d, off / 512) + Needs(blocks', d', off + m, k - m)
  {
    hide Slot;
    var bn, hi := off / 512, (off + k - 1) / 512 + 1;
    assert (off + m - 1) / 512 == bn;
    if m < k {
      assert (off + m) / 512 == bn + 1;
      assert (off + m) + (k - m) - 1 == off + k - 1;
      forall n | bn + 1 <= n < hi
        ensures Slot(blocks', d', DataSlot(n)) == Slot(blocks, d, DataSlot(n))
      {
        assert DataSlot(n) != DataSlot(bn) && DataSlot(n) != 12;
      }
      MissingSame(blocks, d, blocks', d', bn + 1, hi);
    } else {
      assert Missing(blocks, d, bn + 1, bn + 1) == 0;
    }
  }

  /** What a pass of the loop leaves to be found. */
  lemma SectorNeeds(blocks: seq<Block>, d: Dinode, blocks': seq<Block>, d': Dinode, inodes: seq<Dinode>, i: nat,
                    off: nat, chunk: seq<Byte>, k: nat)
    requires WroteSector(blocks, d, blocks', d', inodes, i, off, chunk)
    requires off + k <= MAXBYTES && 0 < |chunk| <= k && (|chunk| < k ==> off % 512 + |chunk| == 512)
    ensures off / 512 < MAXFILE && Needs(blocks, d, off, k) ==
            NeedsAt(blocks, d, off / 512) + Needs(blocks', d', off + |chunk|, k - |chunk|)
  {
    hide Bytes, OthersKeep, Slot, Grows, Elsewhere, Needs, NeedsAt;
    NeedsInTurn(blocks, d, blocks', d', off, k, |chunk|);
  }

  /** The first block has to be found whatever comes after it. */
  lemma NeedsFirst(blocks: seq<Block>, d: Dinode, off: nat, k: nat)
    requires off + k <= MAXBYTES && 0 < k
    ensures off / 512 < MAXFILE && NeedsAt(blocks, d, off / 512) <= Needs(blocks, d, off, k)
  {
    hide Slot;
    assert off / 512 <= (off + k - 1) / 512;
  }

  lemma NeedsNothing(blocks: seq<Block>, d: Dinode, off: nat)
    requires off <= MAXBYTES
    ensures Needs(blocks, d, off, 0) == 0
  {
  }

  lemma NeedsNow(blocks: seq<Block>, d: Dinode, bn: nat)
    requires bn < MAXFILE && Slot(blocks, d, DataSlot(bn)) != 0
    ensures NeedsAt(blocks, d, bn) == 0
  {
  }

  // ---------- the blocks a file takes ----------

  /** The blocks of a file of that size: one for each 512 bytes begun, and the indirect block past the twelfth. */
  function BlocksFor(size: nat): nat {
    (size + 511) / 512 + if size > NDIRECT * 512 then 1 else 0
  }

  lemma BlocksMore(a: nat, b: nat)
    requires a <= b
    ensures BlocksFor(a) <= BlocksFor(b)
  {
  }

  lemma {:induction false} MissingPacked(blocks: seq<Block>, d: Dinode, lo: nat, hi: nat)
    requires Packed(blocks, d) && d.size <= MAXBYTES && lo <= hi <= MAXFILE
    ensures var q := (d.size + 511) / 512; Missing(blocks, d, lo, hi) == if hi <= q then 0 else if lo <= q then hi - q
                                                                       else hi - lo
    decreases hi - lo
  {
    hide Slot;
    if lo < hi {
      MissingPacked(blocks, d, lo + 1, hi);
      assert lo * 512 < d.size <==> lo < (d.size + 511) / 512;
    }
  }

  lemma IndirectPacked(blocks: seq<Block>, d: Dinode)
    requires Packed(blocks, d)
    ensures d.addrs[12] != 0 <==> d.size > NDIRECT * 512
  {
    if d.size > NDIRECT * 512 { assert Slot(blocks, d, DataSlot(12)) != 0; }
  }

  /** What a transfer takes is what the larger file takes more. */
  lemma NeedsPacked(blocks: seq<Block>, d: Dinode, off: nat, k: nat)
    requires Packed(blocks, d) && off <= d.size <= MAXBYTES && off + k <= MAXBYTES
    ensures Needs(blocks, d, off, k) + BlocksFor(d.size) == BlocksFor(if off + k > d.size then off + k else d.size)
  {
    hide Slot, Packed;
    IndirectPacked(blocks, d);
    if k > 0 {
      var hi := (off + k - 1) / 512 + 1;
      assert hi == (off + k + 511) / 512;
      MissingPacked(blocks, d, off / 512, hi);
    }
  }

  /** A file without holes has all a transfer below its size needs. */
  lemma NeedsDense(blocks: seq<Block>, d: Dinode, off: nat, k: nat)
    requires Dense(blocks, d) && off + k <= d.size <= MAXBYTES
    ensures Needs(blocks, d, off, k) == 0
  {
    if k > 0 {
      var hi := (off + k - 1) / 512 + 1;
      assert (hi - 1) * 512 <= off + k - 1;
      NoneMissing(blocks, d, off / 512, hi);
      assert Slot(blocks, d, DataSlot(hi - 1)) != 0;
    }
  }

  lemma {:induction false} NoneMissing(blocks: seq<Block>, d: Dinode, lo: nat, hi: nat)
    requires lo <= hi <= MAXFILE && forall n | lo <= n < hi :: Slot(blocks, d, DataSlot(n)) != 0
    ensures Missing(blocks, d, lo, hi) == 0
    decreases hi - lo
  {
    if lo < hi { NoneMissing(blocks, d, lo + 1, hi); }
  }

  // ---------- the blocks all files take ----------

  function BlocksForAll(sizes: seq<nat>): nat {
    if sizes == [] then 0 else BlocksForAll(sizes[..|sizes| - 1]) + BlocksFor(sizes[|sizes| - 1])
  }

  lemma {:induction false} OneResized(sizes: seq<nat>, i: nat, n: nat)
    requires i < |sizes|
    ensures BlocksForAll(sizes[i := n]) + BlocksFor(sizes[i]) == BlocksForAll(sizes) + BlocksFor(n)
  {
    var last := |sizes| - 1;
    if i < last {
      OneResized(sizes[..last], i, n);
      assert sizes[i := n][..last] == sizes[..last][i := n];
    } else {
      assert sizes[i := n][..last] == sizes[..last];
    }
  }

  lemma {:induction false} AllLarger(a: seq<nat>, b: seq<nat>)
    requires |a| == |b| && forall i | 0 <= i < |a| :: a[i] <= b[i]
    ensures BlocksForAll(a) <= BlocksForAll(b)
  {
    if a != [] {
      var last := |a| - 1;
      AllLarger(a[..last], b[..last]);
      BlocksMore(a[last], b[last]);
    }
  }

  /** How many of the first n slots of an inode are in use. */
  function Used(blocks: seq<Block>, d: Dinode, n: nat): nat
    requires n <= SLOTS
  {
    if n == 0 then 0 else Used(blocks, d, n - 1) + if Slot(blocks, d, n - 1) != 0 then 1 else 0
  }

  lemma {:induction false} UsedPacked(blocks: seq<Block>, d: Dinode, n: nat)
    requires Packed(blocks, d) && d.size <= MAXBYTES && n <= SLOTS
    ensures var q := (d.size + 511) / 512;
            Used(blocks, d, n) == if n <= 12 then (if n <= q then n else q)
                                  else if q <= 12 then q
                                  else 13 + if n - 13 <= q - 12 then n - 13 else q - 12
  {
    hide Slot;
    if n > 0 {
      UsedPacked(blocks, d, n - 1);
      if n == 13 {
        IndirectPacked(blocks, d);
        SlotOfPointer(blocks, d, 12);
      } else {
        var m := if n <= 12 then n - 1 else n - 2;
        assert DataSlot(m) == n - 1;
        assert m * 512 < d.size <==> m < (d.size + 511) / 512;
      }
    }
  }

  /** The blocks held by the first n slots of inode i. */
  ghost function OfSlots(owner: map<nat, (nat, nat)>, i: nat, n: nat): set<nat> {
    set b | b in owner && owner[b].0 == i && owner[b].1 < n
  }

  ghost function OfInodes(owner: map<nat, (nat, nat)>, n: nat): set<nat> {
    set b | b in owner && owner[b].0 < n
  }

  lemma {:induction false} CountSlots(blocks: seq<Block>, inodes: seq<Dinode>, start: nat,
                                      owner: map<nat, (nat, nat)>, i: nat, n: nat)
    requires Owns(blocks, inodes, start, owner) && i < |inodes| && n <= SLOTS
    ensures |OfSlots(owner, i, n)| == Used(blocks, inodes[i], n)
  {
    hide Slot;
    if n > 0 {
      CountSlots(blocks, inodes, start, owner, i, n - 1);
      var c := Slot(blocks, inodes[i], n - 1);
      if c != 0 {
        assert OfSlots(owner, i, n) == OfSlots(owner, i, n - 1) + {c};
      } else {
        assert OfSlots(owner, i, n) == OfSlots(owner, i, n - 1);
      }
    } else {
      assert OfSlots(owner, i, 0) == {};
    }
  }

  function SizesOf(inodes: seq<Dinode>): (r: seq<nat>)
    ensures |r| == |inodes| && forall i | 0 <= i < |inodes| :: r[i] == inodes[i].size
  {
    seq(|inodes|, i requires 0 <= i < |inodes| => inodes[i].size)
  }

  lemma {:induction false} CountInodes(blocks: seq<Block>, inodes: seq<Dinode>, start: nat,
                                       owner: map<nat, (nat, nat)>, n: nat)
    requires Owns(blocks, inodes, start, owner) && n <= |inodes|
    requires forall i | 0 <= i < |inodes| :: Packed(blocks, inodes[i]) && inodes[i].size <= MAXBYTES
    ensures |OfInodes(owner, n)| == BlocksForAll(SizesOf(inodes)[..n])
  {
    hide Slot, Packed;
    if n > 0 {
      CountInodes(blocks, inodes, start, owner, n - 1);
      CountSlots(blocks, inodes, start, owner, n - 1, SLOTS);
      UsedPacked(blocks, inodes[n - 1], SLOTS);
      assert OfInodes(owner, n) == OfInodes(owner, n - 1) + OfSlots(owner, n - 1, SLOTS);
      assert OfInodes(owner, n - 1) !! OfSlots(owner, n - 1, SLOTS);
      assert SizesOf(inodes)[..n][..n - 1] == SizesOf(inodes)[..n - 1];
    } else {
      assert OfInodes(owner, 0) == {};
    }
  }

  /** The blocks that have an owner are those the files ask for. */
  lemma OwnedForSizes(blocks: seq<Block>, inodes: seq<Dinode>, start: nat, owner: map<nat, (nat, nat)>)
    requires Owns(blocks, inodes, start, owner)
    requires forall i | 0 <= i < |inodes| :: Packed(blocks, inodes[i]) && inodes[i].size <= MAXBYTES
    ensures |owner| == BlocksForAll(SizesOf(inodes))
  {
    hide Slot, Packed;
    CountInodes(blocks, inodes, start, owner, |inodes|);
    assert OfInodes(owner, |inodes|) == owner.Keys && |owner| == |owner.Keys|;
    assert SizesOf(inodes)[..|inodes|] == SizesOf(inodes);
  }

  // ---------- files as byte sequences ----------

  function Sizes(files: seq<File>): (r: seq<nat>)
    ensures |r| == |files|
    ensures forall i | 0 <= i < |files| :: r[i] == if files[i].Absent? then 0 else |files[i].bytes|
  {
    seq(|files|, i requires 0 <= i < |files| => if files[i].Absent? then 0 else |files[i].bytes|)
  }

  /** The blocks that files take. */
  function Held(files: seq<File>): nat {
    BlocksForAll(Sizes(files))
  }

  lemma OneChanged(files: seq<File>, i: nat, f: File)
    requires i < |files|
    ensures Held(files[i := f]) + BlocksFor(Sizes(files)[i])
         == Held(files) + BlocksFor(if f.Absent? then 0 else |f.bytes|)
  {
    var n := if f.Absent? then 0 else |f.bytes|;
    OneResized(Sizes(files), i, n);
    assert Sizes(files[i := f]) == Sizes(files)[i := n];
  }

  /** An inode not in use has no bytes. */
  lemma SizesSeen(blocks: seq<Block>, inodes: seq<Dinode>)
    requires forall i | 0 <= i < |inodes| :: Packed(blocks, inodes[i]) && Tidy(blocks, inodes[i])
    ensures Sizes(Files(blocks, inodes)) == SizesOf(inodes)
  {
    forall i | 0 <= i < |inodes|
      ensures Sizes(Files(blocks, inodes))[i] == inodes[i].size
    {
      FileAt(blocks, inodes, i);
      if inodes[i].typ == 0 && inodes[i].size > 0 { assert Slot(blocks, inodes[i], DataSlot(0)) != 0; }
    }
  }

  /** The free blocks of a disk are those its files do not take. */
  lemma FreeAndHeld(blocks: seq<Block>, inodes: seq<Dinode>, owner: map<nat, (nat, nat)>)
    requires Image(blocks, inodes, owner) && forall i | 0 <= i < |inodes| :: Packed(blocks, inodes[i])
    ensures Free(blocks, |inodes|) + Held(Files(blocks, inodes)) + DataStart(|blocks|, |inodes|) == |blocks|
  {
    hide Packed, Marked, Free, Files, IsZero;
    FreeOwned(blocks, inodes, owner);
    SizesSeen(blocks, inodes);
    OwnedForSizes(blocks, inodes, DataStart(|blocks|, |inodes|), owner);
  }
}

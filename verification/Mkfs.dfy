/** The image builder, tools/mkfs.c: blocks are handed out in order and the bitmap is written last. */
module Mkfs {
  import opened Disk
  import opened Images
  import opened Space

  /** An image under construction: the blocks from start up to freeblock are in use, the rest and
      the bitmap sectors are still zero. */
  ghost predicate Assembling(blocks: seq<Block>, inodes: seq<Dinode>, owner: map<nat, (nat, nat)>, freeblock: nat) {
    var start := DataStart(|blocks|, |inodes|);
    && start <= freeblock <= |blocks|
    && Owns(blocks, inodes, start, owner)
    && (forall b :: b in owner <==> start <= b < freeblock)
    && (forall c | freeblock <= c < |blocks| :: IsZero(blocks[c]))
    && (forall c | |inodes| / 8 + 3 <= c < start :: IsZero(blocks[c]))
  }

  lemma NewPointer(blocks: seq<Block>, inodes: seq<Dinode>, owner: map<nat, (nat, nat)>, b: nat, i: nat, s: nat,
                   inodes': seq<Dinode>)
    requires Assembling(blocks, inodes, owner, b) && b < |blocks|
    requires i < |inodes| && s <= 12 && inodes[i].addrs[s] == 0
    requires inodes' == inodes[i := inodes[i].(addrs := inodes[i].addrs[s := b])]
    ensures Assembling(blocks, inodes', owner[b := (i, s)], b + 1)
    ensures Fills(blocks, inodes, blocks, inodes', i, s, b)
  {
    AttachPointer(blocks, inodes, DataStart(|blocks|, |inodes|), owner, i, s, b);
  }

  lemma NewEntry(blocks: seq<Block>, inodes: seq<Dinode>, owner: map<nat, (nat, nat)>, b: nat, i: nat, k: nat)
      returns (blocks': seq<Block>)
    requires Assembling(blocks, inodes, owner, b) && b < |blocks|
    requires i < |inodes| && k < 128 && inodes[i].addrs[12] != 0 && Slot(blocks, inodes[i], 13 + k) == 0
    ensures inodes[i].addrs[12] < b
    ensures var a := inodes[i].addrs[12]; blocks' == blocks[a := SetWord(blocks[a], k, b)]
    ensures Assembling(blocks', inodes, owner[b := (i, 13 + k)], b + 1)
    ensures Fills(blocks, inodes, blocks', inodes, i, 13 + k, b)
  {
    hide Owns, Slot, SetWord, IsZero;
    OwnsStart(blocks, inodes, DataStart(|blocks|, |inodes|), owner);
    SlotOfPointer(blocks, inodes[i], 12);
    EntryTaken(blocks, inodes, DataStart(|blocks|, |inodes|), owner, i, k, b);
    var a := inodes[i].addrs[12];
    blocks' := blocks[a := SetWord(blocks[a], k, b)];
  }

  lemma AppendChunk(blocks: seq<Block>, inodes: seq<Dinode>, owner: map<nat, (nat, nat)>, freeblock: nat, i: nat,
                    off: nat, chunk: seq<Byte>)
      returns (blocks': seq<Block>)
    requires Assembling(blocks, inodes, owner, freeblock) && i < |inodes|
    requires off < MAXBYTES && off % 512 + |chunk| <= 512
    requires Slot(blocks, inodes[i], DataSlot(off / 512)) != 0
    ensures off + |chunk| <= MAXBYTES
    ensures var b := Slot(blocks, inodes[i], DataSlot(off / 512));
            b < |blocks| && blocks' == blocks[b := Splice(blocks[b], off % 512, chunk)]
    ensures Assembling(blocks', inodes, owner, freeblock)
    ensures Bytes(blocks', inodes[i]) == Splice(Bytes(blocks, inodes[i]), off, chunk)
    ensures OthersKeep(blocks, blocks', inodes, i)
    ensures forall t | 0 <= t < SLOTS :: Slot(blocks', inodes[i], t) == Slot(blocks, inodes[i], t)
  {
    hide OthersKeep, Bytes, Owns, Slot;
    blocks' := WriteOwned(blocks, inodes, DataStart(|blocks|, |inodes|), owner, i, off, chunk);
  }

  /** The bitmap sector after the loop of balloc: exactly the first used bits are set. */
  ghost predicate FirstBits(buf: Block, used: nat) {
    forall c | 0 <= c < 4096 :: Bit(buf[c / 8], c % 8) == (c < used)
  }

  lemma NoBits()
    ensures FirstBits(ZeroBlock(), 0)
  {
    forall c | 0 <= c < 4096
      ensures !Bit(ZeroBlock()[c / 8], c % 8)
    {
      ZeroHasNoBits(ZeroBlock()[c / 8], c % 8);
    }
  }

  lemma OneMoreBit(buf: Block, i: nat)
    requires FirstBits(buf, i) && i < 4096
    ensures FirstBits(buf[i / 8 := MarkByte(buf[i / 8], i % 8)], i + 1)
  {
    forall c | 0 <= c < 4096
      ensures Bit(buf[i / 8 := MarkByte(buf[i / 8], i % 8)][c / 8], c % 8) == (c < i + 1)
    {
      if c / 8 == i / 8 { OrMaskBits(buf[i / 8], i % 8, c % 8); }
    }
  }

  lemma ZeroHasNoBits(v: nat, k: nat)
    requires v == 0
    ensures !Bit(v, k)
  {
  }

  /** Writing that sector completes the image. */
  lemma BitmapCompletes(blocks: seq<Block>, inodes: seq<Dinode>, owner: map<nat, (nat, nat)>, freeblock: nat,
                        holed: set<nat>, buf: Block)
    requires Built(blocks, inodes, owner, freeblock, holed) && freeblock < 4096
    requires FirstBits(buf, freeblock)
    ensures Image(blocks[|inodes| / 8 + 3 := buf], inodes, owner)
    ensures Files(blocks[|inodes| / 8 + 3 := buf], inodes) == Files(blocks, inodes)
    ensures forall i | 0 <= i < |inodes| :: Packed(blocks[|inodes| / 8 + 3 := buf], inodes[i]) <==> i !in holed
  {
    var blocks' := blocks[|inodes| / 8 + 3 := buf];
    var start := DataStart(|blocks|, |inodes|);
    CompletedOwns(blocks, inodes, owner, freeblock, blocks');
    CompletedBitmap(blocks, inodes, owner, freeblock, buf);
    hide Judged, Gap;
    forall i | 0 <= i < |inodes|
      ensures Tidy(blocks', inodes[i]) && FileOf(blocks', inodes[i]) == FileOf(blocks, inodes[i])
      ensures Packed(blocks', inodes[i]) <==> i !in holed
    {
      assert Keeps(blocks, blocks', inodes[i]) && Neat(blocks, inodes[i]);
      TidySame(blocks, inodes[i], blocks', inodes[i]);
      GapNotDense(blocks, inodes[i], i in holed);
    }
  }

  lemma CompletedOwns(blocks: seq<Block>, inodes: seq<Dinode>, owner: map<nat, (nat, nat)>, freeblock: nat,
                      blocks': seq<Block>)
    requires Assembling(blocks, inodes, owner, freeblock) && |blocks'| == |blocks|
    requires forall c | DataStart(|blocks|, |inodes|) <= c < |blocks| :: blocks'[c] == blocks[c]
    ensures Owns(blocks', inodes, DataStart(|blocks|, |inodes|), owner)
    ensures forall i | 0 <= i < |inodes| :: Keeps(blocks, blocks', inodes[i])
  {
    hide Slot;
    OwnsFrame(blocks, blocks', inodes, DataStart(|blocks|, |inodes|), owner);
    forall i | 0 <= i < |inodes|
      ensures Keeps(blocks, blocks', inodes[i])
    {
      forall n | 0 <= n < MAXFILE && Slot(blocks, inodes[i], DataSlot(n)) != 0
        ensures var b := Slot(blocks, inodes[i], DataSlot(n)); DataStart(|blocks|, |inodes|) <= b < |blocks|
      {
        SlotOwned(blocks, inodes, DataStart(|blocks|, |inodes|), owner, i, DataSlot(n));
      }
      SameBytes(blocks, inodes[i], blocks', inodes[i]);
    }
  }

  lemma CompletedBitmap(blocks: seq<Block>, inodes: seq<Dinode>, owner: map<nat, (nat, nat)>, freeblock: nat,
                        buf: Block)
    requires Assembling(blocks, inodes, owner, freeblock) && freeblock < 4096
    requires FirstBits(buf, freeblock)
    ensures BitmapAgrees(blocks[|inodes| / 8 + 3 := buf], |inodes|, owner)
  {
    hide Owns;
    var blocks' := blocks[|inodes| / 8 + 3 := buf];
    forall b | 0 <= b < |blocks|
      ensures Marked(blocks', |inodes|, b) == (b < freeblock)
    {
      if b < 4096 {
        assert b % 4096 == b && BBlock(b, |inodes|) == |inodes| / 8 + 3;
      } else {
        ZeroHasNoBits(blocks[BBlock(b, |inodes|)][b % 4096 / 8], b % 4096 % 8);
      }
    }
  }

  lemma SlotAssembled(blocks: seq<Block>, inodes: seq<Dinode>, owner: map<nat, (nat, nat)>, freeblock: nat, i: nat,
                      s: nat)
    requires Assembling(blocks, inodes, owner, freeblock) && i < |inodes| && s < SLOTS
    ensures Slot(blocks, inodes[i], s) < |blocks|
    ensures s <= 12 ==> Slot(blocks, inodes[i], s) == inodes[i].addrs[s]
    ensures s > 12 && inodes[i].addrs[12] != 0 ==>
              inodes[i].addrs[12] < |blocks| && Slot(blocks, inodes[i], s) == Word(blocks[inodes[i].addrs[12]], s - 13)
    ensures 0 < freeblock <= |blocks|
  {
    if Slot(blocks, inodes[i], s) != 0 { SlotOwned(blocks, inodes, DataStart(|blocks|, |inodes|), owner, i, s); }
    if Slot(blocks, inodes[i], 12) != 0 { SlotOwned(blocks, inodes, DataStart(|blocks|, |inodes|), owner, i, 12); }
  }

  lemma SlotIn(blocks: seq<Block>, inodes: seq<Dinode>, owner: map<nat, (nat, nat)>, freeblock: nat, i: nat, bn: nat)
    requires Assembling(blocks, inodes, owner, freeblock) && i < |inodes| && bn < MAXFILE
    ensures bn < NDIRECT ==> Slot(blocks, inodes[i], DataSlot(bn)) == inodes[i].addrs[bn]
    ensures bn >= NDIRECT && inodes[i].addrs[12] == 0 ==> Slot(blocks, inodes[i], DataSlot(bn)) == 0
    ensures freeblock <= |blocks|
  {
  }

  /** Changing only what is not a block pointer. */
  lemma SameAddrs(blocks: seq<Block>, inodes: seq<Dinode>, owner: map<nat, (nat, nat)>, freeblock: nat, i: nat,
                  d: Dinode)
    requires Assembling(blocks, inodes, owner, freeblock) && i < |inodes| && d.addrs == inodes[i].addrs
    ensures Assembling(blocks, inodes[i := d], owner, freeblock)
    ensures Bytes(blocks, d) == Bytes(blocks, inodes[i])
    ensures forall s | 0 <= s < SLOTS :: Slot(blocks, d, s) == Slot(blocks, inodes[i], s)
  {
    forall j, s | 0 <= j < |inodes| && 0 <= s < SLOTS
      ensures Slot(blocks, inodes[i := d][j], s) == Slot(blocks, inodes[j], s)
    {
    }
    SlotsOfAddrs(blocks, inodes[i], d);
    SameBytes(blocks, inodes[i], blocks, d);
  }

  /** A whole block below the size is missing. */
  ghost predicate Gap(blocks: seq<Block>, d: Dinode) {
    exists n | 0 <= n < MAXFILE :: (n + 1) * 512 <= d.size && Slot(blocks, d, DataSlot(n)) == 0
  }

  ghost predicate Judged(blocks: seq<Block>, d: Dinode, holed: bool) {
    if holed then Gap(blocks, d) else Dense(blocks, d)
  }

  lemma GapNotDense(blocks: seq<Block>, d: Dinode, holed: bool)
    requires Judged(blocks, d, holed)
    ensures Dense(blocks, d) <==> !holed
  {
  }

  /** Nothing past the size, and a last block that is begun is there. */
  ghost predicate Neat(blocks: seq<Block>, d: Dinode) {
    Snug(blocks, d) && (d.size % 512 != 0 && d.size < MAXBYTES ==> Slot(blocks, d, DataSlot(d.size / 512)) != 0)
  }

  /** The blocks it takes to append k bytes to a file of that size, which may have an indirect block. */
  function NeedsTail(size: nat, tall: bool, k: nat): nat {
    if k == 0 then 0
    else (size + k + 511) / 512 - (size + 511) / 512 + if size + k > NDIRECT * 512 && !tall then 1 else 0
  }

  lemma TailGrows(size: nat, k: nat)
    ensures NeedsTail(size, size > NDIRECT * 512, k) + BlocksFor(size) == BlocksFor(size + k)
  {
  }

  lemma {:induction false} MissingPast(blocks: seq<Block>, d: Dinode, lo: nat, hi: nat)
    requires Snug(blocks, d) && d.size <= lo * 512 && lo <= hi <= MAXFILE
    ensures Missing(blocks, d, lo, hi) == hi - lo
    decreases hi - lo
  {
    hide Slot;
    if lo < hi { MissingPast(blocks, d, lo + 1, hi); }
  }

  lemma NeedsAtEnd(blocks: seq<Block>, d: Dinode, k: nat)
    requires Neat(blocks, d) && d.size + k <= MAXBYTES
    ensures Needs(blocks, d, d.size, k) == NeedsTail(d.size, d.addrs[12] != 0, k)
  {
    hide Slot, Snug;
    if k > 0 {
      var lo, hi := d.size / 512, (d.size + k - 1) / 512 + 1;
      assert hi == (d.size + k + 511) / 512;
      MissingPast(blocks, d, (d.size + 511) / 512, hi);
    }
  }

  /** Files under construction: consistent and tidy, and exactly those in holed have a block missing. */
  ghost predicate Built(blocks: seq<Block>, inodes: seq<Dinode>, owner: map<nat, (nat, nat)>, freeblock: nat,
                        holed: set<nat>) {
    && Assembling(blocks, inodes, owner, freeblock)
    && (forall i | 0 <= i < |inodes| :: Tidy(blocks, inodes[i]) && Neat(blocks, inodes[i]))
    && (forall i {:trigger inodes[i]} | 0 <= i < |inodes| :: Judged(blocks, inodes[i], i in holed))
  }

  lemma FreshBuilt(blocks: seq<Block>, inodes: seq<Dinode>, owner: map<nat, (nat, nat)>, freeblock: nat,
                   holed: set<nat>, i: nat, d: Dinode)
    requires Built(blocks, inodes, owner, freeblock, holed) && i < |inodes| && inodes[i].typ == 0 && i !in holed
    requires d.size == 0 && (forall k | 0 <= k < 13 :: d.addrs[k] == 0) && d.typ != 0
    ensures Built(blocks, inodes[i := d], owner, freeblock, holed)
    ensures Files(blocks, inodes[i := d]) == Files(blocks, inodes)[i := File(d.typ, d.major, d.minor, d.nlink, [])]
  {
    assert d.addrs == inodes[i].addrs;
    SameAddrs(blocks, inodes, owner, freeblock, i, d);
    AllClear(blocks, d);
    KeepAll(blocks, inodes, i);
    OneFileChanged(blocks, inodes, blocks, inodes[i := d], i);
    assert FileOf(blocks, d) == File(d.typ, d.major, d.minor, d.nlink, []);
  }

  lemma OthersNeat(blocks: seq<Block>, inodes: seq<Dinode>, blocks': seq<Block>, inodes': seq<Dinode>, i: nat)
    requires |inodes'| == |inodes| && i < |inodes| && OthersKeep(blocks, blocks', inodes, i)
    requires forall j | 0 <= j < |inodes| && j != i :: inodes'[j] == inodes[j]
    requires (forall j | 0 <= j < |inodes| :: Neat(blocks, inodes[j])) && Neat(blocks', inodes'[i])
    ensures forall j | 0 <= j < |inodes'| :: Neat(blocks', inodes'[j])
  {
    forall j | 0 <= j < |inodes| && j != i
      ensures Neat(blocks', inodes'[j])
    {
      assert Keeps(blocks, blocks', inodes[j]);
    }
  }

  lemma OthersJudged(blocks: seq<Block>, inodes: seq<Dinode>, blocks': seq<Block>, i: nat, j: nat, holed: bool)
    requires i < |inodes| && j < |inodes| && j != i && OthersKeep(blocks, blocks', inodes, i)
    requires Judged(blocks, inodes[j], holed)
    ensures Judged(blocks', inodes[j], holed)
  {
    assert Keeps(blocks, blocks', inodes[j]);
    if holed { GapStays(blocks, inodes[j], blocks', inodes[j]); }
  }

  lemma GapStays(blocks: seq<Block>, d: Dinode, blocks': seq<Block>, d': Dinode)
    requires Gap(blocks, d) && d'.size >= d.size
    requires forall n | 0 <= n < MAXFILE && (n + 1) * 512 <= d.size ::
               Slot(blocks', d', DataSlot(n)) == Slot(blocks, d, DataSlot(n))
    ensures Gap(blocks', d')
  {
    var n :| 0 <= n < MAXFILE && (n + 1) * 512 <= d.size && Slot(blocks, d, DataSlot(n)) == 0;
    assert Slot(blocks', d', DataSlot(n)) == 0;
  }

  /** Appending neither fills nor makes a hole. */
  lemma AppendJudged(blocks: seq<Block>, d: Dinode, blocks': seq<Block>, d': Dinode, k: nat, holed: bool)
    requires Judged(blocks, d, holed) && Grows(blocks, d, blocks', d') && Mapped(blocks', d', d.size, k)
    requires Untouched(blocks, d, blocks', d', d.size, k) && d'.size == d.size + k
    ensures Judged(blocks', d', holed)
  {
    if holed {
      hide Slot;
      GapStays(blocks, d, blocks', d');
    } else {
      DenseStays(blocks, d, blocks', d', d.size, k);
    }
  }

  lemma NeatStays(blocks: seq<Block>, d: Dinode, blocks': seq<Block>, d': Dinode, k: nat)
    requires Neat(blocks, d) && Untouched(blocks, d, blocks', d', d.size, k) && Filled(d.addrs, d'.addrs, d.size, k)
    requires Mapped(blocks', d', d.size, k) && Grows(blocks, d, blocks', d') && d'.size == d.size + k <= MAXBYTES
    ensures Neat(blocks', d')
  {
    hide Slot, Filled;
    SnugStays(blocks, d, blocks', d', d.size, k);
    if k > 0 && d'.size % 512 != 0 { assert d.size / 512 <= d'.size / 512 == (d.size + k - 1) / 512 < MAXFILE; }
  }

  /** An append makes an indirect block exactly if it goes past the twelfth block. */
  lemma WroteTall(blocks0: seq<Block>, inodes: seq<Dinode>, blocks: seq<Block>, din: Dinode, i: nat, p: seq<Byte>)
    requires i < |inodes| && Wrote(blocks0, inodes[i], blocks, din, inodes, i, inodes[i].size, p)
    ensures din.addrs[12] != 0 <==> inodes[i].addrs[12] != 0 || (p != [] && inodes[i].size + |p| > NDIRECT * 512)
  {
    hide Bytes, Grows, OthersKeep, Mapped, Untouched;
    assert Touches(12, inodes[i].size, |p|) <==> p != [] && inodes[i].size + |p| > NDIRECT * 512;
  }

  /** The end of iappend: din holds the new blocks, d the new size as well. */
  lemma AppendedBuilt(blocks0: seq<Block>, inodes: seq<Dinode>, owner0: map<nat, (nat, nat)>, freeblock0: nat,
                      holed: set<nat>, blocks: seq<Block>, owner: map<nat, (nat, nat)>, freeblock: nat,
                      i: nat, din: Dinode, d: Dinode, p: seq<Byte>)
    requires Built(blocks0, inodes, owner0, freeblock0, holed) && i < |inodes| && inodes[i].typ != 0
    requires Assembling(blocks, inodes[i := din], owner, freeblock)
    requires Wrote(blocks0, inodes[i], blocks, din, inodes, i, inodes[i].size, p)
    requires d == din.(size := inodes[i].size + |p|)
    ensures Built(blocks, inodes[i := d], owner, freeblock, holed)
    ensures d.size <= MAXBYTES && inodes[i].size <= MAXBYTES
    ensures Files(blocks, inodes[i := d]) ==
            Files(blocks0, inodes)[i := FileOf(blocks0, inodes[i]).(bytes := Contents(blocks0, inodes[i]) + p)]
  {
    hide Slot, OthersKeep, Bytes, Owns, Judged, Dense, Gap;
    SameAddrs(blocks, inodes[i := din], owner, freeblock, i, d);
    assert inodes[i := din][i := d] == inodes[i := d];
    SlotsOfAddrs(blocks, din, d);
    SpliceGrows(blocks0, inodes[i], blocks, d, inodes[i].size, p);
    AppendJudged(blocks0, inodes[i], blocks, d, |p|, i in holed);
    NeatStays(blocks0, inodes[i], blocks, d, |p|);
    OthersNeat(blocks0, inodes, blocks, inodes[i := d], i);
    AllJudged(blocks0, inodes, blocks, i, d, holed, holed);
    OneFileChanged(blocks0, inodes, blocks, inodes[i := d], i);
    OthersTidy(blocks0, blocks, inodes, i, inodes[i := d]);
  }

  lemma AllJudged(blocks: seq<Block>, inodes: seq<Dinode>, blocks': seq<Block>, i: nat, d: Dinode, holed: set<nat>,
                  holed': set<nat>)
    requires i < |inodes| && OthersKeep(blocks, blocks', inodes, i) && Judged(blocks', d, i in holed')
    requires forall j {:trigger inodes[j]} | 0 <= j < |inodes| && j != i ::
               Judged(blocks, inodes[j], j in holed) && (j in holed <==> j in holed')
    ensures forall j {:trigger inodes[i := d][j]} | 0 <= j < |inodes| :: Judged(blocks', inodes[i := d][j], j in holed')
  {
    hide OthersKeep, Judged;
    forall j | 0 <= j < |inodes|
      ensures Judged(blocks', inodes[i := d][j], j in holed')
    {
      if j != i { OthersJudged(blocks, inodes, blocks', i, j, j in holed); }
    }
  }

  /** The inodes with a hole once inode i, of that size, has been padded. */
  function HoledBy(holed: set<nat>, i: nat, size: nat): set<nat> {
    if size % 512 == 0 then holed + {i} else holed
  }

  lemma PaddedBuilt(blocks: seq<Block>, inodes: seq<Dinode>, owner: map<nat, (nat, nat)>, freeblock: nat,
                    holed: set<nat>, i: nat)
    requires Built(blocks, inodes, owner, freeblock, holed) && i < |inodes| && inodes[i].typ != 0
    requires Padded(inodes[i].size) <= MAXBYTES
    ensures var d := inodes[i].(size := Padded(inodes[i].size));
            && Built(blocks, inodes[i := d], owner, freeblock, HoledBy(holed, i, inodes[i].size))
            && Files(blocks, inodes[i := d]) ==
               Files(blocks, inodes)[i := FileOf(blocks, inodes[i]).(bytes :=
                 Contents(blocks, inodes[i]) + seq(Padded(inodes[i].size) - inodes[i].size, _ => 0))]
  {
    hide Bytes, Slot, Assembling, Tidy, Dense, Judged, Neat, OthersKeep, Padded;
    var d := inodes[i].(size := Padded(inodes[i].size));
    assert Tidy(blocks, inodes[i]) && Neat(blocks, inodes[i]) && Judged(blocks, inodes[i], i in holed);
    SameAddrs(blocks, inodes, owner, freeblock, i, d);
    PaddingIsZeros(blocks, inodes[i]);
    PaddingJudged(blocks, inodes[i], i in holed);
    KeepAll(blocks, inodes, i);
    AllJudged(blocks, inodes, blocks, i, d, holed, HoledBy(holed, i, inodes[i].size));
    OneFileChanged(blocks, inodes, blocks, inodes[i := d], i);
    BuiltFile(blocks, inodes, owner, freeblock, holed, i);
  }

  /** Only a file of the largest size cannot be padded. */
  lemma PaddedFits(size: nat)
    requires size <= MAXBYTES
    ensures size < Padded(size) && (Padded(size) <= MAXBYTES <==> size != MAXBYTES)
  {
  }

  lemma BuiltFile(blocks: seq<Block>, inodes: seq<Dinode>, owner: map<nat, (nat, nat)>, freeblock: nat,
                  holed: set<nat>, i: nat)
    requires Built(blocks, inodes, owner, freeblock, holed) && i < |inodes|
    ensures inodes[i].size <= MAXBYTES && Assembling(blocks, inodes, owner, freeblock) && Neat(blocks, inodes[i])
    ensures inodes[i].typ == 0 ==> inodes[i].addrs[12] == 0
    ensures |Files(blocks, inodes)| == |inodes| && Files(blocks, inodes)[i] == FileOf(blocks, inodes[i])
    ensures FileOf(blocks, inodes[i]).File? <==> inodes[i].typ != 0
    ensures inodes[i].typ != 0 ==>
              FileOf(blocks, inodes[i]).bytes == Contents(blocks, inodes[i])
              && |Contents(blocks, inodes[i])| == inodes[i].size
  {
  }

  /** add_dir pads a directory's size to whole blocks (tools/mkfs.c:188-193), a block more than
      needed when the size was already whole. */
  function Padded(size: nat): nat {
    (size / 512 + 1) * 512
  }

  /** What padding does to the bytes of a directory. */
  function PaddedBytes(bytes: seq<Byte>): (r: seq<Byte>)
    ensures |r| == Padded(|bytes|)
  {
    bytes + seq(Padded(|bytes|) - |bytes|, _ => 0)
  }

  /** Padding adds zero bytes. */
  lemma PaddingIsZeros(blocks: seq<Block>, d: Dinode)
    requires Tidy(blocks, d) && Padded(d.size) <= MAXBYTES
    ensures var d' := d.(size := Padded(d.size));
            Tidy(blocks, d') && Contents(blocks, d') == Contents(blocks, d) + seq(Padded(d.size) - d.size, _ => 0)
  {
    var d' := d.(size := Padded(d.size));
    SlotsOfAddrs(blocks, d, d');
    forall o | 0 <= o < MAXBYTES
      ensures ByteAt(blocks, d', o) == ByteAt(blocks, d, o)
    {
    }
    assert Contents(blocks, d') == Contents(blocks, d) + Bytes(blocks, d)[d.size..d'.size];
    forall o | d.size <= o < d'.size
      ensures Bytes(blocks, d)[o] == 0
    {
      assert ByteAt(blocks, d, o) == 0;
    }
  }

  /** Padding makes a hole exactly when the size was a whole number of blocks. */
  lemma PaddingMakesHole(blocks: seq<Block>, d: Dinode)
    requires Dense(blocks, d) && Snug(blocks, d) && Padded(d.size) <= MAXBYTES
    ensures Dense(blocks, d.(size := Padded(d.size))) <==> d.size % 512 != 0
    ensures Gap(blocks, d.(size := Padded(d.size))) <==> d.size % 512 == 0
  {
    var d' := d.(size := Padded(d.size));
    SlotsOfAddrs(blocks, d, d');
    var n := d.size / 512;
    if d.size % 512 == 0 {
      assert Slot(blocks, d', DataSlot(n)) == 0;
    } else {
      forall m | 0 <= m < MAXFILE && m * 512 < d'.size
        ensures Slot(blocks, d', DataSlot(m)) != 0
      {
        assert m <= n;
        assert Slot(blocks, d, DataSlot(m)) != 0;
      }
    }
  }

  lemma PaddingJudged(blocks: seq<Block>, d: Dinode, holed: bool)
    requires Judged(blocks, d, holed) && Neat(blocks, d) && Padded(d.size) <= MAXBYTES
    ensures var d' := d.(size := Padded(d.size));
            Judged(blocks, d', holed || d.size % 512 == 0) && Neat(blocks, d')
  {
    hide Slot, Dense, Snug, Gap;
    var d' := d.(size := Padded(d.size));
    SlotsOfAddrs(blocks, d, d');
    PaddingNeat(blocks, d, d');
    if holed { GapStays(blocks, d, blocks, d'); } else { PaddingMakesHole(blocks, d); }
  }

  lemma PaddingNeat(blocks: seq<Block>, d: Dinode, d': Dinode)
    requires Snug(blocks, d) && d' == d.(size := Padded(d.size))
    ensures Snug(blocks, d') && d'.size > d.size && d'.size % 512 == 0
  {
    SlotsOfAddrs(blocks, d, d');
  }

  /** An inode number past the table is written all the same: into the bitmap's sectors from the first multiple
      of 8 past the table on, and into data blocks from there on. */
  lemma PastTheTable(inum: nat, size: nat, ninodes: nat)
    ensures inum / 8 + 2 >= ninodes / 8 + 3 <==> inum >= (ninodes / 8 + 1) * 8
    ensures inum / 8 + 2 >= DataStart(size, ninodes) <==> inum >= (ninodes / 8 + size / 4096 + 2) * 8
  {
  }

  /** struct dinode of a new inode as it lies on the disk: its type, no device numbers, one link, no size, no blocks. */
  function NewDinode(typ: Byte): (r: seq<Byte>)
    ensures |r| == 64
  {
    [typ, 0, 0, 0, 0, 0, 1, 0] + seq(56, _ => 0)
  }

  /** winode of a new inode (tools/mkfs.c:257-269), into whatever sector its number comes to. */
  function Winode(blocks: seq<Block>, inum: nat, typ: Byte): seq<Block>
    requires inum / 8 + 2 < |blocks|
  {
    blocks[inum / 8 + 2 := Splice(blocks[inum / 8 + 2], inum % 8 * 64, NewDinode(typ))]
  }

  /** An inode in the bitmap sector is gone once balloc has written that sector. */
  lemma InodeInBitmap(blocks: seq<Block>, inum: nat, ninodes: nat, typ: Byte, buf: Block)
    requires inum / 8 + 2 == ninodes / 8 + 3 < |blocks|
    ensures Winode(blocks, inum, typ)[ninodes / 8 + 3 := buf] == blocks[ninodes / 8 + 3 := buf]
  {
  }

  /** An inode in a data block takes the place of 64 bytes of the file that has the block. */
  lemma InodeInFile(blocks: seq<Block>, inodes: seq<Dinode>, owner: map<nat, (nat, nat)>, freeblock: nat, inum: nat,
                    typ: Byte, i: nat, n: nat)
    requires Assembling(blocks, inodes, owner, freeblock) && i < |inodes| && n < MAXFILE
    requires Slot(blocks, inodes[i], DataSlot(n)) == inum / 8 + 2
    ensures inum / 8 + 2 < |blocks|
    ensures Bytes(Winode(blocks, inum, typ), inodes[i]) ==
            Splice(Bytes(blocks, inodes[i]), n * 512 + inum % 8 * 64, NewDinode(typ))
  {
    hide Bytes, Owns, Slot, NewDinode;
    var off := n * 512 + inum % 8 * 64;
    assert off / 512 == n && off % 512 == inum % 8 * 64;
    var blocks' := WriteOwned(blocks, inodes, DataStart(|blocks|, |inodes|), owner, i, off, NewDinode(typ));
  }

  // ---------- the calls as steps on byte sequences ----------

  datatype Op = NewInode(typ: int) | Append(inum: nat, p: seq<Byte>) | PadDir(inum: nat)

  /** The files so far, the next inode, the inodes with a missing block, those with an indirect block, and how many of
      the blocks of the disk are in use. */
  datatype Draft = Draft(files: seq<File>, next: nat, holed: set<nat>, tall: set<nat>, used: nat, size: nat) {
    /** There is an inode for it, room in the file, and blocks. */
    ghost predicate Allows(op: Op) {
      match op
      case NewInode(typ) => typ != 0 && next < |files|
      case Append(inum, p) =>
        && inum < |files| && files[inum].File? && |files[inum].bytes| + |p| <= MAXBYTES
        && used + NeedsTail(|files[inum].bytes|, inum in tall, |p|) <= size
      case PadDir(inum) => inum < |files| && files[inum].File? && |files[inum].bytes| < MAXBYTES
    }

    ghost function Stepped(op: Op): Draft {
      if !Allows(op) then this else
      match op
      case NewInode(typ) => this.(files := files[next := File(typ, 0, 0, 1, [])], next := next + 1)
      case Append(inum, p) =>
        var was := files[inum].bytes;
        this.(files := files[inum := files[inum].(bytes := was + p)],
              tall := if p != [] && |was| + |p| > NDIRECT * 512 then tall + {inum} else tall,
              used := used + NeedsTail(|was|, inum in tall, |p|))
      case PadDir(inum) =>
        this.(files := files[inum := files[inum].(bytes := PaddedBytes(files[inum].bytes))],
              holed := HoledBy(holed, inum, |files[inum].bytes|))
    }

    ghost function Ran(ops: seq<Op>): Draft {
      if ops == [] then this else Ran(ops[..|ops| - 1]).Stepped(ops[|ops| - 1])
    }

    /** One of the calls is not possible. */
    ghost predicate Halts(ops: seq<Op>) {
      ops != [] && (Halts(ops[..|ops| - 1]) || !Ran(ops[..|ops| - 1]).Allows(ops[|ops| - 1]))
    }
  }

  lemma {:induction false} HaltsForGood(st: Draft, ops: seq<Op>, n: nat)
    requires n <= |ops| && st.Halts(ops[..n])
    ensures st.Halts(ops)
    decreases |ops|
  {
    if n < |ops| {
      assert ops[..|ops| - 1][..n] == ops[..n];
      HaltsForGood(st, ops[..|ops| - 1], n);
    } else {
      assert ops[..n] == ops;
    }
  }

  /** The globals of mkfs.c over the image file. False results stand for assert failures and exit(1). */
  class Builder {
    const sectors: array<Block>
    const dinodes: array<Dinode>
    var freeblock: nat
    var usedblocks: nat
    var freeinode: nat
    ghost var owner: map<nat, (nat, nat)>
    /** The inodes with a missing block. */
    ghost var holed: set<nat>

    ghost predicate Building()
      reads this, sectors, dinodes
    {
      && sectors.Length < WORD && usedblocks == freeblock && 1 <= freeinode
      && Built(sectors[..], dinodes[..], owner, freeblock, holed)
      && (forall i | freeinode <= i < dinodes.Length :: dinodes[i].typ == 0 && i !in holed)
    }

    ghost predicate BuildingWith(inum: nat, din: Dinode)
      requires inum < dinodes.Length
      reads this, sectors, dinodes
    {
      && sectors.Length < WORD && usedblocks == freeblock
      && Assembling(sectors[..], dinodes[..][inum := din], owner, freeblock)
    }

    ghost function Contained(): seq<File>
      reads sectors, dinodes
    {
      Files(sectors[..], dinodes[..])
    }

    /** The inodes with an indirect block. */
    ghost function Tall(): set<nat>
      reads dinodes
    {
      set i: nat | i < dinodes.Length && dinodes[i].addrs[12] != 0
    }

    /** mkfs (tools/mkfs.c:67-95): every sector zero. The superblock's numbers are the array lengths. */
    constructor (nblocks: nat, ninodes: nat, size: nat)
      requires nblocks + DataStart(size, ninodes) == size < WORD
      ensures fresh(sectors) && fresh(dinodes) && sectors as object != dinodes as object && sectors.Length == size
                && dinodes.Length == ninodes
      ensures Building() && freeinode == 1 && freeblock == DataStart(size, ninodes) && holed == {}
      ensures forall i | 0 <= i < ninodes :: Contained()[i] == Absent
    {
      sectors := new Block[size](_ => ZeroBlock());
      dinodes := new Dinode[ninodes](_ => Dinode(0, 0, 0, 0, 0, seq(13, _ => 0)));
      usedblocks, freeblock, freeinode := DataStart(size, ninodes), DataStart(size, ninodes), 1;
      owner, holed := map[], {};
    }

    /** ialloc (tools/mkfs.c:297-308). */
    method Ialloc(typ: int) returns (ok: bool, inum: nat)
      requires Building() && typ != 0
      modifies dinodes, `freeinode
      ensures inum == old(freeinode) && freeinode == inum + 1 && ok == (inum < dinodes.Length)
      ensures ok ==>
                && Building() && Tall() == old(Tall())
                && Contained() == old(Contained())[inum := File(typ, 0, 0, 1, [])]
    {
      inum, freeinode := freeinode, freeinode + 1;
      ok := inum < dinodes.Length;
      if ok {
        var din := Dinode(typ, 0, 0, 1, 0, seq(13, _ => 0));
        ghost var inodes0 := dinodes[..];
        FreshBuilt(sectors[..], inodes0, owner, freeblock, holed, inum, din);
        hide Built;
        dinodes[inum] := din;
        assert dinodes[..] == inodes0[inum := din];
      }
    }

    /** "if(xint(din.addrs[p]) == 0) { din.addrs[p] = xint(freeblock++); usedblocks++; }" */
    method Pointer(inum: nat, din: Dinode, p: nat) returns (ok: bool, din': Dinode)
      requires inum < dinodes.Length && BuildingWith(inum, din) && p <= 12
      modifies `freeblock, `usedblocks, `owner
      ensures ok <==> din.addrs[p] != 0 || old(freeblock) < sectors.Length
      ensures ok ==> freeblock == old(freeblock) + if din.addrs[p] == 0 then 1 else 0
      ensures ok ==>
                && BuildingWith(inum, din') && din'.addrs[p] != 0
                && din' == din.(addrs := din.addrs[p := din'.addrs[p]])
                && (din.addrs[p] != 0 ==> din' == din)
                && Bytes(sectors[..], din') == Bytes(sectors[..], din)
                && Grows(sectors[..], din, sectors[..], din')
                && Elsewhere(sectors[..], din, sectors[..], din', p)
                && OthersKeep(sectors[..], sectors[..], dinodes[..], inum)
    {
      ghost var blocks, table0 := sectors[..], dinodes[..][inum := din];
      SlotAssembled(blocks, table0, owner, freeblock, inum, p);
      hide OthersKeep, Bytes, Assembling, Fills, Slot;
      KeepAll(blocks, dinodes[..], inum);
      if din.addrs[p] != 0 { return true, din; }
      var x := freeblock;
      freeblock, usedblocks := freeblock + 1, usedblocks + 1;
      din' := din.(addrs := din.addrs[p := x]);
      // a block past the end of the image: the coming rsect exits
      if x >= sectors.Length { return false, din'; }
      ghost var table' := dinodes[..][inum := din'];
      assert table' == table0[inum := din'];
      NewPointer(blocks, table0, owner, x, inum, p, table');
      FillsKeepsBytes(blocks, table0, blocks, table', inum, p, x);
      owner := owner[x := (inum, p)];
      ok := true;
    }

    /** The same for entry k of the indirect block. */
    method Entry(inum: nat, din: Dinode, k: nat) returns (ok: bool, x: nat)
      requires inum < dinodes.Length && BuildingWith(inum, din) && k < 128 && din.addrs[12] != 0
      modifies sectors, `freeblock, `usedblocks, `owner
      ensures ok <==> Slot(old(sectors[..]), din, 13 + k) != 0 || old(freeblock) < sectors.Length
      ensures ok ==> freeblock == old(freeblock) + if Slot(old(sectors[..]), din, 13 + k) == 0 then 1 else 0
      ensures ok ==>
                && BuildingWith(inum, din) && x == Slot(sectors[..], din, 13 + k) != 0
                && Bytes(sectors[..], din) == Bytes(old(sectors[..]), din)
                && Grows(old(sectors[..]), din, sectors[..], din)
                && Elsewhere(old(sectors[..]), din, sectors[..], din, 13 + k)
                && OthersKeep(old(sectors[..]), sectors[..], dinodes[..], inum)
    {
      hide OthersKeep, Bytes, Assembling, Fills, Slot, SetWord, Word;
      ghost var blocks0, table0 := sectors[..], dinodes[..][inum := din];
      SlotAssembled(blocks0, table0, owner, freeblock, inum, 13 + k);
      KeepAll(blocks0, dinodes[..], inum);
      var indirect := sectors[din.addrs[12]];
      x := Word(indirect, k);
      ok := true;
      if x == 0 {
        x, freeblock, usedblocks := freeblock, freeblock + 1, usedblocks + 1;
        // a block past the end of the image: the coming rsect exits
        if x >= sectors.Length { return false, x; }
        ghost var blocks' := NewEntry(blocks0, table0, owner, x, inum, k);
        FillsKeepsBytes(blocks0, table0, blocks', table0, inum, 13 + k, x);
        OthersKeepTable(blocks0, blocks', table0, dinodes[..], inum);
        FilledSlot(blocks0, table0, blocks', table0, inum, 13 + k, x);
        sectors[din.addrs[12]] := SetWord(indirect, k, x);
        owner := owner[x := (inum, 13 + k)];
        assert sectors[..] == blocks';
      }
    }

    /** One pass of the loop of iappend: find or take the block, read it, change it, write it back. */
    method AppendSector(inum: nat, din: Dinode, off: nat, chunk: seq<Byte>) returns (ok: bool, din': Dinode)
      requires inum < dinodes.Length && BuildingWith(inum, din) && off < MAXBYTES && off % 512 + |chunk| <= 512
      modifies sectors, `freeblock, `usedblocks, `owner
      ensures off / 512 < MAXFILE
      ensures ok <==> old(freeblock) + NeedsAt(old(sectors[..]), din, off / 512) <= sectors.Length
      ensures ok ==> freeblock == old(freeblock) + NeedsAt(old(sectors[..]), din, off / 512)
      ensures ok ==>
                && BuildingWith(inum, din')
                && WroteSector(old(sectors[..]), din, sectors[..], din', dinodes[..], inum, off, chunk)
    {
      hide OthersKeep, Bytes, Assembling, Slot;
      var fbn, x := off / 512, 0;
      SlotIn(sectors[..], dinodes[..][inum := din], owner, freeblock, inum, fbn);
      if fbn < 12 {
        ok, din' := Pointer(inum, din, fbn);
        if !ok { return; }
        x := din'.addrs[fbn];
        SlotAssembled(sectors[..], dinodes[..][inum := din'], owner, freeblock, inum, fbn);
      } else {
        ok, din' := Pointer(inum, din, 12);
        if !ok { return; }
        ok, x := Entry(inum, din', fbn - 12);
        if !ok { return; }
        SlotAssembled(sectors[..], dinodes[..][inum := din'], owner, freeblock, inum, fbn + 1);
        KeepTrans(old(sectors[..]), old(sectors[..]), sectors[..], dinodes[..], inum);
      }
      ghost var blocks2 := sectors[..];
      ghost var blocks3 := AppendChunk(blocks2, dinodes[..][inum := din'], owner, freeblock, inum, off, chunk);
      OthersKeepTable(blocks2, blocks3, dinodes[..][inum := din'], dinodes[..], inum);
      KeepTrans(old(sectors[..]), blocks2, blocks3, dinodes[..], inum);
      sectors[x] := Splice(sectors[x], off - fbn * 512, chunk);
      assert sectors[..] == blocks3;
    }

    /** "din.size = xint(off); winode(inum, &din);" */
    method AppendEnd(inum: nat, din: Dinode, ghost blocks0: seq<Block>, ghost owner0: map<nat, (nat, nat)>,
                     ghost free0: nat, off: nat, ghost p: seq<Byte>)
        returns (d: Dinode)
      requires inum < dinodes.Length && dinodes[inum].typ != 0 && 1 <= freeinode && BuildingWith(inum, din)
      requires Built(blocks0, dinodes[..], owner0, free0, holed) && off == dinodes[inum].size + |p|
      requires forall i | freeinode <= i < dinodes.Length :: dinodes[i].typ == 0 && i !in holed
      requires Wrote(blocks0, dinodes[inum], sectors[..], din, dinodes[..], inum, dinodes[inum].size, p)
      modifies dinodes
      ensures Building() && old(dinodes[inum].size) <= off <= MAXBYTES
      ensures dinodes[..] == old(dinodes[..])[inum := din.(size := off)]
      ensures Contained() ==
                Files(blocks0, old(dinodes[..]))[inum :=
                  FileOf(blocks0, old(dinodes[inum])).(bytes := Contents(blocks0, old(dinodes[inum])) + p)]
    {
      ghost var inodes0 := dinodes[..];
      d := din.(size := off);
      assert d.typ == dinodes[inum].typ by { assert din == dinodes[inum].(addrs := din.addrs); }
      AppendedBuilt(blocks0, inodes0, owner0, free0, holed, sectors[..], owner, freeblock, inum, din, d, p);
      hide Built, Wrote, Assembling;
      dinodes[inum] := d;
      assert dinodes[..] == inodes0[inum := d];
    }

    /** The copy loop of iappend. */
    method AppendLoop(inum: nat, d0: Dinode, p: seq<Byte>) returns (ok: bool, din: Dinode, off: nat)
      requires inum < dinodes.Length && BuildingWith(inum, d0) && d0.size <= MAXBYTES
      modifies sectors, `freeblock, `usedblocks, `owner
      ensures ok <==> d0.size + |p| <= MAXBYTES &&
                      old(freeblock) + Needs(old(sectors[..]), d0, d0.size, |p|) <= sectors.Length
      ensures ok ==> freeblock == old(freeblock) + Needs(old(sectors[..]), d0, d0.size, |p|)
      ensures ok ==>
                && BuildingWith(inum, din) && off == d0.size + |p|
                && Wrote(old(sectors[..]), d0, sectors[..], din, dinodes[..], inum, d0.size, p)
    {
      hide Assembling, Wrote, WroteSector, Needs, NeedsAt, Slot;
      ghost var blocks0, inodes0 := sectors[..], dinodes[..];
      din, off := d0, d0.size;
      var n := 0;
      WroteNone(blocks0, d0, inodes0, inum, off);
      SlotIn(blocks0, inodes0[inum := d0], owner, freeblock, inum, 0);
      assert p[..0] == [];
      while n < |p|
        invariant n <= |p| && off == d0.size + n <= MAXBYTES && freeblock <= sectors.Length
        invariant n == 0 || n == |p| || off % 512 == 0
        invariant BuildingWith(inum, din)
        invariant Wrote(blocks0, d0, sectors[..], din, inodes0, inum, d0.size, p[..n])
        invariant d0.size + |p| <= MAXBYTES ==>
                    freeblock + Needs(sectors[..], din, off, |p| - n) ==
                    old(freeblock) + Needs(blocks0, d0, d0.size, |p|)
      {
        if off / 512 >= MAXFILE { return false, din, off; }
        if d0.size + |p| <= MAXBYTES { NeedsFirst(sectors[..], din, off, |p| - n); }
        var n1 := if |p| - n < (off / 512 + 1) * 512 - off then |p| - n else (off / 512 + 1) * 512 - off;
        ghost var blocks1, din1 := sectors[..], din;
        ok, din := AppendSector(inum, din, off, p[n..n + n1]);
        if !ok { return; }
        if d0.size + |p| <= MAXBYTES {
          SectorNeeds(blocks1, din1, sectors[..], din, inodes0, inum, off, p[n..n + n1], |p| - n);
        }
        WroteMore(blocks0, d0, blocks1, din1, sectors[..], din, inodes0, inum, d0.size, p[..n], p[n..n + n1]);
        assert p[..n] + p[n..n + n1] == p[..n + n1];
        n, off := n + n1, off + n1;
      }
      NeedsNothing(sectors[..], din, off);
      assert p[..n] == p;
      ok := true;
    }

    /** iappend (tools/mkfs.c:328-375): the bytes at p are added to the end of the file. */
    method Iappend(inum: nat, p: seq<Byte>) returns (ok: bool)
      requires Building() && inum < dinodes.Length && dinodes[inum].typ != 0
      modifies sectors, dinodes, `freeblock, `usedblocks, `owner
      ensures ok <==>
                && old(dinodes[inum].size) + |p| <= MAXBYTES
                && old(freeblock) + NeedsTail(old(dinodes[inum].size), inum in old(Tall()), |p|) <= sectors.Length
      ensures ok ==>
                && freeblock == old(freeblock) + NeedsTail(old(dinodes[inum].size), inum in old(Tall()), |p|)
                && Tall() == if p != [] && old(dinodes[inum].size) + |p| > NDIRECT * 512 then old(Tall()) + {inum}
                             else old(Tall())
      ensures ok ==>
                && Building()
                && old(dinodes[inum].size) + |p| <= MAXBYTES
                && Contained() == old(Contained())[inum :=
                     old(Contained())[inum].(bytes := old(Contained())[inum].bytes + p)]
    {
      hide Assembling, Built, Wrote, Files, Contents, Needs, Neat, NeedsTail;
      var din, off := dinodes[inum], 0;
      ghost var blocks0, inodes0, owner0, free0 := sectors[..], dinodes[..], owner, freeblock;
      assert inodes0[inum := din] == inodes0;
      BuiltFile(blocks0, inodes0, owner, freeblock, holed, inum);
      if din.size + |p| <= MAXBYTES { NeedsAtEnd(blocks0, din, |p|); }
      ok, din, off := AppendLoop(inum, din, p);
      if ok {
        WroteTall(blocks0, inodes0, sectors[..], din, inum, p);
        din := AppendEnd(inum, din, blocks0, owner0, free0, off, p);
      }
    }

    /** "for(i = 0; i < used; i++) buf[i/8] = buf[i/8] | (0x1 << (i%8));" */
    static method Bitmap(used: nat) returns (buf: Block)
      requires used < 4096
      ensures FirstBits(buf, used)
    {
      buf := ZeroBlock();
      NoBits();
      hide FirstBits;
      var i := 0;
      while i < used
        invariant i <= used && FirstBits(buf, i)
      {
        OneMoreBit(buf, i);
        buf := buf[i / 8 := MarkByte(buf[i / 8], i % 8)];
        i := i + 1;
      }
    }

    /** balloc (tools/mkfs.c:310-324): the bitmap, in the one sector it writes. */
    method Balloc(used: nat) returns (ok: bool)
      requires Building() && used == usedblocks
      modifies sectors
      ensures ok <==> used < 4096
      ensures ok ==>
                && Image(sectors[..], dinodes[..], owner)
                && (forall i | 0 <= i < dinodes.Length :: Packed(sectors[..], dinodes[i]) <==> i !in holed)
                && Contained() == old(Contained())
    {
      hide Keeps, Image, Packed, Files, FirstBits, Owns, Tidy, Snug;
      if used >= 4096 { return false; }
      ghost var blocks := sectors[..];
      var buf := Bitmap(used);
      BitmapCompletes(blocks, dinodes[..], owner, freeblock, holed, buf);
      sectors[dinodes.Length / 8 + 3] := buf;
      assert sectors[..] == blocks[dinodes.Length / 8 + 3 := buf];
      ok := true;
    }

    /** The end of add_dir (tools/mkfs.c:188-193). */
    method Pad(inum: nat)
      requires Building() && inum < dinodes.Length && dinodes[inum].typ != 0
      modifies dinodes, `holed
      ensures dinodes[..] == old(dinodes[..])[inum := old(dinodes[inum]).(size := Padded(old(dinodes[inum].size)))]
      ensures old(dinodes[inum].size) <= MAXBYTES
      ensures old(dinodes[inum].size) != MAXBYTES ==>
                && Building() && holed == HoledBy(old(holed), inum, old(dinodes[inum].size)) && Tall() == old(Tall())
                && Contained() == old(Contained())[inum := old(Contained())[inum].(bytes :=
                     PaddedBytes(old(Contained())[inum].bytes))]
    {
      hide Built, Contents, Tidy, Files, FileOf, Padded;
      var din := dinodes[inum];
      var d := din.(size := Padded(din.size));
      BuiltFile(sectors[..], dinodes[..], owner, freeblock, holed, inum);
      PaddedFits(din.size);
      if din.size != MAXBYTES { PaddedBuilt(sectors[..], dinodes[..], owner, freeblock, holed, inum); }
      ghost var inodes0 := dinodes[..];
      dinodes[inum] := d;
      holed := HoledBy(holed, inum, din.size);
      assert dinodes[..] == inodes0[inum := d];
    }

    ghost function View(): Draft
      reads this, sectors, dinodes
    {
      Draft(Contained(), freeinode, holed, Tall(), freeblock, sectors.Length)
    }

    method Perform(op: Op) returns (ok: bool)
      requires Building()
      modifies this, sectors, dinodes
      ensures ok <==> old(View()).Allows(op)
      ensures ok ==> Building() && View() == old(View()).Stepped(op)
    {
      forall i | 0 <= i < dinodes.Length
        ensures i < |Contained()| && Contained()[i] == FileOf(sectors[..], dinodes[i])
        ensures Contained()[i].File? <==> dinodes[i].typ != 0
        ensures dinodes[i].typ != 0 ==> Contained()[i].bytes == Contents(sectors[..], dinodes[i])
        ensures dinodes[i].typ != 0 ==> |Contained()[i].bytes| == dinodes[i].size <= MAXBYTES
      {
        BuiltFile(sectors[..], dinodes[..], owner, freeblock, holed, i);
      }
      hide Built, Contents, Files, FileOf, NeedsTail, Neat, Assembling;
      ok := false;
      match op
      case NewInode(typ) =>
        if typ == 0 { return; }
        var inum;
        ok, inum := Ialloc(typ);
      case Append(inum, p) =>
        if inum >= dinodes.Length || dinodes[inum].typ == 0 { return; }
        ok := Iappend(inum, p);
      case PadDir(inum) =>
        if inum >= dinodes.Length || dinodes[inum].typ == 0 || dinodes[inum].size == MAXBYTES { return; }
        Pad(inum);
        ok := true;
    }

    /** Any run of the calls and then balloc gives a consistent image that holds the files of the run on byte
        sequences; the inodes with a hole are those padded at a whole number of blocks. It comes to its end exactly if
        every call had its inode, its blocks and room in the file, and all blocks in use fit into one bitmap sector. */
    method Run(ops: seq<Op>) returns (ok: bool, done: nat)
      requires Building()
      modifies this, sectors, dinodes
      ensures ok <==> !old(View()).Halts(ops) && old(View()).Ran(ops).used < 4096
      ensures done <= |ops| && !old(View()).Halts(ops[..done])
      ensures done < |ops| ==> !old(View()).Ran(ops[..done]).Allows(ops[done])
      ensures ok ==>
                && Image(sectors[..], dinodes[..], owner) && Contained() == old(View()).Ran(ops).files
                && (forall i | 0 <= i < dinodes.Length ::
                      Packed(sectors[..], dinodes[i]) <==> i !in old(View()).Ran(ops).holed)
    {
      hide Built, Image, Packed, Files, Draft.Allows, Draft.Stepped;
      ok, done := true, 0;
      while done < |ops|
        invariant done <= |ops| && Building() && View() == old(View()).Ran(ops[..done])
        invariant !old(View()).Halts(ops[..done])
      {
        assert ops[..done + 1][..done] == ops[..done];
        ok := Perform(ops[done]);
        if !ok {
          HaltsForGood(old(View()), ops, done + 1);
          return;
        }
        done := done + 1;
      }
      assert ops[..done] == ops;
      ok := Balloc(usedblocks);
    }
  }
}

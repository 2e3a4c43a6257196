/** What a consistent file system image is, and the steps that keep one consistent. */
module Images {
  import opened Disk

  /** First data sector: boot sector, superblock, inode sectors and bitmap sectors come before it. */
  function DataStart(size: nat, ninodes: nat): nat {
    ninodes / 8 + 3 + size / 4096 + 1
  }

  /** The bitmap marks exactly the metadata and the owned blocks, and every other block is zero. */
  ghost predicate BitmapAgrees(blocks: seq<Block>, ninodes: nat, owner: map<nat, (nat, nat)>) {
    && DataStart(|blocks|, ninodes) <= |blocks|
    && (forall b | 0 <= b < |blocks| ::
          Marked(blocks, ninodes, b) == (b < DataStart(|blocks|, ninodes) || b in owner))
    && (forall b | DataStart(|blocks|, ninodes) <= b < |blocks| && b !in owner :: IsZero(blocks[b]))
  }

  /** An inode whose bytes past its size are zero; a free one (type 0) holds no block. */
  ghost predicate Tidy(blocks: seq<Block>, d: Dinode) {
    && d.size <= MAXBYTES
    && (forall o | d.size <= o < MAXBYTES :: ByteAt(blocks, d, o) == 0)
    && (d.typ == 0 ==> (forall k | 0 <= k < 13 :: d.addrs[k] == 0))
  }

  /** Block bookkeeping: no block is named twice, and the bitmap marks exactly the blocks in use. */
  ghost predicate Sound(blocks: seq<Block>, inodes: seq<Dinode>, owner: map<nat, (nat, nat)>) {
    && BitmapAgrees(blocks, |inodes|, owner)
    && Owns(blocks, inodes, DataStart(|blocks|, |inodes|), owner)
  }

  /** A consistent file system image. */
  ghost predicate Image(blocks: seq<Block>, inodes: seq<Dinode>, owner: map<nat, (nat, nat)>) {
    && Sound(blocks, inodes, owner)
    && (forall i | 0 <= i < |inodes| :: Tidy(blocks, inodes[i]))
  }

  /** Every inode but i keeps its blocks and bytes. */
  ghost predicate Keeps(blocks: seq<Block>, blocks': seq<Block>, d: Dinode) {
    && Bytes(blocks', d) == Bytes(blocks, d)
    && (forall s | 0 <= s < SLOTS :: Slot(blocks', d, s) == Slot(blocks, d, s))
  }

  ghost predicate OthersKeep(blocks: seq<Block>, blocks': seq<Block>, inodes: seq<Dinode>, i: nat) {
    forall j | 0 <= j < |inodes| && j != i :: Keeps(blocks, blocks', inodes[j])
  }

  /** Marking b in the bitmap changes no slot and no data block. */
  lemma MarkKeepsOwnership(blocks: seq<Block>, inodes: seq<Dinode>, owner: map<nat, (nat, nat)>, b: nat)
    requires Sound(blocks, inodes, owner)
    requires DataStart(|blocks|, |inodes|) <= b < |blocks|
    ensures var blocks' := Mark(blocks, |inodes|, b);
      && Owns(blocks', inodes, DataStart(|blocks|, |inodes|), owner)
      && (forall c | 0 <= c < |blocks| ::
            Marked(blocks', |inodes|, c) == (c == b || c < DataStart(|blocks|, |inodes|) || c in owner))
      && (forall c | DataStart(|blocks|, |inodes|) <= c < |blocks| :: blocks'[c] == blocks[c])
      && (forall i, s | 0 <= i < |inodes| && 0 <= s < SLOTS ::
            Slot(blocks', inodes[i], s) == Slot(blocks, inodes[i], s))
  {
    var blocks' := Mark(blocks, |inodes|, b);
    forall c | 0 <= c < |blocks|
      ensures Marked(blocks', |inodes|, c) == (c == b || c < DataStart(|blocks|, |inodes|) || c in owner)
    {
      MarkSetsOneBit(blocks, |inodes|, b, c);
    }
    OwnsFrame(blocks, blocks', inodes, DataStart(|blocks|, |inodes|), owner);
  }

  /** Bytes depend only on the data slots and the blocks they name. */
  lemma SameBytes(blocks: seq<Block>, d: Dinode, blocks': seq<Block>, d': Dinode)
    requires |blocks'| == |blocks|
    requires forall n | 0 <= n < MAXFILE ::
      var b, b' := Slot(blocks, d, DataSlot(n)), Slot(blocks', d', DataSlot(n));
      if b == 0 || b >= |blocks| then b' == 0 || b' >= |blocks| || IsZero(blocks'[b'])
      else b' == b && blocks'[b] == blocks[b]
    ensures Bytes(blocks', d') == Bytes(blocks, d)
  {
    forall o | 0 <= o < MAXBYTES
      ensures ByteAt(blocks', d', o) == ByteAt(blocks, d, o)
    {
      assert 0 <= o / 512 < MAXFILE;
    }
  }

  /** Slot s of inode i, empty before, now names the zero block b; every other slot and the data
      blocks they name are as before. */
  ghost predicate Fills(blocks: seq<Block>, inodes: seq<Dinode>, blocks': seq<Block>, inodes': seq<Dinode>, i: nat,
                        s: nat, b: nat) {
    && |blocks'| == |blocks| && |inodes'| == |inodes| && i < |inodes| && s < SLOTS && 0 < b < |blocks|
    && Slot(blocks, inodes[i], s) == 0 && (s == 12 || IsZero(blocks'[b]))
    && (forall j | 0 <= j < |inodes| && j != i :: inodes'[j] == inodes[j])
    && inodes'[i] == inodes[i].(addrs := inodes'[i].addrs)
    && (forall j, t | 0 <= j < |inodes| && 0 <= t < SLOTS ::
          Slot(blocks', inodes'[j], t) == if j == i && t == s then b else Slot(blocks, inodes[j], t))
    && (forall j, t | 0 <= j < |inodes| && 0 <= t < SLOTS && t != 12 ::
          var c := Slot(blocks, inodes[j], t);
          0 < c < |blocks| ==> blocks'[c] == blocks[c])
  }

  lemma KeepAll(blocks: seq<Block>, inodes: seq<Dinode>, i: nat)
    ensures OthersKeep(blocks, blocks, inodes, i)
  {
  }

  lemma KeepTrans(blocks: seq<Block>, blocks1: seq<Block>, blocks2: seq<Block>, inodes: seq<Dinode>, i: nat)
    requires OthersKeep(blocks, blocks1, inodes, i) && OthersKeep(blocks1, blocks2, inodes, i)
    ensures OthersKeep(blocks, blocks2, inodes, i)
  {
  }

  lemma OthersKeepTable(blocks: seq<Block>, blocks': seq<Block>, inodes: seq<Dinode>, inodes': seq<Dinode>, i: nat)
    requires OthersKeep(blocks, blocks', inodes, i) && |inodes'| == |inodes|
    requires forall j | 0 <= j < |inodes| && j != i :: inodes'[j] == inodes[j]
    ensures OthersKeep(blocks, blocks', inodes', i)
  {
  }

  lemma FilledSlot(blocks: seq<Block>, inodes: seq<Dinode>, blocks': seq<Block>, inodes': seq<Dinode>, i: nat, s: nat,
                   b: nat)
    requires Fills(blocks, inodes, blocks', inodes', i, s, b)
    ensures Slot(blocks', inodes'[i], s) == b != 0
  {
  }

  lemma SlotInRange(blocks: seq<Block>, inodes: seq<Dinode>, owner: map<nat, (nat, nat)>, i: nat, s: nat)
    requires Sound(blocks, inodes, owner) && i < |inodes| && s < SLOTS && Slot(blocks, inodes[i], s) != 0
    ensures DataStart(|blocks|, |inodes|) <= Slot(blocks, inodes[i], s) < |blocks|
    ensures Slot(blocks, inodes[i], s) in owner && owner[Slot(blocks, inodes[i], s)] == (i, s)
  {
  }

  lemma FillsKeepsBytes(blocks: seq<Block>, inodes: seq<Dinode>, blocks': seq<Block>, inodes': seq<Dinode>, i: nat,
                        s: nat, b: nat)
    requires Fills(blocks, inodes, blocks', inodes', i, s, b)
    ensures forall j | 0 <= j < |inodes| :: Bytes(blocks', inodes'[j]) == Bytes(blocks, inodes[j])
    ensures OthersKeep(blocks, blocks', inodes, i)
    ensures Grows(blocks, inodes[i], blocks', inodes'[i])
    ensures Elsewhere(blocks, inodes[i], blocks', inodes'[i], s)
  {
    forall j | 0 <= j < |inodes|
      ensures Bytes(blocks', inodes'[j]) == Bytes(blocks, inodes[j])
    {
      SameBytes(blocks, inodes[j], blocks', inodes'[j]);
    }
  }

  lemma TidySame(blocks: seq<Block>, d: Dinode, blocks': seq<Block>, d': Dinode)
    requires Tidy(blocks, d) && Bytes(blocks', d') == Bytes(blocks, d)
    requires d'.size == d.size && (d' == d || d'.typ != 0)
    ensures Tidy(blocks', d')
  {
    forall o | d.size <= o < MAXBYTES
      ensures ByteAt(blocks', d', o) == 0
    {
      assert ByteAt(blocks', d', o) == Bytes(blocks', d')[o] == Bytes(blocks, d)[o] == ByteAt(blocks, d, o);
    }
  }

  /** balloc for a direct slot or the indirect slot: the image stays consistent and no byte of any file changes. */
  lemma AllocPointer(blocks: seq<Block>, inodes: seq<Dinode>, owner: map<nat, (nat, nat)>, i: nat, s: nat, b: nat)
      returns (blocks': seq<Block>, inodes': seq<Dinode>)
    requires Sound(blocks, inodes, owner)
    requires i < |inodes| && s <= 12 && inodes[i].addrs[s] == 0
    requires b < |blocks| && !Marked(blocks, |inodes|, b)
    ensures blocks' == Mark(blocks, |inodes|, b)
    ensures inodes' == inodes[i := inodes[i].(addrs := inodes[i].addrs[s := b])]
    ensures Fills(blocks, inodes, blocks', inodes', i, s, b)
    ensures Sound(blocks', inodes', owner[b := (i, s)]) && DataStart(|blocks|, |inodes|) <= b
  {
    inodes' := inodes[i := inodes[i].(addrs := inodes[i].addrs[s := b])];
    blocks' := Mark(blocks, |inodes|, b);
    MarkKeepsOwnership(blocks, inodes, owner, b);
    AttachPointer(blocks', inodes, DataStart(|blocks|, |inodes|), owner, i, s, b);
  }

  lemma BitmapAfterMark(blocks: seq<Block>, inodes: seq<Dinode>, owner: map<nat, (nat, nat)>, b: nat, at: (nat, nat),
                        blocks': seq<Block>)
    requires Sound(blocks, inodes, owner)
    requires b < |blocks| && !Marked(blocks, |inodes|, b)
    requires |blocks'| == |blocks|
    requires DataStart(|blocks|, |inodes|) <= |blocks|
    requires forall c | 0 <= c < DataStart(|blocks|, |inodes|) :: blocks'[c] == Mark(blocks, |inodes|, b)[c]
    requires forall c | 0 <= c < |blocks| && c != b && c !in owner && c >= DataStart(|blocks|, |inodes|) ::
               blocks'[c] == blocks[c]
    ensures BitmapAgrees(blocks', |inodes|, owner[b := at])
  {
    hide Marked, Mark, Owns, IsZero;
    forall c | 0 <= c < |blocks|
      ensures Marked(blocks', |inodes|, c) == (c == b || Marked(blocks, |inodes|, c))
    {
      MarkedOne(blocks, |inodes|, b, blocks', c);
    }
  }

  lemma MarkedOne(blocks: seq<Block>, ninodes: nat, b: nat, blocks': seq<Block>, c: nat)
    requires DataStart(|blocks|, ninodes) <= |blocks| == |blocks'| && b < |blocks| && c < |blocks|
    requires forall k | 0 <= k < DataStart(|blocks|, ninodes) :: blocks'[k] == Mark(blocks, ninodes, b)[k]
    ensures Marked(blocks', ninodes, c) == (c == b || Marked(blocks, ninodes, c))
  {
    MarkSetsOneBit(blocks, ninodes, b, c);
  }

  /** balloc for an entry of the indirect block. */
  lemma AllocEntry(blocks: seq<Block>, inodes: seq<Dinode>, owner: map<nat, (nat, nat)>, i: nat, k: nat, b: nat)
      returns (blocks': seq<Block>)
    requires Sound(blocks, inodes, owner)
    requires i < |inodes| && k < 128 && inodes[i].addrs[12] != 0 && Slot(blocks, inodes[i], 13 + k) == 0
    requires b < |blocks| && !Marked(blocks, |inodes|, b)
    ensures inodes[i].addrs[12] < |blocks|
    ensures var a := inodes[i].addrs[12]; blocks' == Mark(blocks, |inodes|, b)[a := SetWord(blocks[a], k, b)]
    ensures Fills(blocks, inodes, blocks', inodes, i, 13 + k, b)
    ensures Sound(blocks', inodes, owner[b := (i, 13 + k)]) && DataStart(|blocks|, |inodes|) <= b
  {
    hide Owns, BitmapAgrees, Fills;
    blocks' := EntryFills(blocks, inodes, owner, i, k, b);
    BitmapAfterMark(blocks, inodes, owner, b, (i, 13 + k), blocks');
  }

  /** The indirect block of i is named by no other slot. */
  lemma EntryOther(blocks: seq<Block>, inodes: seq<Dinode>, start: nat, owner: map<nat, (nat, nat)>, i: nat, j: nat,
                   t: nat)
    requires Owns(blocks, inodes, start, owner) && i < |inodes| && j < |inodes| && t < SLOTS && t != 12
               && inodes[i].addrs[12] != 0
    ensures Slot(blocks, inodes[j], t) != inodes[i].addrs[12]
  {
    hide Slot;
    SlotOfPointer(blocks, inodes[i], 12);
  }

  /** A zero block of nobody's becomes entry k of the indirect block. */
  lemma EntryTaken(blocks: seq<Block>, inodes: seq<Dinode>, start: nat, owner: map<nat, (nat, nat)>, i: nat, k: nat,
                   b: nat)
    requires Owns(blocks, inodes, start, owner)
    requires i < |inodes| && k < 128 && inodes[i].addrs[12] != 0 && Slot(blocks, inodes[i], 13 + k) == 0
    requires start <= b < |blocks| && b !in owner && IsZero(blocks[b])
    ensures inodes[i].addrs[12] in owner && start <= inodes[i].addrs[12] < |blocks|
    ensures var a := inodes[i].addrs[12]; var blocks' := blocks[a := SetWord(blocks[a], k, b)];
            Fills(blocks, inodes, blocks', inodes, i, 13 + k, b)
                && Owns(blocks', inodes, start, owner[b := (i, 13 + k)])
  {
    hide Slot, Owns, IsZero;
    OwnsStart(blocks, inodes, start, owner);
    SlotOfPointer(blocks, inodes[i], 12);
    SlotOwned(blocks, inodes, start, owner, i, 12);
    AttachEntry(blocks, inodes, start, owner, i, k, b);
    forall j, t | 0 <= j < |inodes| && 0 <= t < SLOTS && t != 12
      ensures Slot(blocks, inodes[j], t) != inodes[i].addrs[12]
    {
      EntryOther(blocks, inodes, start, owner, i, j, t);
    }
  }

  lemma OwnsStart(blocks: seq<Block>, inodes: seq<Dinode>, start: nat, owner: map<nat, (nat, nat)>)
    requires Owns(blocks, inodes, start, owner)
    ensures 0 < start <= |blocks| < WORD
  {
  }

  lemma EntryFills(blocks: seq<Block>, inodes: seq<Dinode>, owner: map<nat, (nat, nat)>, i: nat, k: nat, b: nat)
      returns (blocks': seq<Block>)
    requires Sound(blocks, inodes, owner)
    requires i < |inodes| && k < 128 && inodes[i].addrs[12] != 0 && Slot(blocks, inodes[i], 13 + k) == 0
    requires b < |blocks| && !Marked(blocks, |inodes|, b)
    ensures inodes[i].addrs[12] < |blocks|
    ensures inodes[i].addrs[12] in owner && DataStart(|blocks|, |inodes|) <= inodes[i].addrs[12]
              && DataStart(|blocks|, |inodes|) <= b
    ensures var a := inodes[i].addrs[12]; blocks' == Mark(blocks, |inodes|, b)[a := SetWord(blocks[a], k, b)]
    ensures Fills(blocks, inodes, blocks', inodes, i, 13 + k, b)
    ensures Owns(blocks', inodes, DataStart(|blocks|, |inodes|), owner[b := (i, 13 + k)])
  {
    hide SetWord, Marked, Slot, Sound, Owns, IsZero;
    var a := inodes[i].addrs[12];
    var start := DataStart(|blocks|, |inodes|);
    SlotOfPointer(blocks, inodes[i], 12);
    FreeBlock(blocks, inodes, owner, b);
    SlotOwned(blocks, inodes, start, owner, i, 12);
    var marked := Mark(blocks, |inodes|, b);
    MarkKeepsOwnership(blocks, inodes, owner, b);
    EntryTaken(marked, inodes, start, owner, i, k, b);
    blocks' := marked[a := SetWord(blocks[a], k, b)];
    FillsFrom(blocks, marked, inodes, blocks', owner, i, 13 + k, b);
  }

  /** A block that is not marked is nobody's, and zero. */
  lemma FreeBlock(blocks: seq<Block>, inodes: seq<Dinode>, owner: map<nat, (nat, nat)>, b: nat)
    requires Sound(blocks, inodes, owner) && b < |blocks| && !Marked(blocks, |inodes|, b)
    ensures DataStart(|blocks|, |inodes|) <= b < WORD && b !in owner && IsZero(blocks[b])
    ensures Owns(blocks, inodes, DataStart(|blocks|, |inodes|), owner)
  {
  }

  /** Filling after a change of metadata only. */
  lemma FillsFrom(blocks: seq<Block>, marked: seq<Block>, inodes: seq<Dinode>, blocks': seq<Block>, owner: map<nat,
                  (nat, nat)>, i: nat, s: nat, b: nat)
    requires Owns(blocks, inodes, DataStart(|blocks|, |inodes|), owner) && |marked| == |blocks|
    requires forall c | DataStart(|blocks|, |inodes|) <= c < |blocks| :: marked[c] == blocks[c]
    requires forall j, t | 0 <= j < |inodes| && 0 <= t < SLOTS ::
               Slot(marked, inodes[j], t) == Slot(blocks, inodes[j], t)
    requires Fills(marked, inodes, blocks', inodes, i, s, b)
    ensures Fills(blocks, inodes, blocks', inodes, i, s, b)
  {
    hide Slot, Owns, IsZero;
    forall j, t | 0 <= j < |inodes| && 0 <= t < SLOTS && Slot(blocks, inodes[j], t) != 0
      ensures DataStart(|blocks|, |inodes|) <= Slot(blocks, inodes[j], t) < |blocks|
    {
      SlotOwned(blocks, inodes, DataStart(|blocks|, |inodes|), owner, j, t);
    }
  }

  // ---------- writing bytes into a data block ----------

  /** c with the bytes at off replaced by data. */
  function Splice<T>(c: seq<T>, off: nat, data: seq<T>): (r: seq<T>)
    requires off + |data| <= |c|
    ensures |r| == |c|
  {
    c[..off] + data + c[off + |data|..]
  }

  lemma SpliceTwice<T>(c: seq<T>, off: nat, data: seq<T>, more: seq<T>)
    requires off + |data| + |more| <= |c|
    ensures Splice(Splice(c, off, data), off + |data|, more) == Splice(c, off, data + more)
  {
  }

  /** Writing a chunk into the block that holds offset off is a splice of the file's bytes. */
  lemma WriteOwned(blocks: seq<Block>, inodes: seq<Dinode>, start: nat, owner: map<nat, (nat, nat)>, i: nat, off: nat,
                   chunk: seq<Byte>)
      returns (blocks': seq<Block>)
    requires Owns(blocks, inodes, start, owner) && i < |inodes|
    requires off < MAXBYTES && off % 512 + |chunk| <= 512
    requires Slot(blocks, inodes[i], DataSlot(off / 512)) != 0
    ensures off + |chunk| <= MAXBYTES
    ensures var b := Slot(blocks, inodes[i], DataSlot(off / 512));
            start <= b < |blocks| && b in owner && blocks' == blocks[b := Splice(blocks[b], off % 512, chunk)]
    ensures Owns(blocks', inodes, start, owner)
    ensures Bytes(blocks', inodes[i]) == Splice(Bytes(blocks, inodes[i]), off, chunk)
    ensures OthersKeep(blocks, blocks', inodes, i)
    ensures forall t | 0 <= t < SLOTS :: Slot(blocks', inodes[i], t) == Slot(blocks, inodes[i], t)
  {
    hide OthersKeep, Bytes, Owns, Slot;
    var b := Slot(blocks, inodes[i], DataSlot(off / 512));
    SlotOwned(blocks, inodes, start, owner, i, DataSlot(off / 512));
    blocks' := blocks[b := Splice(blocks[b], off % 512, chunk)];
    ChunkOwns(blocks, inodes, start, owner, i, DataSlot(off / 512), blocks');
    ChunkBytes(blocks, inodes, start, owner, i, off, chunk, blocks');
    ChunkOthers(blocks, inodes, start, owner, i, DataSlot(off / 512), blocks');
  }

  lemma WriteChunk(blocks: seq<Block>, inodes: seq<Dinode>, owner: map<nat, (nat, nat)>, i: nat, off: nat,
                   chunk: seq<Byte>)
      returns (blocks': seq<Block>)
    requires Sound(blocks, inodes, owner) && i < |inodes|
    requires off < MAXBYTES && off % 512 + |chunk| <= 512
    requires Slot(blocks, inodes[i], DataSlot(off / 512)) != 0
    ensures off + |chunk| <= MAXBYTES
    ensures var b := Slot(blocks, inodes[i], DataSlot(off / 512));
            b < |blocks| && blocks' == blocks[b := Splice(blocks[b], off % 512, chunk)]
    ensures Sound(blocks', inodes, owner)
    ensures Bytes(blocks', inodes[i]) == Splice(Bytes(blocks, inodes[i]), off, chunk)
    ensures OthersKeep(blocks, blocks', inodes, i)
    ensures forall t | 0 <= t < SLOTS :: Slot(blocks', inodes[i], t) == Slot(blocks, inodes[i], t)
  {
    hide OthersKeep, Bytes, BitmapAgrees, Owns, Slot;
    blocks' := WriteOwned(blocks, inodes, DataStart(|blocks|, |inodes|), owner, i, off, chunk);
    BitmapFrame(blocks, |inodes|, owner, blocks', Slot(blocks, inodes[i], DataSlot(off / 512)));
  }

  lemma SlotOwned(blocks: seq<Block>, inodes: seq<Dinode>, start: nat, owner: map<nat, (nat, nat)>, i: nat, s: nat)
    requires Owns(blocks, inodes, start, owner) && i < |inodes| && s < SLOTS && Slot(blocks, inodes[i], s) != 0
    ensures start <= Slot(blocks, inodes[i], s) < |blocks|
    ensures Slot(blocks, inodes[i], s) in owner && owner[Slot(blocks, inodes[i], s)] == (i, s)
  {
  }

  lemma ChunkOwns(blocks: seq<Block>, inodes: seq<Dinode>, start: nat, owner: map<nat, (nat, nat)>, i: nat, s: nat,
                  blocks': seq<Block>)
    requires Owns(blocks, inodes, start, owner) && i < |inodes| && s < SLOTS && s != 12
    requires Slot(blocks, inodes[i], s) != 0 && |blocks'| == |blocks|
    requires forall c | 0 <= c < |blocks| && c != Slot(blocks, inodes[i], s) :: blocks'[c] == blocks[c]
    ensures Owns(blocks', inodes, start, owner)
    ensures forall j, t | 0 <= j < |inodes| && 0 <= t < SLOTS ::
              Slot(blocks', inodes[j], t) == Slot(blocks, inodes[j], t)
  {
    hide Slot;
    SlotOwned(blocks, inodes, start, owner, i, s);
    OwnsFrame(blocks, blocks', inodes, start, owner);
  }

  lemma BitmapFrame(blocks: seq<Block>, ninodes: nat, owner: map<nat, (nat, nat)>, blocks': seq<Block>, b: nat)
    requires BitmapAgrees(blocks, ninodes, owner) && |blocks'| == |blocks| && b in owner
    requires DataStart(|blocks|, ninodes) <= b
    requires forall c | 0 <= c < |blocks| && c != b :: blocks'[c] == blocks[c]
    ensures BitmapAgrees(blocks', ninodes, owner)
  {
    forall c | 0 <= c < |blocks|
      ensures Marked(blocks', ninodes, c) == Marked(blocks, ninodes, c)
    {
    }
  }

  lemma ChunkBytes(blocks: seq<Block>, inodes: seq<Dinode>, start: nat, owner: map<nat, (nat, nat)>, i: nat, off: nat,
                   chunk: seq<Byte>, blocks': seq<Block>)
    requires Owns(blocks, inodes, start, owner) && i < |inodes|
    requires off < MAXBYTES && off % 512 + |chunk| <= 512 && off + |chunk| <= MAXBYTES
    requires var b := Slot(blocks, inodes[i], DataSlot(off / 512));
             0 < b < |blocks| && blocks' == blocks[b := Splice(blocks[b], off % 512, chunk)]
    requires forall j, t | 0 <= j < |inodes| && 0 <= t < SLOTS ::
               Slot(blocks', inodes[j], t) == Slot(blocks, inodes[j], t)
    ensures Bytes(blocks', inodes[i]) == Splice(Bytes(blocks, inodes[i]), off, chunk)
  {
    hide Slot;
    var d := inodes[i];
    forall o | 0 <= o < MAXBYTES
      ensures ByteAt(blocks', d, o) == if off <= o < off + |chunk| then chunk[o - off] else ByteAt(blocks, d, o)
    {
      assert Slot(blocks', d, DataSlot(o / 512)) == Slot(blocks, d, DataSlot(o / 512));
      if o / 512 == off / 512 {
        OffsetInBlock(off, o);
      } else if Slot(blocks, d, DataSlot(o / 512)) != 0 {
        SlotOwned(blocks, inodes, start, owner, i, DataSlot(o / 512));
        SlotOwned(blocks, inodes, start, owner, i, DataSlot(off / 512));
        OtherBlock(off, |chunk|, o);
      } else {
        OtherBlock(off, |chunk|, o);
      }
    }
  }

  lemma OffsetInBlock(off: nat, o: nat)
    requires o / 512 == off / 512
    ensures o - off == o % 512 - off % 512
  {
  }

  lemma OtherBlock(off: nat, n: nat, o: nat)
    requires o / 512 != off / 512 && off % 512 + n <= 512
    ensures !(off <= o < off + n)
  {
  }

  lemma ChunkOthers(blocks: seq<Block>, inodes: seq<Dinode>, start: nat, owner: map<nat, (nat, nat)>, i: nat, s: nat,
                    blocks': seq<Block>)
    requires Owns(blocks, inodes, start, owner) && i < |inodes| && s < SLOTS && s != 12
    requires Slot(blocks, inodes[i], s) != 0 && |blocks'| == |blocks|
    requires forall c | 0 <= c < |blocks| && c != Slot(blocks, inodes[i], s) :: blocks'[c] == blocks[c]
    ensures OthersKeep(blocks, blocks', inodes, i)
  {
    OwnsFrame(blocks, blocks', inodes, start, owner);
    forall j | 0 <= j < |inodes| && j != i
      ensures Bytes(blocks', inodes[j]) == Bytes(blocks, inodes[j])
    {
      SameBytes(blocks, inodes[j], blocks', inodes[j]);
    }
  }

  lemma SizeBounded(blocks: seq<Block>, inodes: seq<Dinode>, owner: map<nat, (nat, nat)>, i: nat)
    requires Image(blocks, inodes, owner) && i < |inodes|
    ensures inodes[i].size <= MAXBYTES && Tidy(blocks, inodes[i]) && |Bytes(blocks, inodes[i])| == MAXBYTES
  {
  }

  /** One sector's worth of a read. */
  lemma ReadChunk(blocks: seq<Block>, d: Dinode, off: nat, m: nat)
    requires off < MAXBYTES && off % 512 + m <= 512
    requires 0 < Slot(blocks, d, DataSlot(off / 512)) < |blocks|
    ensures off + m <= MAXBYTES
    ensures blocks[Slot(blocks, d, DataSlot(off / 512))][off % 512..off % 512 + m] == Bytes(blocks, d)[off..off + m]
  {
    forall o | off <= o < off + m
      ensures Bytes(blocks, d)[o] == blocks[Slot(blocks, d, DataSlot(off / 512))][off % 512 + o - off]
    {
      assert o / 512 == off / 512 && o % 512 == off % 512 + o - off;
    }
  }

  lemma AllClear(blocks: seq<Block>, d: Dinode)
    requires d.size == 0 && forall k | 0 <= k < 13 :: d.addrs[k] == 0
    ensures Tidy(blocks, d)
  {
  }

  lemma OthersTidy(blocks: seq<Block>, blocks': seq<Block>, inodes: seq<Dinode>, i: nat, inodes': seq<Dinode>)
    requires i < |inodes| == |inodes'| && OthersKeep(blocks, blocks', inodes, i) && Tidy(blocks', inodes'[i])
    requires forall j | 0 <= j < |inodes| && j != i :: inodes'[j] == inodes[j] && Tidy(blocks, inodes[j])
    ensures forall j | 0 <= j < |inodes'| :: Tidy(blocks', inodes'[j])
  {
    forall j | 0 <= j < |inodes| && j != i
      ensures Tidy(blocks', inodes'[j])
    {
      TidySame(blocks, inodes[j], blocks', inodes[j]);
    }
  }

  /** What a write does to a file of known size: the bytes at off replaced, the file grown if need be. */
  function FileSplice<T>(c: seq<T>, off: nat, data: seq<T>): seq<T>
    requires off <= |c|
  {
    c[..off] + data + if off + |data| < |c| then c[off + |data|..] else []
  }

  lemma SlotsOfAddrs(blocks: seq<Block>, d: Dinode, d': Dinode)
    requires d'.addrs == d.addrs
    ensures forall s | 0 <= s < SLOTS :: Slot(blocks, d', s) == Slot(blocks, d, s)
  {
  }

  /** A size is no business of the block bookkeeping. */
  lemma Resize(blocks: seq<Block>, inodes: seq<Dinode>, owner: map<nat, (nat, nat)>, i: nat, inodes': seq<Dinode>)
    requires Sound(blocks, inodes, owner) && i < |inodes| == |inodes'|
    requires forall j | 0 <= j < |inodes| :: inodes'[j].addrs == inodes[j].addrs
    ensures Sound(blocks, inodes', owner)
    ensures Bytes(blocks, inodes'[i]) == Bytes(blocks, inodes[i])
  {
    hide BitmapAgrees;
    forall j, s | 0 <= j < |inodes| && 0 <= s < SLOTS
      ensures Slot(blocks, inodes'[j], s) == Slot(blocks, inodes[j], s)
    {
    }
    SameBytes(blocks, inodes[i], blocks, inodes'[i]);
  }

  lemma SpliceGrows(blocks: seq<Block>, d: Dinode, blocks': seq<Block>, d': Dinode, off: nat, data: seq<Byte>)
    requires Tidy(blocks, d) && d.typ != 0 && d'.typ != 0
    requires off <= d.size && off + |data| <= MAXBYTES
    requires Bytes(blocks', d') == Splice(Bytes(blocks, d), off, data)
    requires d'.size == if off + |data| > d.size then off + |data| else d.size
    ensures Tidy(blocks', d')
    ensures Contents(blocks', d') == FileSplice(Contents(blocks, d), off, data)
  {
    forall o | d'.size <= o < MAXBYTES
      ensures ByteAt(blocks', d', o) == 0
    {
      assert ByteAt(blocks', d', o) == Bytes(blocks', d')[o] == Bytes(blocks, d)[o] == ByteAt(blocks, d, o);
    }
  }

  /** No slot in use is ever lost or changed. */
  ghost predicate Grows(blocks: seq<Block>, d: Dinode, blocks': seq<Block>, d': Dinode) {
    forall s | 0 <= s < SLOTS && Slot(blocks, d, s) != 0 :: Slot(blocks', d', s) == Slot(blocks, d, s)
  }

  /** No data slot but s has changed. */
  ghost predicate Elsewhere(blocks: seq<Block>, d: Dinode, blocks': seq<Block>, d': Dinode, s: nat) {
    forall t | 0 <= t < SLOTS && t != s && t != 12 :: Slot(blocks', d', t) == Slot(blocks, d, t)
  }

  /** Only the blocks that hold the k bytes at off may be new. */
  ghost predicate Untouched(blocks: seq<Block>, d: Dinode, blocks': seq<Block>, d': Dinode, off: nat, k: nat) {
    forall n | 0 <= n < MAXFILE && (k == 0 || n < off / 512 || (off + k - 1) / 512 < n) ::
      Slot(blocks', d', DataSlot(n)) == Slot(blocks, d, DataSlot(n))
  }

  lemma UntouchedMore(blocks: seq<Block>, d: Dinode, blocks1: seq<Block>, d1: Dinode, blocks2: seq<Block>, d2: Dinode,
                      off: nat, k: nat, m: nat)
    requires Untouched(blocks, d, blocks1, d1, off, k) && Elsewhere(blocks1, d1, blocks2, d2, DataSlot((off + k) / 512))
    requires 0 < m && (off + k) % 512 + m <= 512 && (k == 0 || (off + k) % 512 == 0)
    ensures Untouched(blocks, d, blocks2, d2, off, k + m)
  {
    hide Slot;
    var bn := (off + k) / 512;
    assert (off + k + m - 1) / 512 == bn && off / 512 <= bn;
    if k > 0 { assert (off + k - 1) / 512 == bn - 1; }
    forall n | 0 <= n < MAXFILE && (n < off / 512 || bn < n)
      ensures Slot(blocks2, d2, DataSlot(n)) == Slot(blocks, d, DataSlot(n))
    {
      assert n != bn && DataSlot(n) != DataSlot(bn) && DataSlot(n) != 12;
    }
  }

  /** The blocks that hold the k bytes at off are all present. */
  ghost predicate Mapped(blocks: seq<Block>, d: Dinode, off: nat, k: nat) {
    forall n | 0 <= n < MAXFILE && k > 0 && off / 512 <= n <= (off + k - 1) / 512 :: Slot(blocks, d, DataSlot(n)) != 0
  }

  lemma NothingYet(blocks: seq<Block>, d: Dinode, off: nat)
    ensures Filled(d.addrs, d.addrs, off, 0) && Mapped(blocks, d, off, 0) && Grows(blocks, d, blocks, d)
  {
  }

  lemma GrowsTrans(blocks: seq<Block>, d: Dinode, blocks1: seq<Block>, d1: Dinode, blocks2: seq<Block>, d2: Dinode)
    requires Grows(blocks, d, blocks1, d1) && Grows(blocks1, d1, blocks2, d2)
    ensures Grows(blocks, d, blocks2, d2)
  {
  }

  lemma MappedMore(blocks: seq<Block>, d: Dinode, blocks': seq<Block>, d': Dinode, off: nat, k: nat, m: nat)
    requires Mapped(blocks, d, off, k) && Grows(blocks, d, blocks', d')
    requires 0 < m && (off + k) % 512 + m <= 512 && (k == 0 || (off + k) % 512 == 0)
    requires (off + k) / 512 < MAXFILE && Slot(blocks', d', DataSlot((off + k) / 512)) != 0
    ensures Mapped(blocks', d', off, k + m)
  {
    var bn := (off + k) / 512;
    assert (off + k + m - 1) / 512 == bn;
    if k > 0 { assert (off + k - 1) / 512 == bn - 1; }
    forall n | 0 <= n < MAXFILE && off / 512 <= n <= bn
      ensures Slot(blocks', d', DataSlot(n)) != 0
    {
    }
  }

  /** What one pass of the copy loop of writei does: chunk, within one block, is written at off. */
  ghost predicate WroteSector(blocks: seq<Block>, d: Dinode, blocks': seq<Block>, d': Dinode, inodes: seq<Dinode>,
                              i: nat, off: nat, chunk: seq<Byte>) {
    && off < MAXBYTES && off % 512 + |chunk| <= 512 && off + |chunk| <= MAXBYTES
    && Bytes(blocks', d') == Splice(Bytes(blocks, d), off, chunk)
    && Grows(blocks, d, blocks', d')
    && OthersKeep(blocks, blocks', inodes, i)
    && Slot(blocks', d', DataSlot(off / 512)) != 0
    && Elsewhere(blocks, d, blocks', d', DataSlot(off / 512))
    && var p := if off / 512 < 12 then off / 512 else 12;
       d'.addrs[p] != 0 && d' == d.(addrs := d.addrs[p := d'.addrs[p]]) && (d.addrs[p] != 0 ==> d' == d)
  }

  /** What the whole loop has done once data is written at off. */
  ghost predicate Wrote(blocks: seq<Block>, d: Dinode, blocks': seq<Block>, d': Dinode, inodes: seq<Dinode>, i: nat,
                        off: nat, data: seq<Byte>) {
    && off + |data| <= MAXBYTES
    && Bytes(blocks', d') == Splice(Bytes(blocks, d), off, data)
    && Grows(blocks, d, blocks', d')
    && OthersKeep(blocks, blocks', inodes, i)
    && Mapped(blocks', d', off, |data|)
    && Untouched(blocks, d, blocks', d', off, |data|)
    && Filled(d.addrs, d'.addrs, off, |data|)
    && d' == d.(addrs := d'.addrs)
  }

  lemma WroteNone(blocks: seq<Block>, d: Dinode, inodes: seq<Dinode>, i: nat, off: nat)
    requires off <= MAXBYTES
    ensures Wrote(blocks, d, blocks, d, inodes, i, off, [])
  {
    hide Bytes;
    assert Splice(Bytes(blocks, d), off, []) == Bytes(blocks, d);
  }

  lemma WroteMore(blocks: seq<Block>, d: Dinode, blocks1: seq<Block>, d1: Dinode, blocks2: seq<Block>, d2: Dinode,
                  inodes: seq<Dinode>, i: nat, off: nat, data: seq<Byte>, chunk: seq<Byte>)
    requires Wrote(blocks, d, blocks1, d1, inodes, i, off, data)
    requires WroteSector(blocks1, d1, blocks2, d2, inodes, i, off + |data|, chunk)
    requires 0 < |chunk| && (|data| == 0 || (off + |data|) % 512 == 0)
    ensures Wrote(blocks, d, blocks2, d2, inodes, i, off, data + chunk)
  {
    hide Bytes, Slot, OthersKeep, Mapped, Filled, Grows, Elsewhere, Untouched;
    UntouchedMore(blocks, d, blocks1, d1, blocks2, d2, off, |data|, |chunk|);
    SpliceTwice(Bytes(blocks, d), off, data, chunk);
    GrowsTrans(blocks, d, blocks1, d1, blocks2, d2);
    KeepTrans(blocks, blocks1, blocks2, inodes, i);
    MappedMore(blocks1, d1, blocks2, d2, off, |data|, |chunk|);
    FilledMore(d.addrs, d1.addrs, d2.addrs, off, |data|, |chunk|);
  }

  /** A file holds no block past its size, and no indirect block it has no use for. */
  ghost predicate Snug(blocks: seq<Block>, d: Dinode) {
    && (forall n | 0 <= n < MAXFILE && n * 512 >= d.size :: Slot(blocks, d, DataSlot(n)) == 0)
    && (d.size <= NDIRECT * 512 ==> d.addrs[12] == 0)
  }

  lemma SnugStays(blocks: seq<Block>, d: Dinode, blocks': seq<Block>, d': Dinode, off: nat, k: nat)
    requires Snug(blocks, d) && Untouched(blocks, d, blocks', d', off, k) && Filled(d.addrs, d'.addrs, off, k)
    requires d'.size == if off + k > d.size then off + k else d.size
    ensures Snug(blocks', d')
  {
    forall n | 0 <= n < MAXFILE && n * 512 >= d'.size
      ensures Slot(blocks', d', DataSlot(n)) == 0
    {
      if k > 0 { assert (off + k - 1) / 512 < n; }
      assert Slot(blocks, d, DataSlot(n)) == 0;
    }
    if d'.size <= NDIRECT * 512 { assert !Touches(12, off, k); }
  }

  /** A write into a file without holes leaves it without holes. */
  lemma DenseStays(blocks: seq<Block>, d: Dinode, blocks': seq<Block>, d': Dinode, off: nat, k: nat)
    requires Dense(blocks, d) && Grows(blocks, d, blocks', d') && Mapped(blocks', d', off, k)
    requires off <= d.size
    requires d'.size == if off + k > d.size then off + k else d.size
    ensures Dense(blocks', d')
  {
    forall n | 0 <= n < MAXFILE && n * 512 < d'.size
      ensures Slot(blocks', d', DataSlot(n)) != 0
    {
      if n * 512 < d.size {
        assert Slot(blocks, d, DataSlot(n)) != 0;
      } else {
        assert off / 512 <= n <= (off + k - 1) / 512;
      }
    }
  }

  /** A write of k bytes at off goes through pointer p of the inode (12: the indirect block). */
  predicate Touches(p: nat, off: nat, k: nat) {
    k > 0 && if p < 12 then off / 512 <= p <= (off + k - 1) / 512 else p == 12 && (off + k - 1) / 512 >= 12
  }

  /** A transfer of k bytes at off meets an empty pointer of the inode itself. */
  ghost predicate MeetsHole(d: Dinode, off: nat, k: nat) {
    exists p | 0 <= p < 13 :: Touches(p, off, k) && d.addrs[p] == 0
  }

  /** Pointers a after a transfer of k bytes at off: exactly the empty ones it went through are filled. */
  ghost predicate Filled(a0: Addrs, a: Addrs, off: nat, k: nat) {
    forall p | 0 <= p < 13 :: if Touches(p, off, k) && a0[p] == 0 then a[p] != 0 else a[p] == a0[p]
  }

  lemma FilledMore(a0: Addrs, a: Addrs, a': Addrs, off: nat, k: nat, m: nat)
    requires Filled(a0, a, off, k)
    requires 0 < m && (off + k) % 512 + m <= 512 && (k == 0 || (off + k) % 512 == 0)
    requires var bn := (off + k) / 512; var p := if bn < 12 then bn else 12;
             a' == a[p := a'[p]] && a'[p] != 0 && (a[p] != 0 ==> a'[p] == a[p])
    ensures Filled(a0, a', off, k + m)
  {
    var bn := (off + k) / 512;
    assert (off + k + m - 1) / 512 == bn;
    if k > 0 { assert (off + k - 1) / 512 == bn - 1; }
    assert off / 512 <= bn;
    forall p | 0 <= p < 13
      ensures Touches(p, off, k + m) == (Touches(p, off, k) || p == if bn < 12 then bn else 12)
    {
    }
  }

  lemma FilledIffHole(d: Dinode, a: Addrs, off: nat, k: nat)
    requires Filled(d.addrs, a, off, k)
    ensures a == d.addrs <==> !MeetsHole(d, off, k)
  {
    if !MeetsHole(d, off, k) {
      assert forall p | 0 <= p < 13 :: a[p] == d.addrs[p];
    }
  }

  /** In a file without holes a write meets an empty pointer only when it grows the file. */
  lemma DenseGrows(blocks: seq<Block>, d: Dinode, off: nat, k: nat)
    requires Dense(blocks, d) && MeetsHole(d, off, k) && off + k <= MAXBYTES
    ensures off + k > d.size
  {
    var p :| 0 <= p < 13 && Touches(p, off, k) && d.addrs[p] == 0;
    var n := if p < 12 then p else (off + k - 1) / 512;
    assert n * 512 <= off + k - 1;
    assert Slot(blocks, d, DataSlot(n)) == 0;
  }

  /** No holes: every block below the size is present. */
  ghost predicate Dense(blocks: seq<Block>, d: Dinode) {
    forall n | 0 <= n < MAXFILE && n * 512 < d.size :: Slot(blocks, d, DataSlot(n)) != 0
  }

  /** The blocks of a file are those its size asks for. */
  ghost predicate Packed(blocks: seq<Block>, d: Dinode) {
    Dense(blocks, d) && Snug(blocks, d)
  }

  lemma DenseSlot(blocks: seq<Block>, d: Dinode, off: nat)
    requires off < d.size && off < MAXBYTES
    ensures Dense(blocks, d) ==> Slot(blocks, d, DataSlot(off / 512)) != 0
  {
  }

  lemma NextSector(off: nat, m: nat)
    requires off % 512 + m == 512
    ensures (off + m) % 512 == 0
  {
  }

  lemma SliceMore<T>(s: seq<T>, a: nat, b: nat, c: nat)
    requires a <= b <= c <= |s|
    ensures s[a..b] + s[b..c] == s[a..c]
  {
  }

  lemma ImageIsSound(blocks: seq<Block>, inodes: seq<Dinode>, owner: map<nat, (nat, nat)>)
    requires Image(blocks, inodes, owner)
    ensures Sound(blocks, inodes, owner)
  {
  }

  lemma WroteTable(blocks0: seq<Block>, d0: Dinode, blocks: seq<Block>, d: Dinode, inodes: seq<Dinode>,
                   inodes': seq<Dinode>, i: nat, off: nat, data: seq<Byte>)
    requires Wrote(blocks0, d0, blocks, d, inodes, i, off, data)
    requires |inodes'| == |inodes| && forall j | 0 <= j < |inodes| && j != i :: inodes'[j] == inodes[j]
    ensures Wrote(blocks0, d0, blocks, d, inodes', i, off, data)
    ensures d == d0.(addrs := d.addrs)
  {
    hide Bytes, Slot;
    OthersKeepTable(blocks0, blocks, inodes, inodes', i);
  }

  /** The end of writei: d1 holds the new blocks, d the new size as well. */
  lemma WriteEnds(blocks0: seq<Block>, inodes: seq<Dinode>, owner0: map<nat, (nat, nat)>, blocks: seq<Block>,
                  owner: map<nat, (nat, nat)>,
                  i: nat, d1: Dinode, d: Dinode, off: nat, data: seq<Byte>)
    requires Image(blocks0, inodes, owner0) && i < |inodes| && inodes[i].typ != 0 && off <= inodes[i].size
    requires Sound(blocks, inodes[i := d1], owner)
    requires Wrote(blocks0, inodes[i], blocks, d1, inodes, i, off, data)
    requires d == d1.(size := if off + |data| > inodes[i].size then off + |data| else inodes[i].size)
    ensures Image(blocks, inodes[i := d], owner)
    ensures d.size <= MAXBYTES && inodes[i].size <= MAXBYTES
    ensures Contents(blocks, d) == FileSplice(Contents(blocks0, inodes[i]), off, data)
    ensures OthersKeep(blocks0, blocks, inodes, i)
    ensures d.addrs == inodes[i].addrs <==> !MeetsHole(inodes[i], off, |data|)
    ensures Dense(blocks0, inodes[i]) ==> Dense(blocks, d)
    ensures Snug(blocks0, inodes[i]) ==> Snug(blocks, d)
  {
    assert Tidy(blocks0, inodes[i]);
    hide Slot, Bytes, OthersKeep, Sound, Tidy;
    SizeBounded(blocks0, inodes, owner0, i);
    FilledIffHole(inodes[i], d1.addrs, off, |data|);
    Resize(blocks, inodes[i := d1], owner, i, inodes[i := d]);
    SlotsOfAddrs(blocks, d1, d);
    SpliceGrows(blocks0, inodes[i], blocks, d, off, data);
    OthersTidy(blocks0, blocks, inodes, i, inodes[i := d]);
    if Dense(blocks0, inodes[i]) { DenseStays(blocks0, inodes[i], blocks, d, off, |data|); }
    if Snug(blocks0, inodes[i]) { SnugStays(blocks0, inodes[i], blocks, d, off, |data|); }
  }

  // ---------- releasing every block of an inode ----------

  /** The blocks in freed, all of inode i, have been zeroed and unmarked; nothing else has changed. */
  ghost predicate Freed(blocks: seq<Block>, ninodes: nat, blocks': seq<Block>, freed: set<nat>) {
    && |blocks'| == |blocks|
    && DataStart(|blocks|, ninodes) <= |blocks|
    && (forall c | 0 <= c < |blocks| :: Marked(blocks', ninodes, c) == (c !in freed && Marked(blocks, ninodes, c)))
    && (forall c | DataStart(|blocks|, ninodes) <= c < |blocks| ::
          if c in freed then IsZero(blocks'[c]) else blocks'[c] == blocks[c])
  }

  lemma FreedOneMore(blocks: seq<Block>, ninodes: nat, blocks': seq<Block>, freed: set<nat>, b: nat)
    requires Freed(blocks, ninodes, blocks', freed)
    requires DataStart(|blocks|, ninodes) <= b < |blocks|
    ensures Freed(blocks, ninodes, Unmark(blocks'[b := ZeroBlock()], ninodes, b), freed + {b})
  {
    hide Marked, Unmark, IsZero;
    var z := blocks'[b := ZeroBlock()];
    UnmarkSectors(z, ninodes, b);
    forall c | 0 <= c < |blocks|
      ensures Marked(Unmark(z, ninodes, b), ninodes, c) == (c != b && Marked(blocks', ninodes, c))
    {
      UnmarkOne(blocks', ninodes, b, c);
    }
  }

  lemma UnmarkOne(blocks: seq<Block>, ninodes: nat, b: nat, c: nat)
    requires DataStart(|blocks|, ninodes) <= b < |blocks| && c < |blocks|
    ensures Marked(Unmark(blocks[b := ZeroBlock()], ninodes, b), ninodes, c) == (c != b && Marked(blocks, ninodes, c))
  {
    UnmarkClearsOneBit(blocks[b := ZeroBlock()], ninodes, b, c);
  }

  lemma UnmarkSectors(blocks: seq<Block>, ninodes: nat, b: nat)
    requires DataStart(|blocks|, ninodes) <= b < |blocks|
    ensures |Unmark(blocks, ninodes, b)| == |blocks|
    ensures forall c | DataStart(|blocks|, ninodes) <= c < |blocks| :: Unmark(blocks, ninodes, b)[c] == blocks[c]
    ensures IsZero(ZeroBlock())
  {
  }

  /** freed is the set of blocks held by the slots done of inode i. */
  ghost predicate HeldBy(owner: map<nat, (nat, nat)>, i: nat, done: set<nat>, freed: set<nat>) {
    forall b :: b in freed <==> b in owner && owner[b].0 == i && owner[b].1 in done
  }

  lemma HeldByOneMore(blocks: seq<Block>, inodes: seq<Dinode>, owner: map<nat, (nat, nat)>, i: nat,
                      done: set<nat>, freed: set<nat>, s: nat)
    requires Sound(blocks, inodes, owner) && i < |inodes| && s < SLOTS && s !in done
    requires HeldBy(owner, i, done, freed)
    ensures var c := Slot(blocks, inodes[i], s);
            && HeldBy(owner, i, done + {s}, if c == 0 then freed else freed + {c})
            && (c != 0 ==> DataStart(|blocks|, |inodes|) <= c < |blocks| && c !in freed && Marked(blocks, |inodes|, c))
  {
    hide Slot;
  }

  lemma HeldByAll(blocks: seq<Block>, inodes: seq<Dinode>, owner: map<nat, (nat, nat)>, i: nat,
                  done: set<nat>, freed: set<nat>)
    requires Sound(blocks, inodes, owner) && i < |inodes|
    requires HeldBy(owner, i, done, freed)
    requires forall s | 0 <= s < SLOTS && s !in done :: Slot(blocks, inodes[i], s) == 0
    ensures forall b :: b in freed <==> b in owner && owner[b].0 == i
  {
    hide BitmapAgrees, Slot;
  }

  lemma SlotOfPointer(blocks: seq<Block>, d: Dinode, s: nat)
    requires s <= 12
    ensures Slot(blocks, d, s) == d.addrs[s]
  {
  }

  lemma NoIndirect(blocks: seq<Block>, d: Dinode)
    requires d.addrs[12] == 0
    ensures forall s | 12 <= s < SLOTS :: Slot(blocks, d, s) == 0
  {
  }

  /** The indirect block is still as it was while its own slot is not done. */
  lemma IndirectIntact(blocks: seq<Block>, inodes: seq<Dinode>, owner: map<nat, (nat, nat)>, i: nat,
                       done: set<nat>, blocks': seq<Block>, freed: set<nat>)
    requires Sound(blocks, inodes, owner) && i < |inodes| && Freed(blocks, |inodes|, blocks', freed)
    requires HeldBy(owner, i, done, freed) && 12 !in done && inodes[i].addrs[12] != 0
    ensures inodes[i].addrs[12] < |blocks| == |blocks'|
    ensures forall j | 0 <= j < 128 :: Word(blocks'[inodes[i].addrs[12]], j) == Slot(blocks, inodes[i], 13 + j)
  {
    SlotInRange(blocks, inodes, owner, i, 12);
  }

  lemma FreedNone(blocks: seq<Block>, inodes: seq<Dinode>, owner: map<nat, (nat, nat)>, i: nat)
    requires Sound(blocks, inodes, owner)
    ensures Freed(blocks, |inodes|, blocks, {}) && HeldBy(owner, i, {}, {})
  {
  }

  lemma FreedExactly(blocks: seq<Block>, inodes: seq<Dinode>, owner: map<nat, (nat, nat)>, i: nat, blocks': seq<Block>,
                     freed: set<nat>)
    requires Sound(blocks, inodes, owner) && i < |inodes| && Freed(blocks, |inodes|, blocks', freed)
    requires forall b :: b in freed <==> b in owner && owner[b].0 == i
    ensures forall b | 0 <= b < |blocks| ::
              Marked(blocks', |inodes|, b) == (Marked(blocks, |inodes|, b) && !Refers(blocks, inodes[i], b))
  {
    hide BitmapAgrees;
    forall b | 0 <= b < |blocks|
      ensures b in freed <==> Refers(blocks, inodes[i], b)
    {
      if b in freed { assert Slot(blocks, inodes[i], owner[b].1) == b; }
    }
  }

  /** Once every block of inode i is freed and its pointers cleared, the image is consistent again. */
  lemma FreedAll(blocks: seq<Block>, inodes: seq<Dinode>, owner: map<nat, (nat, nat)>, i: nat, blocks': seq<Block>,
                 freed: set<nat>, d: Dinode)
      returns (owner': map<nat, (nat, nat)>)
    requires Sound(blocks, inodes, owner) && i < |inodes|
    requires Freed(blocks, |inodes|, blocks', freed)
    requires forall b :: b in freed <==> b in owner && owner[b].0 == i
    requires forall k | 0 <= k < 13 :: d.addrs[k] == 0
    ensures owner' == map b | b in owner && owner[b].0 != i :: owner[b]
    ensures Sound(blocks', inodes[i := d], owner')
    ensures OthersKeep(blocks, blocks', inodes, i)
    ensures forall o | 0 <= o < MAXBYTES :: ByteAt(blocks', d, o) == 0
  {
    owner' := map b | b in owner && owner[b].0 != i :: owner[b];
    FreedSlots(blocks, inodes, owner, i, blocks', freed, inodes[i := d]);
    FreedOthers(blocks, inodes, owner, i, blocks', freed, inodes[i := d]);
    FreedOwns(blocks, inodes, owner, i, blocks', inodes[i := d], owner');
    FreedBitmap(blocks, inodes, owner, i, blocks', freed, owner');
    assert inodes[i := d][i] == d;
    forall o | 0 <= o < MAXBYTES
      ensures ByteAt(blocks', d, o) == 0
    {
      assert Slot(blocks', inodes[i := d][i], DataSlot(o / 512)) == 0;
    }
  }

  lemma FreedOwns(blocks: seq<Block>, inodes: seq<Dinode>, owner: map<nat, (nat, nat)>, i: nat, blocks': seq<Block>,
                  inodes': seq<Dinode>, owner': map<nat, (nat, nat)>)
    requires Sound(blocks, inodes, owner) && i < |inodes| == |inodes'| && |blocks'| == |blocks|
    requires owner' == map b | b in owner && owner[b].0 != i :: owner[b]
    requires forall j, s | 0 <= j < |inodes| && 0 <= s < SLOTS ::
              Slot(blocks', inodes'[j], s) == if j == i then 0 else Slot(blocks, inodes[j], s)
    ensures Owns(blocks', inodes', DataStart(|blocks|, |inodes|), owner')
  {
    hide BitmapAgrees, Slot;
  }

  lemma FreedBitmap(blocks: seq<Block>, inodes: seq<Dinode>, owner: map<nat, (nat, nat)>, i: nat, blocks': seq<Block>,
                    freed: set<nat>, owner': map<nat, (nat, nat)>)
    requires Sound(blocks, inodes, owner)
    requires Freed(blocks, |inodes|, blocks', freed)
    requires forall b :: b in freed <==> b in owner && owner[b].0 == i
    requires owner' == map b | b in owner && owner[b].0 != i :: owner[b]
    ensures BitmapAgrees(blocks', |inodes|, owner')
  {
    forall b | b in owner
      ensures DataStart(|blocks|, |inodes|) <= b
    {
    }
    hide Owns, Slot, Marked;
  }

  lemma FreedSlots(blocks: seq<Block>, inodes: seq<Dinode>, owner: map<nat, (nat, nat)>, i: nat, blocks': seq<Block>,
                   freed: set<nat>, inodes': seq<Dinode>)
    requires Sound(blocks, inodes, owner) && i < |inodes|
    requires Freed(blocks, |inodes|, blocks', freed)
    requires forall b :: b in freed <==> b in owner && owner[b].0 == i
    requires |inodes'| == |inodes| && forall j | 0 <= j < |inodes| && j != i :: inodes'[j] == inodes[j]
    requires forall k | 0 <= k < 13 :: inodes'[i].addrs[k] == 0
    ensures forall j, s | 0 <= j < |inodes| && 0 <= s < SLOTS ::
              Slot(blocks', inodes'[j], s) == if j == i then 0 else Slot(blocks, inodes[j], s)
  {
    hide BitmapAgrees;
    forall j, s | 0 <= j < |inodes| && 0 <= s < SLOTS
      ensures Slot(blocks', inodes'[j], s) == if j == i then 0 else Slot(blocks, inodes[j], s)
    {
      assert Slot(blocks, inodes[j], 12) == inodes[j].addrs[12];
    }
  }

  lemma FreedOthers(blocks: seq<Block>, inodes: seq<Dinode>, owner: map<nat, (nat, nat)>, i: nat, blocks': seq<Block>,
                    freed: set<nat>, inodes': seq<Dinode>)
    requires Sound(blocks, inodes, owner) && i < |inodes| == |inodes'|
    requires Freed(blocks, |inodes|, blocks', freed)
    requires forall b | b in freed :: b in owner && owner[b].0 == i
    requires forall j | 0 <= j < |inodes| && j != i :: inodes'[j] == inodes[j]
    requires forall j, s | 0 <= j < |inodes| && 0 <= s < SLOTS ::
              Slot(blocks', inodes'[j], s) == if j == i then 0 else Slot(blocks, inodes[j], s)
    ensures OthersKeep(blocks, blocks', inodes, i)
  {
    hide BitmapAgrees;
    forall j | 0 <= j < |inodes| && j != i
      ensures Keeps(blocks, blocks', inodes[j])
    {
      forall s | 0 <= s < SLOTS
        ensures Slot(blocks', inodes[j], s) == Slot(blocks, inodes[j], s)
      {
        assert inodes'[j] == inodes[j];
      }
      SameBytes(blocks, inodes[j], blocks', inodes[j]);
    }
  }

  /** The end of itrunc: every slot of inode i is done, its in-memory copy d is empty. */
  lemma Truncated(blocks: seq<Block>, inodes: seq<Dinode>, owner: map<nat, (nat, nat)>, i: nat, blocks': seq<Block>,
                  done: set<nat>, freed: set<nat>, d: Dinode)
      returns (owner': map<nat, (nat, nat)>)
    requires Image(blocks, inodes, owner) && i < |inodes|
    requires Freed(blocks, |inodes|, blocks', freed) && HeldBy(owner, i, done, freed)
    requires forall s | 0 <= s < SLOTS && s !in done :: Slot(blocks, inodes[i], s) == 0
    requires d.size == 0 && forall k | 0 <= k < 13 :: d.addrs[k] == 0
    ensures |blocks'| == |blocks| && DataStart(|blocks|, |inodes|) <= |blocks|
    ensures Image(blocks', inodes[i := d], owner')
    ensures OthersKeep(blocks, blocks', inodes, i)
    ensures forall b | 0 <= b < |blocks| ::
              Marked(blocks', |inodes|, b) == (Marked(blocks, |inodes|, b) && !Refers(blocks, inodes[i], b))
  {
    HeldByAll(blocks, inodes, owner, i, done, freed);
    FreedExactly(blocks, inodes, owner, i, blocks', freed);
    owner' := FreedAll(blocks, inodes, owner, i, blocks', freed, d);
    AllClear(blocks', d);
    hide Sound, Freed, HeldBy, OthersKeep, Tidy, Slot;
    OthersTidy(blocks, blocks', inodes, i, inodes[i := d]);
  }

  // ---------- what the files are, blocks forgotten ----------

  datatype File = Absent | File(typ: int, major: int, minor: int, nlink: int, bytes: seq<Byte>)

  function FileOf(blocks: seq<Block>, d: Dinode): File {
    if d.typ == 0 || d.size > MAXBYTES then Absent else File(d.typ, d.major, d.minor, d.nlink, Contents(blocks, d))
  }

  function Files(blocks: seq<Block>, inodes: seq<Dinode>): (r: seq<File>)
    ensures |r| == |inodes|
  {
    seq(|inodes|, i requires 0 <= i < |inodes| => FileOf(blocks, inodes[i]))
  }

  lemma FileAt(blocks: seq<Block>, inodes: seq<Dinode>, i: nat)
    requires i < |inodes|
    ensures |Files(blocks, inodes)| == |inodes| && Files(blocks, inodes)[i] == FileOf(blocks, inodes[i])
  {
  }

  /** Changing inode i alone changes file i alone. */
  lemma OneFileChanged(blocks: seq<Block>, inodes: seq<Dinode>, blocks': seq<Block>, inodes': seq<Dinode>, i: nat)
    requires |inodes'| == |inodes| && i < |inodes|
    requires forall j | 0 <= j < |inodes| && j != i :: inodes'[j] == inodes[j]
    requires OthersKeep(blocks, blocks', inodes, i)
    ensures Files(blocks', inodes') == Files(blocks, inodes)[i := FileOf(blocks', inodes'[i])]
    ensures (forall j | 0 <= j < |inodes| :: Packed(blocks, inodes[j])) && Packed(blocks', inodes'[i]) ==>
              forall j | 0 <= j < |inodes'| :: Packed(blocks', inodes'[j])
  {
    forall j | 0 <= j < |inodes| && j != i
      ensures FileOf(blocks', inodes'[j]) == FileOf(blocks, inodes[j])
      ensures Packed(blocks, inodes[j]) ==> Packed(blocks', inodes'[j])
    {
      assert Keeps(blocks, blocks', inodes[j]);
    }
  }

  lemma FreshInode(blocks: seq<Block>, inodes: seq<Dinode>, owner: map<nat, (nat, nat)>, i: nat, d: Dinode)
    requires Image(blocks, inodes, owner) && i < |inodes| && inodes[i].typ == 0
    requires d.size == 0 && forall k | 0 <= k < 13 :: d.addrs[k] == 0
    ensures Image(blocks, inodes[i := d], owner)
    ensures OthersKeep(blocks, blocks, inodes, i)
  {
    assert d.addrs == inodes[i].addrs;
    Resize(blocks, inodes, owner, i, inodes[i := d]);
    KeepAll(blocks, inodes, i);
    AllClear(blocks, d);
    OthersTidy(blocks, blocks, inodes, i, inodes[i := d]);
  }

  lemma SameButLinks(blocks: seq<Block>, d: Dinode, n: int)
    requires d.size <= MAXBYTES
    ensures var d' := d.(nlink := n);
            && Contents(blocks, d') == Contents(blocks, d)
            && (Tidy(blocks, d) ==> Tidy(blocks, d')) && (Packed(blocks, d) ==> Packed(blocks, d'))
  {
    var d' := d.(nlink := n);
    SlotsOfAddrs(blocks, d, d');
    forall o | 0 <= o < MAXBYTES
      ensures ByteAt(blocks, d', o) == ByteAt(blocks, d, o)
    {
    }
    SameBytes(blocks, d, blocks, d');
  }

  /** A link count is no business of the blocks either. */
  lemma Relinked(blocks: seq<Block>, inodes: seq<Dinode>, owner: map<nat, (nat, nat)>, i: nat, n: int)
    requires Image(blocks, inodes, owner) && i < |inodes| && inodes[i].typ != 0
    requires forall j | 0 <= j < |inodes| :: Packed(blocks, inodes[j])
    ensures var inodes' := inodes[i := inodes[i].(nlink := n)];
            && Image(blocks, inodes', owner) && (forall j | 0 <= j < |inodes| :: Packed(blocks, inodes'[j]))
            && FileOf(blocks, inodes[i]).File?
            && Files(blocks, inodes') == Files(blocks, inodes)[i := FileOf(blocks, inodes[i]).(nlink := n)]
  {
    hide Sound, Tidy, Packed, Bytes, Contents, OthersKeep;
    var inodes' := inodes[i := inodes[i].(nlink := n)];
    SizeBounded(blocks, inodes, owner, i);
    Resize(blocks, inodes, owner, i, inodes');
    SameButLinks(blocks, inodes[i], n);
    KeepAll(blocks, inodes, i);
    OneFileChanged(blocks, inodes, blocks, inodes', i);
  }

  lemma FreeInode(blocks: seq<Block>, inodes: seq<Dinode>, owner: map<nat, (nat, nat)>, i: nat, d: Dinode)
    requires Image(blocks, inodes, owner) && i < |inodes|
    requires d.size == 0 && (forall k | 0 <= k < 13 :: d.addrs[k] == 0) && inodes[i].addrs == d.addrs
    ensures Image(blocks, inodes[i := d], owner) && Packed(blocks, d)
  {
    Resize(blocks, inodes, owner, i, inodes[i := d]);
    KeepAll(blocks, inodes, i);
    AllClear(blocks, d);
    OthersTidy(blocks, blocks, inodes, i, inodes[i := d]);
  }
}

/** The disk under the file system (include/fs.h and the block layer of kernel/fs.c):
    sectors of 512 bytes, the in-use bitmap kept in some of them, 32-bit little-endian
    block numbers kept in indirect blocks, and the inodes that refer to blocks. */
module Disk {
  import opened Common

  const BSIZE: nat := 512
  const NDIRECT: nat := 12
  const NINDIRECT: nat := 128
  const MAXFILE: nat := 140
  const MAXBYTES: nat := 71680
  const BPB: nat := 4096
  const WORD: nat := TWO_TO_32

  type Byte = x: int | 0 <= x < 256
  type Block = b: seq<Byte> | |b| == 512 witness seq(512, _ => 0)
  type Addrs = a: seq<nat> | |a| == 13 witness seq(13, _ => 0)

  predicate IsZero(b: Block) {
    forall k | 0 <= k < 512 :: b[k] == 0
  }

  function ZeroBlock(): (b: Block)
    ensures IsZero(b)
  {
    seq(512, _ => 0)
  }

  /** The fields of struct dinode; addrs[12] names the indirect block. */
  datatype Dinode = Dinode(typ: int, major: int, minor: int, nlink: int, size: nat, addrs: Addrs)

  // ---------- words of an indirect block ----------

  function Word(b: Block, n: nat): nat
    requires n < 128
  {
    var b0: int, b1: int, b2: int, b3: int := b[4 * n], b[4 * n + 1], b[4 * n + 2], b[4 * n + 3];
    b0 + 0x100 * b1 + 0x1_0000 * b2 + 0x100_0000 * b3
  }

  function SetWord(b: Block, n: nat, v: nat): Block
    requires n < 128 && v < WORD
  {
    b[4 * n := v % 0x100][4 * n + 1 := v / 0x100 % 0x100]
     [4 * n + 2 := v / 0x100 / 0x100 % 0x100][4 * n + 3 := v / 0x100 / 0x100 / 0x100]
  }

  lemma WordOfSetWord(b: Block, n: nat, v: nat, m: nat)
    requires n < 128 && v < WORD && m < 128
    ensures Word(SetWord(b, n, v), m) == if m == n then v else Word(b, m)
  {
    if m == n {
      var q1 := v / 0x100;
      var q2 := q1 / 0x100;
      var q3 := q2 / 0x100;
      assert v == 0x100 * q1 + v % 0x100 && q1 == 0x100 * q2 + q1 % 0x100 && q2 == 0x100 * q3 + q2 % 0x100;
    }
  }

  /** The word's bytes, the lowest first, and no other byte. */
  lemma WordBytes(b: Block, n: nat, v: nat)
    requires n < 128 && v < WORD
    ensures var r := SetWord(b, n, v);
            var b0: int, b1: int, b2: int, b3: int := r[4 * n], r[4 * n + 1], r[4 * n + 2], r[4 * n + 3];
            && b0 + 0x100 * b1 + 0x1_0000 * b2 + 0x100_0000 * b3 == v
            && forall k | 0 <= k < 512 && !(4 * n <= k < 4 * n + 4) :: r[k] == b[k]
  {
    WordOfSetWord(b, n, v, n);
  }

  // ---------- the bitmap ----------

  /** The mask 1 << k. */
  function Mask(k: nat): nat {
    if k == 0 then 1 else 2 * Mask(k - 1)
  }

  /** (v & 1 << k) != 0 */
  predicate Bit(v: nat, k: nat) {
    if k == 0 then v % 2 == 1 else Bit(v / 2, k - 1)
  }

  /** v | 1 << k */
  function OrMask(v: nat, k: nat): nat {
    if Bit(v, k) then v else v + Mask(k)
  }

  /** v & ~(1 << k) */
  function AndNotMask(v: nat, k: nat): nat {
    if Bit(v, k) then BitAtMost(v, k); v - Mask(k) else v
  }

  lemma {:induction false} BitAtMost(v: nat, k: nat)
    requires Bit(v, k)
    ensures Mask(k) <= v
  {
    if k > 0 { BitAtMost(v / 2, k - 1); }
  }

  lemma {:induction false} OrMaskFits(v: nat, k: nat, n: nat)
    requires k < n && v < Mask(n) && !Bit(v, k)
    ensures v + Mask(k) < Mask(n)
  {
    if k > 0 { OrMaskFits(v / 2, k - 1, n - 1); }
  }

  lemma {:induction false} OrMaskBits(v: nat, k: nat, j: nat)
    ensures Bit(OrMask(v, k), j) == (j == k || Bit(v, j))
  {
    if Bit(v, k) {
    } else if k == 0 {
      assert (v + 1) / 2 == v / 2;
    } else {
      var m := Mask(k - 1);
      assert (v + 2 * m) / 2 == v / 2 + m && (v + 2 * m) % 2 == v % 2;
      if j > 0 { OrMaskBits(v / 2, k - 1, j - 1); }
    }
  }

  lemma {:induction false} AndNotMaskBits(v: nat, k: nat, j: nat)
    ensures Bit(AndNotMask(v, k), j) == (j != k && Bit(v, j))
  {
    if Bit(v, k) {
      BitAtMost(v, k);
      if k == 0 {
        assert (v - 1) / 2 == v / 2;
      } else {
        BitAtMost(v / 2, k - 1);
        var m := Mask(k - 1);
        assert (v - 2 * m) / 2 == v / 2 - m && (v - 2 * m) % 2 == v % 2;
        if j > 0 { AndNotMaskBits(v / 2, k - 1, j - 1); }
      }
    }
  }

  lemma MaskOfByte()
    ensures Mask(8) == 256
  {
    assert Mask(8) == 16 * Mask(4);
  }

  /** Sector holding the bit of block b: BBLOCK(b, ninodes). */
  function BBlock(b: nat, ninodes: nat): nat {
    b / 4096 + ninodes / 8 + 3
  }

  predicate Marked(blocks: seq<Block>, ninodes: nat, b: nat)
    requires BBlock(b, ninodes) < |blocks|
  {
    Bit(blocks[BBlock(b, ninodes)][b % 4096 / 8], b % 4096 % 8)
  }

  function MarkByte(v: Byte, k: nat): Byte
    requires k < 8
  {
    MaskOfByte();
    if !Bit(v, k) then OrMaskFits(v, k, 8); OrMask(v, k) else v
  }

  function UnmarkByte(v: Byte, k: nat): Byte
    requires k < 8
  {
    AndNotMask(v, k)
  }

  function Mark(blocks: seq<Block>, ninodes: nat, b: nat): seq<Block>
    requires BBlock(b, ninodes) < |blocks|
  {
    var s := blocks[BBlock(b, ninodes)];
    blocks[BBlock(b, ninodes) := s[b % 4096 / 8 := MarkByte(s[b % 4096 / 8], b % 4096 % 8)]]
  }

  function Unmark(blocks: seq<Block>, ninodes: nat, b: nat): seq<Block>
    requires BBlock(b, ninodes) < |blocks|
  {
    var s := blocks[BBlock(b, ninodes)];
    blocks[BBlock(b, ninodes) := s[b % 4096 / 8 := UnmarkByte(s[b % 4096 / 8], b % 4096 % 8)]]
  }

  /** Where the bit of a block lies on the disk. */
  lemma MarkedIs(blocks: seq<Block>, ninodes: nat, b: nat)
    requires b / 4096 + ninodes / 8 + 3 < |blocks|
    ensures BBlock(b, ninodes) < |blocks|
    ensures Marked(blocks, ninodes, b) <==>
              blocks[b / 4096 + ninodes / 8 + 3][b % 4096 / 8] / [1, 2, 4, 8, 16, 32, 64, 128][b % 8] % 2 == 1
  {
    hide Bit;
    Mod8(b);
    BitIs(blocks[BBlock(b, ninodes)][b % 4096 / 8], b % 8);
  }

  lemma Mod8(b: nat)
    ensures b % 4096 % 8 == b % 8
  {
    var q, m := b / 4096, b % 4096;
    assert b == 8 * (512 * q + m / 8) + m % 8;
    Remainder(512 * q + m / 8, m % 8);
  }

  lemma Remainder(q: nat, r: nat)
    requires r < 8
    ensures (8 * q + r) % 8 == r
  {
  }

  lemma BitIs(v: nat, k: nat)
    requires k < 8
    ensures Bit(v, k) <==> v / [1, 2, 4, 8, 16, 32, 64, 128][k] % 2 == 1
  {
    if k > 0 { BitIs(v / 2, k - 1); }
    assert v / 2 / 2 == v / 4 && v / 2 / 4 == v / 8 && v / 2 / 8 == v / 16 && v / 2 / 16 == v / 32;
    assert v / 2 / 32 == v / 64 && v / 2 / 64 == v / 128;
  }

  lemma SameBit(b: nat, c: nat)
    requires b / 4096 == c / 4096 && b % 4096 / 8 == c % 4096 / 8 && b % 4096 % 8 == c % 4096 % 8
    ensures b == c
  {
    var m, n := b % 4096, c % 4096;
    assert m == 8 * (m / 8) + m % 8 && n == 8 * (n / 8) + n % 8;
    assert b == 4096 * (b / 4096) + m && c == 4096 * (c / 4096) + n;
  }

  lemma MarkSetsOneBit(blocks: seq<Block>, ninodes: nat, b: nat, c: nat)
    requires BBlock(b, ninodes) < |blocks| && BBlock(c, ninodes) < |blocks|
    ensures Marked(Mark(blocks, ninodes, b), ninodes, c) == (c == b || Marked(blocks, ninodes, c))
  {
    OrMaskBits(blocks[BBlock(b, ninodes)][b % 4096 / 8], b % 4096 % 8, c % 4096 % 8);
    if c != b && b / 4096 == c / 4096 && b % 4096 / 8 == c % 4096 / 8 && b % 4096 % 8 == c % 4096 % 8 { SameBit(b, c); }
  }

  lemma MarkSetsBits(blocks: seq<Block>, ninodes: nat, b: nat, n: nat)
    requires BBlock(b, ninodes) < |blocks| && BBlock(n, ninodes) < |blocks|
    ensures forall c | 0 <= c < n :: BBlock(c, ninodes) < |blocks| &&
              Marked(Mark(blocks, ninodes, b), ninodes, c) == (c == b || Marked(blocks, ninodes, c))
  {
    forall c | 0 <= c < n
      ensures BBlock(c, ninodes) < |blocks|
                && Marked(Mark(blocks, ninodes, b), ninodes, c) == (c == b || Marked(blocks, ninodes, c))
    {
      MarkSetsOneBit(blocks, ninodes, b, c);
    }
  }

  lemma UnmarkClearsOneBit(blocks: seq<Block>, ninodes: nat, b: nat, c: nat)
    requires BBlock(b, ninodes) < |blocks| && BBlock(c, ninodes) < |blocks|
    ensures Marked(Unmark(blocks, ninodes, b), ninodes, c) == (c != b && Marked(blocks, ninodes, c))
  {
    AndNotMaskBits(blocks[BBlock(b, ninodes)][b % 4096 / 8], b % 4096 % 8, c % 4096 % 8);
    if c != b && b / 4096 == c / 4096 && b % 4096 / 8 == c % 4096 / 8 && b % 4096 % 8 == c % 4096 % 8 { SameBit(b, c); }
  }

  // ---------- which block an inode slot names ----------

  /** Slots of an inode: 0..11 the direct blocks, 12 the indirect block, 13.. the entries of the indirect block. */
  const SLOTS: nat := 141

  function DataSlot(bn: nat): nat {
    if bn < 12 then bn else bn + 1
  }

  /** The block named by slot s, 0 for none. */
  function Slot(blocks: seq<Block>, d: Dinode, s: nat): nat
    requires s < SLOTS
  {
    if s <= 12 then d.addrs[s]
    else if d.addrs[12] == 0 || d.addrs[12] >= |blocks| then 0
    else Word(blocks[d.addrs[12]], s - 13)
  }

  /** The byte at offset o of the file; a hole reads as zero. */
  function ByteAt(blocks: seq<Block>, d: Dinode, o: nat): Byte
    requires o < MAXBYTES
  {
    var b := Slot(blocks, d, DataSlot(o / 512));
    if b == 0 || b >= |blocks| then 0 else blocks[b][o % 512]
  }

  /** All the bytes an inode could hold, in order. */
  function Bytes(blocks: seq<Block>, d: Dinode): (r: seq<Byte>)
    ensures |r| == MAXBYTES
  {
    seq(MAXBYTES, o requires 0 <= o < MAXBYTES => ByteAt(blocks, d, o))
  }

  /** A file's contents: its bytes up to its size. */
  function Contents(blocks: seq<Block>, d: Dinode): seq<Byte>
    requires d.size <= MAXBYTES
  {
    Bytes(blocks, d)[..d.size]
  }

  // ---------- ownership ----------

  /** A table of inodes in which each block in use is named by exactly one slot: owner maps the
      block to that inode and slot. Blocks below start hold metadata and are nobody's. */
  ghost predicate Owns(blocks: seq<Block>, inodes: seq<Dinode>, start: nat, owner: map<nat, (nat, nat)>) {
    && 0 < start <= |blocks| < WORD
    && (forall b | b in owner ::
          && start <= b < |blocks|
          && owner[b].0 < |inodes| && owner[b].1 < SLOTS
          && Slot(blocks, inodes[owner[b].0], owner[b].1) == b)
    && (forall i, s | 0 <= i < |inodes| && 0 <= s < SLOTS && Slot(blocks, inodes[i], s) != 0 ::
          && Slot(blocks, inodes[i], s) in owner
          && owner[Slot(blocks, inodes[i], s)] == (i, s))
  }

  /** The block numbers an inode refers to. */
  ghost predicate Refers(blocks: seq<Block>, d: Dinode, b: nat) {
    exists s | 0 <= s < SLOTS :: Slot(blocks, d, s) == b != 0
  }

  lemma SlotsDistinct(blocks: seq<Block>, inodes: seq<Dinode>, start: nat, owner: map<nat, (nat, nat)>, i: nat, s: nat,
                      j: nat, t: nat)
    requires Owns(blocks, inodes, start, owner)
    requires i < |inodes| && j < |inodes| && s < SLOTS && t < SLOTS
    requires Slot(blocks, inodes[i], s) == Slot(blocks, inodes[j], t) != 0
    ensures i == j && s == t
  {
  }

  /** A change of sectors that name no block (data blocks or metadata) leaves ownership alone. */
  lemma OwnsFrame(blocks: seq<Block>, blocks': seq<Block>, inodes: seq<Dinode>, start: nat, owner: map<nat, (nat, nat)>)
    requires Owns(blocks, inodes, start, owner)
    requires |blocks'| == |blocks|
    requires forall b | b in owner && owner[b].1 == 12 :: blocks'[b] == blocks[b]
    ensures Owns(blocks', inodes, start, owner)
    ensures forall i, s | 0 <= i < |inodes| && 0 <= s < SLOTS ::
              Slot(blocks', inodes[i], s) == Slot(blocks, inodes[i], s)
  {
    forall i, s | 0 <= i < |inodes| && 0 <= s < SLOTS
      ensures Slot(blocks', inodes[i], s) == Slot(blocks, inodes[i], s)
    {
      assert Slot(blocks, inodes[i], 12) == inodes[i].addrs[12];
    }
  }

  /** Filling an empty direct slot, or the empty indirect slot, with an unowned zero block. */
  lemma AttachPointer(blocks: seq<Block>, inodes: seq<Dinode>, start: nat, owner: map<nat, (nat, nat)>, i: nat, s: nat,
                      b: nat)
    requires Owns(blocks, inodes, start, owner)
    requires i < |inodes| && s <= 12 && inodes[i].addrs[s] == 0
    requires start <= b < |blocks| && b !in owner && IsZero(blocks[b])
    ensures var inodes' := inodes[i := inodes[i].(addrs := inodes[i].addrs[s := b])];
      && Owns(blocks, inodes', start, owner[b := (i, s)])
      && (forall j, t | 0 <= j < |inodes| && 0 <= t < SLOTS ::
            Slot(blocks, inodes'[j], t) == if (j, t) == (i, s) then b else Slot(blocks, inodes[j], t))
  {
    var inodes' := inodes[i := inodes[i].(addrs := inodes[i].addrs[s := b])];
    forall j, t | 0 <= j < |inodes| && 0 <= t < SLOTS
      ensures Slot(blocks, inodes'[j], t) == if (j, t) == (i, s) then b else Slot(blocks, inodes[j], t)
    {
    }
  }

  /** Filling an empty entry of the indirect block. */
  lemma AttachEntry(blocks: seq<Block>, inodes: seq<Dinode>, start: nat, owner: map<nat, (nat, nat)>, i: nat, k: nat,
                    b: nat)
    requires Owns(blocks, inodes, start, owner)
    requires i < |inodes| && k < 128 && inodes[i].addrs[12] != 0 && Slot(blocks, inodes[i], 13 + k) == 0
    requires start <= b < |blocks| && b !in owner
    ensures start <= inodes[i].addrs[12] < |blocks|
    ensures var a := inodes[i].addrs[12]; var blocks' := blocks[a := SetWord(blocks[a], k, b)];
      && Owns(blocks', inodes, start, owner[b := (i, 13 + k)])
      && (forall j, t | 0 <= j < |inodes| && 0 <= t < SLOTS ::
            Slot(blocks', inodes[j], t) == if (j, t) == (i, 13 + k) then b else Slot(blocks, inodes[j], t))
  {
    var a := inodes[i].addrs[12];
    assert Slot(blocks, inodes[i], 12) == a;
    var blocks' := blocks[a := SetWord(blocks[a], k, b)];
    forall j, t | 0 <= j < |inodes| && 0 <= t < SLOTS
      ensures Slot(blocks', inodes[j], t) == if (j, t) == (i, 13 + k) then b else Slot(blocks, inodes[j], t)
    {
      assert Slot(blocks, inodes[j], 12) == inodes[j].addrs[12];
      if j == i && t > 12 { WordOfSetWord(blocks[a], k, b, t - 13); }
    }
  }
}

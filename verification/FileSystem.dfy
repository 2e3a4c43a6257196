/** The block and inode layers of kernel/fs.c. */
module FileSystem {
  import opened Common
  import opened Disk
  import opened Images
  import opened Space

  /** struct inode: the in-memory copy of an inode. */
  class Inode {
    const inum: nat
    var ref: nat
    var typ: int
    var major: int
    var minor: int
    var nlink: int
    var size: nat
    var addrs: Addrs

    function D(): Dinode
      reads this
    {
      Dinode(typ, major, minor, nlink, size, addrs)
    }

    constructor (inum: nat, d: Dinode)
      ensures this.inum == inum && ref == 1 && D() == d
    {
      this.inum, ref := inum, 1;
      typ, major, minor, nlink, size, addrs := d.typ, d.major, d.minor, d.nlink, d.size, d.addrs;
    }
  }

  /** What readi and writei come to: a stop (no disk block left), -1, a call of the device driver, or a count. */
  datatype Outcome = Stopped | Fail | ToDevice | Done(n: nat)

  function Min(a: nat, b: nat): nat {
    if a < b then a else b
  }

  /** What system calls do to files: an inode made, bytes written or read, a link count stored, the last
      reference dropped. */
  datatype Op =
    | Create(typ: int, major: int, minor: int)
    | Write(inum: nat, off: nat, src: seq<Byte>)
    | Read(inum: nat, off: nat, n: nat)
    | SetLinks(inum: nat, nlink: int)
    | Remove(inum: nat)

  function FirstAbsent(files: seq<File>, i: nat): (r: nat)
    requires i <= |files|
    ensures i <= r <= |files|
    decreases |files| - i
  {
    if i == |files| || files[i].Absent? then i else FirstAbsent(files, i + 1)
  }

  lemma {:induction false} FirstAbsentIs(files: seq<File>, i: nat, r: nat)
    requires i <= r <= |files| && (r < |files| ==> files[r].Absent?) && forall k | i <= k < r :: !files[k].Absent?
    ensures FirstAbsent(files, i) == r
    decreases r - i
  {
    if i < r { FirstAbsentIs(files, i + 1, r); }
  }

  /** The same operation on files taken as byte sequences, with no blocks, bitmap or inodes. */
  function Stepped(files: seq<File>, op: Op): seq<File> {
    match op
    case Create(typ, major, minor) =>
      if typ == 0 || |files| == 0 || FirstAbsent(files, 1) == |files| then files
      else files[FirstAbsent(files, 1) := File(typ, major, minor, 1, [])]
    case Write(inum, off, src) =>
      if inum >= |files| || files[inum].Absent? || files[inum].typ == T_DEV then files
      else if off > |files[inum].bytes| || off + |src| >= WORD then files
      else files[inum := files[inum].(bytes := FileSplice(files[inum].bytes, off,
                                                          src[..Min(|src|, MAXBYTES - Min(off, MAXBYTES))]))]
    case Read(inum, off, n) => files
    case SetLinks(inum, nlink) =>
      if inum >= |files| || files[inum].Absent? then files else files[inum := files[inum].(nlink := nlink)]
    case Remove(inum) =>
      if inum >= |files| || files[inum].Absent? || files[inum].nlink != 0 then files else files[inum := Absent]
  }

  lemma WroteFile(files: seq<File>, inum: nat, off: nat, src: seq<Byte>, blocks0: seq<Block>, d0: Dinode,
                  blocks: seq<Block>, d: Dinode, k: nat)
    requires inum < |files| && files[inum] == FileOf(blocks0, d0) && d0.typ != 0 && d0.typ != T_DEV
    requires off <= d0.size <= MAXBYTES && d.size <= MAXBYTES && off + |src| < WORD && k == Min(|src|, MAXBYTES - off)
    requires d == d0.(addrs := d.addrs, size := d.size)
    requires Contents(blocks, d) == FileSplice(Contents(blocks0, d0), off, src[..k])
    ensures files[inum := FileOf(blocks, d)] == Stepped(files, Write(inum, off, src))
  {
    hide Bytes, FileSplice;
  }

  lemma WroteNothing(files: seq<File>, inum: nat, off: nat, src: seq<Byte>, blocks0: seq<Block>, d0: Dinode)
    requires inum < |files| && files[inum] == FileOf(blocks0, d0) && d0.typ != 0 && d0.size <= MAXBYTES
    requires d0.typ == T_DEV || off > d0.size || off + |src| >= WORD
    ensures Stepped(files, Write(inum, off, src)) == files
  {
    hide Bytes;
  }

  /** A machine that holds capacity data blocks stops at op: no inode is left, or no block. */
  predicate Stuck(files: seq<File>, op: Op, capacity: nat) {
    || (op.Create? && op.typ != 0 && (files == [] || FirstAbsent(files, 1) == |files|))
    || Held(Stepped(files, op)) > capacity
  }

  function Ran(files: seq<File>, ops: seq<Op>): (r: seq<File>)
    ensures |r| == |files|
  {
    if ops == [] then files else Stepped(Ran(files, ops[..|ops| - 1]), ops[|ops| - 1])
  }

  /** It stops at one of the operations. */
  predicate Halts(files: seq<File>, ops: seq<Op>, capacity: nat) {
    && ops != []
    && (Halts(files, ops[..|ops| - 1], capacity)
        || Stuck(Ran(files, ops[..|ops| - 1]), ops[|ops| - 1], capacity))
  }

  lemma {:induction false} HaltsForGood(files: seq<File>, ops: seq<Op>, n: nat, capacity: nat)
    requires n <= |ops| && Halts(files, ops[..n], capacity)
    ensures Halts(files, ops, capacity)
    decreases |ops|
  {
    hide Stuck;
    if n < |ops| {
      assert ops[..|ops| - 1][..n] == ops[..n];
      HaltsForGood(files, ops[..|ops| - 1], n, capacity);
    } else {
      assert ops[..n] == ops;
    }
  }

  lemma RanOnce(files: seq<File>, ops: seq<Op>, op: Op)
    ensures Ran(files, ops + [op]) == Stepped(Ran(files, ops), op)
  {
    assert (ops + [op])[..|ops|] == ops;
  }

  /** A file that is made, written and read, and then unlinked and dropped, leaves nothing behind. */
  lemma MadeAndGone(files: seq<File>, typ: int, major: int, minor: int, used: seq<Op>)
    requires typ != 0 && 0 < |files| && FirstAbsent(files, 1) < |files|
    requires forall k | 0 <= k < |used| :: (used[k].Write? || used[k].Read?) && used[k].inum == FirstAbsent(files, 1)
    ensures var i := FirstAbsent(files, 1);
            Ran(files, [Create(typ, major, minor)] + used + [SetLinks(i, 0)] + [Remove(i)]) == files
  {
    hide Ran;
    var i, ops := FirstAbsent(files, 1), [Create(typ, major, minor)] + used;
    FirstAbsentFree(files, 1);
    OnlyOne(files, Create(typ, major, minor), used, i);
    hide Stepped;
    RanOnce(files, ops, SetLinks(i, 0));
    RanOnce(files, ops + [SetLinks(i, 0)], Remove(i));
    Unlinked(files, Ran(files, ops), i);
  }

  lemma Unlinked(files: seq<File>, mid: seq<File>, i: nat)
    requires i < |files| == |mid| && files[i].Absent? && mid[i].File? && mid[i := Absent] == files[i := Absent]
    ensures Stepped(Stepped(mid, SetLinks(i, 0)), Remove(i)) == files
  {
    assert files[i := Absent] == files;
    assert Stepped(mid, SetLinks(i, 0))[i := Absent] == mid[i := Absent];
  }

  lemma {:induction false} FirstAbsentFree(files: seq<File>, i: nat)
    requires i <= |files| && FirstAbsent(files, i) < |files|
    ensures files[FirstAbsent(files, i)].Absent?
    decreases |files| - i
  {
    if !files[i].Absent? { FirstAbsentFree(files, i + 1); }
  }

  lemma {:induction false} OnlyOne(files: seq<File>, first: Op, used: seq<Op>, i: nat)
    requires i < |files| && (forall k | 0 <= k < |used| :: (used[k].Write? || used[k].Read?) && used[k].inum == i)
    requires Stepped(files, first)[i].File? && Stepped(files, first)[i := Absent] == files[i := Absent]
    ensures var r := Ran(files, [first] + used);
            r[i].File? && r[i := Absent] == files[i := Absent]
    decreases |used|
  {
    if used == [] {
      RanOnce(files, [], first);
      assert [] + [first] == [first] + used;
    } else {
      var n := |used| - 1;
      OnlyOne(files, first, used[..n], i);
      RanOnce(files, [first] + used[..n], used[n]);
      assert [first] + used[..n] + [used[n]] == [first] + used;
      var mid, r := Ran(files, [first] + used[..n]), Ran(files, [first] + used);
      assert forall j | 0 <= j < |files| && j != i :: r[j] == mid[j] == mid[i := Absent][j] == files[i := Absent][j];
    }
  }

  /** The bytes an operation hands back: those a read finds. */
  function Answer(files: seq<File>, op: Op): seq<Byte> {
    if !op.Read? || op.inum >= |files| || files[op.inum].Absent? || files[op.inum].typ == T_DEV then []
    else if op.off > |files[op.inum].bytes| || op.off + op.n >= WORD then []
    else files[op.inum].bytes[op.off..op.off + Min(op.n, |files[op.inum].bytes| - op.off)]
  }

  function Answers(files: seq<File>, ops: seq<Op>): seq<seq<Byte>> {
    if ops == [] then []
    else Answers(files, ops[..|ops| - 1]) + [Answer(Ran(files, ops[..|ops| - 1]), ops[|ops| - 1])]
  }

  /** An inode made is the first absent one, with that type and those numbers, one link and no byte. */
  lemma CreateIs(files: seq<File>, typ: int, major: int, minor: int, c: nat)
    requires typ != 0 && 1 <= c < |files| && files[c].Absent? && forall k | 1 <= k < c :: files[k].File?
    ensures var files' := Stepped(files, Create(typ, major, minor));
            && |files'| == |files| && (forall i | 0 <= i < |files| && i != c :: files'[i] == files[i])
            && files'[c].File? && files'[c].typ == typ && files'[c].major == major && files'[c].minor == minor
            && files'[c].nlink == 1 && files'[c].bytes == []
  {
    FirstAbsentIs(files, 1, c);
  }

  /** What is written is read back, as far as the largest file goes; the file grows to hold it, and every byte
      outside, every other file, and what is no byte stay. Past the end of the file nothing is written. */
  lemma WriteThenRead(files: seq<File>, inum: nat, off: nat, src: seq<Byte>, lo: nat, n: nat)
    requires inum < |files| && files[inum].File? && files[inum].typ != T_DEV && |files[inum].bytes| <= MAXBYTES
    requires off + |src| < WORD
    ensures off > |files[inum].bytes| ==> Stepped(files, Write(inum, off, src)) == files
    ensures off <= |files[inum].bytes| ==>
              var files' := Stepped(files, Write(inum, off, src));
              var done := if off + |src| <= MAXBYTES then |src| else MAXBYTES - off;
              && Answer(files', Read(inum, off, done)) == src[..done]
              && |files'| == |files| && (forall i | 0 <= i < |files| && i != inum :: files'[i] == files[i])
              && files'[inum].File? && files'[inum] == files[inum].(bytes := files'[inum].bytes)
              && |files'[inum].bytes| == (if off + done > |files[inum].bytes| then off + done else |files[inum].bytes|)
              && (lo + n <= off || (off + done <= lo && lo + n <= |files[inum].bytes|) ==>
                    Answer(files', Read(inum, lo, n)) == Answer(files, Read(inum, lo, n)))
              && (lo <= |files'[inum].bytes| && lo + n < WORD ==>
                    |Answer(files', Read(inum, lo, n))| == if lo + n <= |files'[inum].bytes| then n
                                                           else |files'[inum].bytes| - lo)
  {
    hide FileSplice;
    if off <= |files[inum].bytes| {
      var bytes, done := files[inum].bytes, if off + |src| <= MAXBYTES then |src| else MAXBYTES - off;
      SpliceAt(bytes, off, src[..done], lo, n);
      var files' := Stepped(files, Write(inum, off, src));
      assert files' == files[inum := files[inum].(bytes := FileSplice(bytes, off, src[..done]))];
      if lo + n <= off || (off + done <= lo && lo + n <= |bytes|) {
        ReadSame(files, files', inum, lo, n);
      }
    }
  }

  lemma ReadSame(files: seq<File>, files': seq<File>, inum: nat, lo: nat, n: nat)
    requires inum < |files| == |files'| && files[inum].File? && files'[inum].File?
    requires files'[inum].typ == files[inum].typ
    requires lo + n <= |files[inum].bytes| && lo + n <= |files'[inum].bytes|
    requires files'[inum].bytes[lo..lo + n] == files[inum].bytes[lo..lo + n]
    ensures Answer(files', Read(inum, lo, n)) == Answer(files, Read(inum, lo, n))
  {
  }

  lemma SpliceAt(c: seq<Byte>, off: nat, data: seq<Byte>, lo: nat, n: nat)
    requires off <= |c|
    ensures var r := FileSplice(c, off, data);
            && |r| == (if off + |data| > |c| then off + |data| else |c|) && r[off..off + |data|] == data
            && (lo + n <= off || (off + |data| <= lo && lo + n <= |c|) ==> r[lo..lo + n] == c[lo..lo + n])
  {
    var r := FileSplice(c, off, data);
    assert r[off..off + |data|] == data;
    if lo + n <= off || (off + |data| <= lo && lo + n <= |c|) { assert r[lo..lo + n] == c[lo..lo + n]; }
  }

  /** The blocks a write takes are those that the longer file takes more. */
  lemma WriteFits(blocks: seq<Block>, inodes: seq<Dinode>, inum: nat, off: nat, src: seq<Byte>)
    requires inum < |inodes| && inodes[inum].typ != 0 && inodes[inum].size <= MAXBYTES && Packed(blocks, inodes[inum])
    ensures var d, files := inodes[inum], Files(blocks, inodes);
            Held(Stepped(files, Write(inum, off, src))) == Held(files)
              + if d.typ == T_DEV || off > d.size || off + |src| >= WORD then 0
                else Needs(blocks, d, off, Min(|src|, MAXBYTES - off))
  {
    hide Bytes, Held, Packed, Needs, Slot, BlocksFor;
    var d, files := inodes[inum], Files(blocks, inodes);
    FileAt(blocks, inodes, inum);
    if d.typ != T_DEV && off <= d.size && off + |src| < WORD {
      NeedsPacked(blocks, d, off, Min(|src|, MAXBYTES - off));
      OneChanged(files, inum, Stepped(files, Write(inum, off, src))[inum]);
    }
  }

  /** A read of an inode answers with a slice of its file, or with nothing. */
  lemma ReadAnswer(files: seq<File>, inum: nat, off: nat, n: nat, blocks: seq<Block>, d: Dinode)
    requires inum < |files| && files[inum] == FileOf(blocks, d) && d.typ != 0 && d.size <= MAXBYTES
    ensures Answer(files, Read(inum, off, n)) ==
            if d.typ == T_DEV || off > d.size || off + n >= WORD then []
            else Contents(blocks, d)[off..off + Min(n, d.size - off)]
  {
    hide Bytes;
  }

  /** Where the bit of block b + bi is, from the start of a bitmap sector on. */
  lemma BitOfBlock(blocks: seq<Block>, ninodes: nat, b: nat, bi: nat)
    requires b % 4096 == 0 && bi < 4096 && BBlock(b, ninodes) < |blocks|
    ensures BBlock(b + bi, ninodes) == BBlock(b, ninodes)
    ensures var data := blocks[BBlock(b, ninodes)];
            && Marked(blocks, ninodes, b + bi) == Bit(data[bi / 8], bi % 8)
            && Mark(blocks, ninodes, b + bi) ==
                 blocks[BBlock(b, ninodes) := data[bi / 8 := MarkByte(data[bi / 8], bi % 8)]]
  {
    assert (b + bi) / 4096 == b / 4096 && (b + bi) % 4096 == bi;
  }

  lemma SliceOfPrefix(s: seq<Byte>, size: nat, off: nat, n: nat)
    requires off + n <= size <= |s|
    ensures s[..size][off..off + n] == s[off..off + n]
  {
  }

  class Disks {
    /** sb.size and sb.ninodes are the lengths of these arrays. */
    const sectors: array<Block>
    const dinodes: array<Dinode>
    ghost var owner: map<nat, (nat, nat)>

    ghost predicate Geometry() {
      && sectors as object != dinodes as object
      && DataStart(sectors.Length, dinodes.Length) <= sectors.Length < WORD
    }

    /** The disk of a finished image. */
    constructor (sectors: array<Block>, dinodes: array<Dinode>, ghost owner: map<nat, (nat, nat)>)
      requires sectors as object != dinodes as object
      requires DataStart(sectors.Length, dinodes.Length) <= sectors.Length < WORD
      requires Image(sectors[..], dinodes[..], owner)
      ensures this.sectors == sectors && this.dinodes == dinodes && this.owner == owner && Geometry()
    {
      this.sectors, this.dinodes, this.owner := sectors, dinodes, owner;
    }

    /** The inode table as the kernel sees it: ip's in-memory copy over the copies on disk. */
    ghost function Table(ip: Inode): seq<Dinode>
      requires ip.inum < dinodes.Length
      reads dinodes, ip
    {
      dinodes[..][ip.inum := ip.D()]
    }

    /** balloc (kernel/fs.c:53-76). The scan covers whole bitmap sectors, so it can run past the
        last block of the disk; None is the "out of blocks" panic. */
    method Balloc() returns (r: Option<nat>)
      requires Geometry()
      modifies sectors
      ensures r.None? ==> sectors[..] == old(sectors[..])
      ensures r.Some? ==>
                && BBlock(r.value, dinodes.Length) < DataStart(sectors.Length, dinodes.Length)
                && !Marked(old(sectors[..]), dinodes.Length, r.value)
                && (forall c | 0 <= c < r.value :: Marked(old(sectors[..]), dinodes.Length, c))
                && sectors[..] == Mark(old(sectors[..]), dinodes.Length, r.value)
      ensures r.None? || r.value >= sectors.Length ==>
                forall c | 0 <= c < sectors.Length :: Marked(sectors[..], dinodes.Length, c)
      ensures (r.Some? && r.value < sectors.Length) <==>
              exists c | 0 <= c < sectors.Length :: !Marked(old(sectors[..]), dinodes.Length, c)
    {
      hide Marked, Mark, Bit, MarkByte;
      var b := 0;
      while b < sectors.Length
        invariant b % 4096 == 0 && (b == 0 || b - 4096 < sectors.Length)
        invariant sectors[..] == old(sectors[..])
        invariant forall c | 0 <= c < b ::
                    BBlock(c, dinodes.Length) < sectors.Length && Marked(sectors[..], dinodes.Length, c)
      {
        var data := sectors[BBlock(b, dinodes.Length)];
        var bi := 0;
        while bi < 4096
          invariant bi <= 4096
          invariant data == sectors[BBlock(b, dinodes.Length)]
          invariant sectors[..] == old(sectors[..])
          invariant forall c | 0 <= c < b + bi ::
                      BBlock(c, dinodes.Length) < sectors.Length && Marked(sectors[..], dinodes.Length, c)
        {
          BitOfBlock(sectors[..], dinodes.Length, b, bi);
          if !Bit(data[bi / 8], bi % 8) {
            sectors[BBlock(b, dinodes.Length)] := data[bi / 8 := MarkByte(data[bi / 8], bi % 8)];
            assert sectors[..] == Mark(old(sectors[..]), dinodes.Length, b + bi);
            MarkSetsBits(old(sectors[..]), dinodes.Length, b + bi, sectors.Length);
            return Some(b + bi);
          }
          bi := bi + 1;
        }
        b := b + 4096;
      }
      r := None;
    }

    /** The number of blocks that are not marked in use. */
    ghost function FreeBlocks(): nat
      requires Geometry()
      reads sectors
    {
      Free(sectors[..], dinodes.Length)
    }

    /** The number of data blocks. */
    ghost function Capacity(): nat {
      var start := DataStart(sectors.Length, dinodes.Length);
      if start <= sectors.Length then sectors.Length - start else 0
    }

    ghost predicate SoundWith(ip: Inode)
      reads this, sectors, dinodes, ip
    {
      && Geometry()
      && ip.inum < dinodes.Length
      && Sound(sectors[..], Table(ip), owner)
    }

    /** "if((addr = ip->addrs[p]) == 0) ip->addrs[p] = addr = balloc(ip->dev);" of bmap. */
    method Pointer(ip: Inode, p: nat) returns (r: Option<nat>)
      requires SoundWith(ip) && p <= 12
      modifies sectors, ip`addrs, `owner
      ensures r.None? <==> old(ip.addrs[p]) == 0 && old(FreeBlocks()) == 0
      ensures r.Some? ==>
                && SoundWith(ip) && DataStart(sectors.Length, dinodes.Length) <= r.value < sectors.Length
                && FreeBlocks() + (if old(ip.addrs[p]) == 0 then 1 else 0) == old(FreeBlocks())
                && ip.addrs == old(ip.addrs)[p := r.value]
                && (old(ip.addrs[p]) != 0 ==> r.value == old(ip.addrs[p]) && sectors[..] == old(sectors[..]))
                && Bytes(sectors[..], ip.D()) == Bytes(old(sectors[..]), old(ip.D()))
                && OthersKeep(old(sectors[..]), sectors[..], dinodes[..], ip.inum)
                && Grows(old(sectors[..]), old(ip.D()), sectors[..], ip.D())
                && Elsewhere(old(sectors[..]), old(ip.D()), sectors[..], ip.D(), p)
    {
      hide Sound, OthersKeep, Bytes, Free;
      ghost var blocks0, table0 := sectors[..], Table(ip);
      assert Slot(blocks0, table0[ip.inum], p) == ip.addrs[p];
      NoneFree(blocks0, dinodes.Length);
      if ip.addrs[p] != 0 {
        SlotInRange(blocks0, table0, owner, ip.inum, p);
        KeepAll(blocks0, dinodes[..], ip.inum);
        return Some(ip.addrs[p]);
      }
      r := Balloc();
      if r.None? || r.value >= sectors.Length { return None; }
      ghost var blocks', table' := AllocPointer(blocks0, table0, owner, ip.inum, p, r.value);
      FillsKeepsBytes(blocks0, table0, blocks', table', ip.inum, p, r.value);
      OthersKeepTable(blocks0, blocks', table0, dinodes[..], ip.inum);
      ip.addrs := ip.addrs[p := r.value];
      OneLess(blocks0, table0, owner, r.value, (ip.inum, p), blocks', table');
      owner := owner[r.value := (ip.inum, p)];
      assert Table(ip) == table';
    }

    /** The same for entry k of the indirect block, whose sector is rewritten when it changes. */
    method Entry(ip: Inode, k: nat) returns (r: Option<nat>)
      requires SoundWith(ip) && k < 128 && ip.addrs[12] != 0
      modifies sectors, `owner
      ensures r.None? <==> old(Slot(sectors[..], ip.D(), 13 + k)) == 0 && old(FreeBlocks()) == 0
      ensures r.Some? ==>
                && SoundWith(ip) && DataStart(sectors.Length, dinodes.Length) <= r.value < sectors.Length
                && FreeBlocks() + (if old(Slot(sectors[..], ip.D(), 13 + k)) == 0 then 1 else 0) == old(FreeBlocks())
                && Slot(sectors[..], ip.D(), 13 + k) == r.value
                && (Slot(old(sectors[..]), ip.D(), 13 + k) != 0 ==> sectors[..] == old(sectors[..]))
                && Bytes(sectors[..], ip.D()) == Bytes(old(sectors[..]), ip.D())
                && OthersKeep(old(sectors[..]), sectors[..], dinodes[..], ip.inum)
                && Grows(old(sectors[..]), old(ip.D()), sectors[..], ip.D())
                && Elsewhere(old(sectors[..]), old(ip.D()), sectors[..], ip.D(), 13 + k)
    {
      hide Sound, OthersKeep, Bytes, Free;
      ghost var blocks0, table0 := sectors[..], Table(ip);
      NoneFree(blocks0, dinodes.Length);
      SlotInRange(blocks0, table0, owner, ip.inum, 12);
      KeepAll(blocks0, dinodes[..], ip.inum);
      var addr := ip.addrs[12];
      assert Slot(blocks0, table0[ip.inum], 12) == addr;
      var a := sectors[addr];
      r := Some(Word(a, k));
      assert Slot(blocks0, table0[ip.inum], 13 + k) == r.value;
      if r.value != 0 { SlotInRange(blocks0, table0, owner, ip.inum, 13 + k); }
      if r.value == 0 {
        r := Balloc();
        if r.None? || r.value >= sectors.Length { return None; }
        ghost var blocks' := AllocEntry(blocks0, table0, owner, ip.inum, k, r.value);
        FillsKeepsBytes(blocks0, table0, blocks', table0, ip.inum, 13 + k, r.value);
        OthersKeepTable(blocks0, blocks', table0, dinodes[..], ip.inum);
        OneLess(blocks0, table0, owner, r.value, (ip.inum, 13 + k), blocks', table0);
        sectors[addr] := SetWord(a, k, r.value);
        owner := owner[r.value := (ip.inum, 13 + k)];
        assert sectors[..] == blocks';
      }
    }

    /** bmap (kernel/fs.c:319-347). None stands for a machine that stops: no block left, or bn out of range. */
    method Bmap(ip: Inode, bn: nat) returns (r: Option<nat>)
      requires SoundWith(ip)
      modifies sectors, ip`addrs, `owner
      ensures r.None? <==> bn >= MAXFILE || old(NeedsAt(sectors[..], ip.D(), bn)) > old(FreeBlocks())
      ensures r.Some? ==>
                && bn < MAXFILE && SoundWith(ip)
                && FreeBlocks() + old(NeedsAt(sectors[..], ip.D(), bn)) == old(FreeBlocks())
                && Slot(sectors[..], ip.D(), DataSlot(bn)) == r.value
                && (old(Slot(sectors[..], ip.D(), DataSlot(bn))) != 0 ==>
                      sectors[..] == old(sectors[..]) && ip.addrs == old(ip.addrs))
                && DataStart(sectors.Length, dinodes.Length) <= r.value < sectors.Length
                && Bytes(sectors[..], ip.D()) == Bytes(old(sectors[..]), old(ip.D()))
                && OthersKeep(old(sectors[..]), sectors[..], dinodes[..], ip.inum)
                && Grows(old(sectors[..]), old(ip.D()), sectors[..], ip.D())
                && Elsewhere(old(sectors[..]), old(ip.D()), sectors[..], ip.D(), DataSlot(bn))
      ensures r.Some? ==> var p := if bn < 12 then bn else 12;
                          && ip.addrs[p] != 0
                          && ip.addrs == old(ip.addrs)[p := ip.addrs[p]]
                          && (old(ip.addrs[p]) != 0 ==> ip.addrs[p] == old(ip.addrs[p]))
    {
      hide Sound, OthersKeep, Bytes, Free;
      if bn < 12 {
        r := Pointer(ip, bn);
      } else if bn - 12 < 128 {
        r := Pointer(ip, 12);
        if r.None? { return; }
        ghost var blocks1 := sectors[..];
        r := Entry(ip, bn - 12);
        if r.Some? { KeepTrans(old(sectors[..]), blocks1, sectors[..], dinodes[..], ip.inum); }
      } else {
        r := None;
      }
    }

    ghost predicate ImageWith(ip: Inode)
      reads this, sectors, dinodes, ip
    {
      && Geometry()
      && ip.inum < dinodes.Length
      && Image(sectors[..], Table(ip), owner)
    }

    /** iupdate (kernel/fs.c:170-187). */
    method Iupdate(ip: Inode)
      requires ip.inum < dinodes.Length
      modifies dinodes
      ensures dinodes[..] == old(dinodes[..])[ip.inum := ip.D()]
    {
      dinodes[ip.inum] := Dinode(ip.typ, ip.major, ip.minor, ip.nlink, ip.size, ip.addrs);
    }

    /** The image is consistent again once ip's own bytes are in order. */
    ghost method Settle(ip: Inode, blocks0: seq<Block>, owner0: map<nat, (nat, nat)>, table0: seq<Dinode>)
      requires ip.inum < dinodes.Length == |table0| && |blocks0| == sectors.Length
      requires Image(blocks0, table0, owner0) && SoundWith(ip) && Tidy(sectors[..], ip.D())
      requires forall j | 0 <= j < dinodes.Length && j != ip.inum :: table0[j] == dinodes[j]
      requires OthersKeep(blocks0, sectors[..], dinodes[..], ip.inum)
      ensures ImageWith(ip)
    {
      hide Sound, OthersKeep, Tidy, Bytes;
      OthersKeepTable(blocks0, sectors[..], dinodes[..], table0, ip.inum);
      OthersTidy(blocks0, sectors[..], table0, ip.inum, Table(ip));
    }

    /** One pass of the copy loop of writei: bread, memmove, bwrite, brelse. */
    method WriteSector(ip: Inode, off: nat, chunk: seq<Byte>) returns (ok: bool)
      requires SoundWith(ip) && off < MAXBYTES && off % 512 + |chunk| <= 512
      modifies sectors, ip`addrs, `owner
      ensures off / 512 < MAXFILE && (ok <==> old(NeedsAt(sectors[..], ip.D(), off / 512)) <= old(FreeBlocks()))
      ensures ok ==> SoundWith(ip) && FreeBlocks() + old(NeedsAt(sectors[..], ip.D(), off / 512)) == old(FreeBlocks())
      ensures ok ==>
                     WroteSector(old(sectors[..]), old(ip.D()), sectors[..], ip.D(), dinodes[..], ip.inum, off, chunk)
    {
      hide Sound, OthersKeep, Bytes, Slot, Tidy, Free, NeedsAt;
      var b := Bmap(ip, off / 512);
      if b.None? { return false; }
      ghost var before := sectors[..];
      ghost var after := WriteChunk(before, Table(ip), owner, ip.inum, off, chunk);
      SameFree(before, Table(ip), owner, after, Table(ip));
      OthersKeepTable(before, after, Table(ip), dinodes[..], ip.inum);
      sectors[b.value] := Splice(sectors[b.value], off % 512, chunk);
      assert sectors[..] == after;
      KeepTrans(old(sectors[..]), before, after, dinodes[..], ip.inum);
      ok := true;
    }

    /** One pass of the copy loop of readi: bread, memmove, brelse. */
    method ReadSector(ip: Inode, off: nat, m: nat) returns (ok: bool, chunk: seq<Byte>)
      requires SoundWith(ip) && off < MAXBYTES && 0 < m && off % 512 + m <= 512
      modifies sectors, ip`addrs, `owner
      ensures off / 512 < MAXFILE && (ok <==> old(NeedsAt(sectors[..], ip.D(), off / 512)) <= old(FreeBlocks()))
      ensures ok ==>
                && FreeBlocks() + old(NeedsAt(sectors[..], ip.D(), off / 512)) == old(FreeBlocks())
                && Slot(sectors[..], ip.D(), DataSlot(off / 512)) != 0
                && Elsewhere(old(sectors[..]), old(ip.D()), sectors[..], ip.D(), DataSlot(off / 512))
      ensures ok ==>
                && SoundWith(ip) && off + m <= MAXBYTES && chunk == Bytes(old(sectors[..]), old(ip.D()))[off..off + m]
                && Bytes(sectors[..], ip.D()) == Bytes(old(sectors[..]), old(ip.D()))
                && OthersKeep(old(sectors[..]), sectors[..], dinodes[..], ip.inum)
                && (off < old(ip.size) && Dense(old(sectors[..]), old(ip.D())) ==>
                     sectors[..] == old(sectors[..]) && ip.addrs == old(ip.addrs))
      ensures ok ==> var p := if off / 512 < 12 then off / 512 else 12;
                     ip.addrs[p] != 0 && ip.addrs == old(ip.addrs)[p := ip.addrs[p]]
                         && (old(ip.addrs[p]) != 0 ==> ip.addrs[p] == old(ip.addrs[p]))
    {
      hide Sound, OthersKeep, Bytes, Slot, Dense, Grows, Elsewhere, Free, NeedsAt;
      if off < ip.size { DenseSlot(sectors[..], ip.D(), off); }
      var b := Bmap(ip, off / 512);
      if b.None? { return false, []; }
      ReadChunk(sectors[..], ip.D(), off, m);
      return true, sectors[b.value][off % 512..off % 512 + m];
    }

    /** The copy loop of readi. */
    method ReadLoop(ip: Inode, off: nat, n: nat) returns (ok: bool, dst: seq<Byte>)
      requires SoundWith(ip) && off + n <= ip.size <= MAXBYTES
      modifies sectors, ip`addrs, `owner
      ensures ok <==> old(Needs(sectors[..], ip.D(), off, n)) <= old(FreeBlocks())
      ensures ok ==>
                && SoundWith(ip) && FreeBlocks() + old(Needs(sectors[..], ip.D(), off, n)) == old(FreeBlocks())
                && dst == old(Bytes(sectors[..], ip.D()))[off..off + n]
                && Bytes(sectors[..], ip.D()) == old(Bytes(sectors[..], ip.D()))
                && OthersKeep(old(sectors[..]), sectors[..], dinodes[..], ip.inum)
                && Filled(old(ip.addrs), ip.addrs, off, n)
                && (Dense(old(sectors[..]), old(ip.D())) ==>
                     sectors[..] == old(sectors[..]) && ip.addrs == old(ip.addrs))
    {
      hide Sound, OthersKeep, Bytes, Filled, Dense, Free, Needs, NeedsAt, Slot, Elsewhere;
      dst := [];
      ghost var needed := Needs(sectors[..], ip.D(), off, n);
      var tot, off := 0, off;
      ghost var off0, bytes := off, Bytes(sectors[..], ip.D());
      KeepAll(sectors[..], dinodes[..], ip.inum);
      NothingYet(sectors[..], ip.D(), off);
      while tot < n
        invariant tot <= n && off == off0 + tot
        invariant SoundWith(ip)
        invariant Bytes(sectors[..], ip.D()) == bytes && |bytes| == MAXBYTES
        invariant dst == bytes[off0..off]
        invariant tot == 0 || tot == n || off % 512 == 0
        invariant Filled(old(ip.addrs), ip.addrs, off0, tot)
        invariant FreeBlocks() + needed == old(FreeBlocks()) + Needs(sectors[..], ip.D(), off, n - tot)
        invariant Dense(old(sectors[..]), old(ip.D())) ==> sectors[..] == old(sectors[..]) && ip.addrs == old(ip.addrs)
        invariant OthersKeep(old(sectors[..]), sectors[..], dinodes[..], ip.inum)
      {
        ghost var before, addrs, d := sectors[..], ip.addrs, ip.D();
        var m := Min(n - tot, 512 - off % 512);
        var chunk;
        NeedsFirst(before, d, off, n - tot);
        ok, chunk := ReadSector(ip, off, m);
        if !ok { return; }
        NeedsInTurn(before, d, sectors[..], ip.D(), off, n - tot, m);
        KeepTrans(old(sectors[..]), before, sectors[..], dinodes[..], ip.inum);
        FilledMore(old(ip.addrs), addrs, ip.addrs, off0, tot, m);
        SliceMore(bytes, off0, off, off + m);
        dst := dst + chunk;
        if off % 512 + m == 512 { NextSector(off, m); }
        tot, off := tot + m, off + m;
      }
      NeedsNothing(sectors[..], ip.D(), off);
      ok := true;
    }

    /** readi (kernel/fs.c:393-418). */
    method Readi(ip: Inode, off: nat, n: nat) returns (r: Outcome, dst: seq<Byte>)
      requires ImageWith(ip) && ip.typ != 0
      requires off < WORD && n < WORD
      modifies sectors, ip`addrs, `owner
      ensures r.ToDevice? <==> ip.typ == T_DEV
      ensures r.Fail? <==> ip.typ != T_DEV && (off > ip.size || off + n >= WORD)
      ensures r.ToDevice? || r.Fail? ==> unchanged(sectors, ip, `owner)
      ensures r.Stopped? <==>
                && ip.typ != T_DEV && off <= ip.size && off + n < WORD && ip.size <= MAXBYTES
                && old(Needs(sectors[..], ip.D(), off, Min(n, ip.size - off))) > old(FreeBlocks())
      ensures r.Done? ==>
                && ImageWith(ip)
                && off <= ip.size && r.n == Min(n, ip.size - off) && ip.size <= MAXBYTES
                && FreeBlocks() + old(Needs(sectors[..], ip.D(), off, r.n)) == old(FreeBlocks())
                && dst == old(Contents(sectors[..], ip.D()))[off..off + r.n]
                && Contents(sectors[..], ip.D()) == old(Contents(sectors[..], ip.D()))
                && OthersKeep(old(sectors[..]), sectors[..], dinodes[..], ip.inum)
                && (ip.addrs == old(ip.addrs) <==> !MeetsHole(old(ip.D()), off, r.n))
                && (Dense(old(sectors[..]), old(ip.D())) ==>
                     sectors[..] == old(sectors[..]) && ip.addrs == old(ip.addrs))
    {
      hide Sound, OthersKeep, Bytes, Slot, Tidy, Free, Needs;
      if ip.typ == T_DEV { return ToDevice, []; }
      if off > ip.size || (off + n) % WORD < off { return Fail, []; }
      SizeBounded(sectors[..], Table(ip), owner, ip.inum);
      var n := if off + n > ip.size then ip.size - off else n;
      var ok;
      ok, dst := ReadLoop(ip, off, n);
      if !ok { return Stopped, dst; }
      TidySame(old(sectors[..]), old(ip.D()), sectors[..], ip.D());
      Settle(ip, old(sectors[..]), old(owner), old(Table(ip)));
      FilledIffHole(old(ip.D()), ip.addrs, off, n);
      SliceOfPrefix(old(Bytes(sectors[..], ip.D())), old(ip.size), off, n);
      r := Done(n);
    }

    /** The copy loop of writei. */
    method WriteLoop(ip: Inode, src: seq<Byte>, off: nat, n: nat) returns (ok: bool)
      requires SoundWith(ip) && off + n <= MAXBYTES && n <= |src|
      modifies sectors, ip`addrs, `owner
      ensures ok <==> old(Needs(sectors[..], ip.D(), off, n)) <= old(FreeBlocks())
      ensures ok ==> SoundWith(ip) && FreeBlocks() + old(Needs(sectors[..], ip.D(), off, n)) == old(FreeBlocks())
      ensures ok ==>
                     Wrote(old(sectors[..]), old(ip.D()), sectors[..], ip.D(), dinodes[..], ip.inum, off, src[..n])
    {
      hide Sound, Wrote, WroteSector, Slot, Free, Needs, NeedsAt;
      var tot, off := 0, off;
      ghost var off0, blocks0, d0, inodes := off, sectors[..], ip.D(), dinodes[..];
      WroteNone(blocks0, d0, inodes, ip.inum, off);
      assert src[..0] == [];
      while tot < n
        invariant tot <= n && off == off0 + tot
        invariant SoundWith(ip)
        invariant tot == 0 || tot == n || off % 512 == 0
        invariant Wrote(blocks0, d0, sectors[..], ip.D(), inodes, ip.inum, off0, src[..tot])
        invariant FreeBlocks() + Needs(blocks0, d0, off0, n) ==
                  old(FreeBlocks()) + Needs(sectors[..], ip.D(), off, n - tot)
      {
        ghost var blocks1, d1 := sectors[..], ip.D();
        var m := Min(n - tot, 512 - off % 512);
        NeedsFirst(blocks1, d1, off, n - tot);
        ok := WriteSector(ip, off, src[tot..tot + m]);
        if !ok { return; }
        SectorNeeds(blocks1, d1, sectors[..], ip.D(), inodes, ip.inum, off, src[tot..tot + m], n - tot);
        WroteMore(blocks0, d0, blocks1, d1, sectors[..], ip.D(), inodes, ip.inum, off0, src[..tot], src[tot..tot + m]);
        assert src[..tot] + src[tot..tot + m] == src[..tot + m];
        tot, off := tot + m, off + m;
      }
      NeedsNothing(sectors[..], ip.D(), off);
      ok := true;
    }

    /** writei (kernel/fs.c:420-451). */
    method Writei(ip: Inode, src: seq<Byte>, off: nat, n: nat) returns (r: Outcome)
      requires ImageWith(ip) && ip.typ != 0
      requires off < WORD && n < WORD && n <= |src|
      modifies sectors, dinodes, ip`addrs, ip`size, `owner
      ensures r.ToDevice? <==> ip.typ == T_DEV
      ensures r.Fail? <==> ip.typ != T_DEV && (off > old(ip.size) || off + n >= WORD)
      ensures r.ToDevice? || r.Fail? ==> unchanged(sectors, dinodes, ip, `owner)
      ensures r.Stopped? <==>
                && ip.typ != T_DEV && off <= old(ip.size) <= MAXBYTES && off + n < WORD
                && old(Needs(sectors[..], ip.D(), off, Min(n, MAXBYTES - off))) > old(FreeBlocks())
      ensures r.Done? ==>
                && ImageWith(ip) && off <= MAXBYTES
                && FreeBlocks() + old(Needs(sectors[..], ip.D(), off, Min(n, MAXBYTES - off))) == old(FreeBlocks())
                && off <= old(ip.size) <= MAXBYTES
                && r.n == Min(n, MAXBYTES - off)
                && ip.size == (if off + r.n > old(ip.size) then off + r.n else old(ip.size))
                && Contents(sectors[..], ip.D()) == FileSplice(old(Contents(sectors[..], ip.D())), off, src[..r.n])
                && OthersKeep(old(sectors[..]), sectors[..], dinodes[..], ip.inum)
      ensures r.Done? ==>
                && dinodes[..] == (if off + r.n > old(ip.size) then old(dinodes[..])[ip.inum := ip.D()]
                                   else old(dinodes[..]))
                && (ip.addrs == old(ip.addrs) <==> !MeetsHole(old(ip.D()), off, r.n))
                && (old(dinodes[ip.inum] == ip.D()) ==>
                      (dinodes[ip.inum] == ip.D() <==> off + r.n > old(ip.size) || !MeetsHole(old(ip.D()), off, r.n)))
                && (Dense(old(sectors[..]), old(ip.D())) ==> Dense(sectors[..], ip.D()))
                && (Snug(old(sectors[..]), old(ip.D())) ==> Snug(sectors[..], ip.D()))
    {
      hide Image, Sound, Wrote, OthersKeep, Contents, FileSplice, MeetsHole, Dense, Snug, Free, Needs;
      if ip.typ == T_DEV { return ToDevice; }
      if off > ip.size || (off + n) % WORD < off { return Fail; }
      ghost var blocks0, table0, inodes0, owner0 := sectors[..], Table(ip), dinodes[..], owner;
      SizeBounded(blocks0, table0, owner, ip.inum);
      var n := if off + n > MAXBYTES then MAXBYTES - off else n;
      ImageIsSound(blocks0, table0, owner);
      var ok := WriteLoop(ip, src, off, n);
      if !ok { return Stopped; }
      WroteTable(blocks0, table0[ip.inum], sectors[..], ip.D(), inodes0, table0, ip.inum, off, src[..n]);
      ghost var d1 := ip.D();
      assert Table(ip) == table0[ip.inum := d1];
      if n > 0 && off + n > ip.size {
        ip.size := off + n;
        Iupdate(ip);
      }
      WriteEnds(blocks0, table0, owner0, sectors[..], owner, ip.inum, d1, ip.D(), off, src[..n]);
      assert Table(ip) == table0[ip.inum := ip.D()];
      OthersKeepTable(blocks0, sectors[..], table0, dinodes[..], ip.inum);
      r := Done(n);
    }

    /** bfree (kernel/fs.c:78-97); false is the "freeing free block" panic. */
    method Bfree(b: nat) returns (ok: bool)
      requires Geometry() && b < sectors.Length
      modifies sectors
      ensures ok <==> Marked(old(sectors[..])[b := ZeroBlock()], dinodes.Length, b)
      ensures ok ==> sectors[..] == Unmark(old(sectors[..])[b := ZeroBlock()], dinodes.Length, b)
    {
      sectors[b] := ZeroBlock();
      assert sectors[..] == old(sectors[..])[b := ZeroBlock()];
      var data := sectors[BBlock(b, dinodes.Length)];
      var bi := b % 4096;
      if !Bit(data[bi / 8], bi % 8) { return false; }
      sectors[BBlock(b, dinodes.Length)] := data[bi / 8 := UnmarkByte(data[bi / 8], bi % 8)];
      ok := true;
    }

    /** "if(addr) bfree(addr)" for slot s of the inode being truncated. */
    method FreeSlot(addr: nat, ghost blocks0: seq<Block>, ghost table0: seq<Dinode>, ghost i: nat, ghost s: nat,
                    ghost done: set<nat>, ghost freed: set<nat>) returns (ok: bool, ghost freed': set<nat>)
      requires Geometry() && |table0| == dinodes.Length && i < |table0| && s < SLOTS && s !in done
      requires Sound(blocks0, table0, owner) && HeldBy(owner, i, done, freed)
      requires Freed(blocks0, |table0|, sectors[..], freed)
      requires addr == Slot(blocks0, table0[i], s)
      modifies sectors
      ensures ok && HeldBy(owner, i, done + {s}, freed') && Freed(blocks0, |table0|, sectors[..], freed')
    {
      hide HeldBy, Slot;
      HeldByOneMore(blocks0, table0, owner, i, done, freed, s);
      ok, freed' := true, freed;
      if addr != 0 {
        ghost var before := sectors[..];
        assert Marked(before, dinodes.Length, addr) == Marked(before[addr := ZeroBlock()], dinodes.Length, addr);
        hide Sound;
        FreedOneMore(blocks0, |table0|, before, freed, addr);
        ok := Bfree(addr);
        freed' := freed + {addr};
      }
    }

    /** itrunc (kernel/fs.c:349-380). It always succeeds: no block of the inode is free. */
    method Itrunc(ip: Inode) returns (ok: bool)
      requires ImageWith(ip)
      modifies sectors, dinodes, ip`addrs, ip`size, `owner
      ensures ok && ImageWith(ip)
      ensures ip.size == 0 && forall k | 0 <= k < 13 :: ip.addrs[k] == 0
      ensures forall b | 0 <= b < sectors.Length ::
                Marked(sectors[..], dinodes.Length, b) ==
                (Marked(old(sectors[..]), dinodes.Length, b) && !Refers(old(sectors[..]), old(ip.D()), b))
      ensures OthersKeep(old(sectors[..]), sectors[..], dinodes[..], ip.inum)
      ensures dinodes[..] == old(dinodes[..])[ip.inum := ip.D()]
    {
      hide Sound, Slot, Freed, HeldBy, OthersKeep, Tidy, Bytes, Marked, Refers;
      ghost var blocks0, table0, owner0 := sectors[..], Table(ip), owner;
      FreedNone(blocks0, table0, owner, ip.inum);
      ghost var done: set<nat>, freed: set<nat> := {}, {};
      ok := true;
      var i := 0;
      while i < 12
        modifies sectors, ip`addrs
        invariant i <= 12 && owner == owner0
        invariant ok && forall s :: s in done <==> 0 <= s < i
        invariant HeldBy(owner, ip.inum, done, freed) && Freed(blocks0, |table0|, sectors[..], freed)
        invariant forall k | 0 <= k < 13 :: ip.addrs[k] == if k < i then 0 else old(ip.addrs)[k]
      {
        SlotOfPointer(blocks0, table0[ip.inum], i);
        ok, freed := FreeSlot(ip.addrs[i], blocks0, table0, ip.inum, i, done, freed);
        done := done + {i};
        ip.addrs := ip.addrs[i := 0];
        i := i + 1;
      }
      if ip.addrs[12] != 0 {
        SlotOfPointer(blocks0, table0[ip.inum], 12);
        IndirectIntact(blocks0, table0, owner, ip.inum, done, sectors[..], freed);
        var a := sectors[ip.addrs[12]];
        var j := 0;
        while j < 128
          invariant j <= 128 && owner == owner0
          modifies sectors
          invariant ok && forall s :: s in done <==> 0 <= s < 13 + j && s != 12
          invariant HeldBy(owner, ip.inum, done, freed) && Freed(blocks0, |table0|, sectors[..], freed)
          invariant forall k | 0 <= k < 128 :: Word(a, k) == Slot(blocks0, table0[ip.inum], 13 + k)
        {
          ok, freed := FreeSlot(Word(a, j), blocks0, table0, ip.inum, 13 + j, done, freed);
          done := done + {13 + j};
          j := j + 1;
        }
        ok, freed := FreeSlot(ip.addrs[12], blocks0, table0, ip.inum, 12, done, freed);
        done := done + {12};
        ip.addrs := ip.addrs[12 := 0];
      } else {
        NoIndirect(blocks0, table0[ip.inum]);
      }
      ip.size := 0;
      owner := Truncated(blocks0, table0, owner, ip.inum, sectors[..], done, freed, ip.D());
      Iupdate(ip);
      OthersKeepTable(blocks0, sectors[..], table0, dinodes[..], ip.inum);
      assert Table(ip) == table0[ip.inum := ip.D()];
    }

    /** Between system calls: every cached inode equals its copy on disk, and each file has the blocks that its size
        asks for. */
    ghost predicate Ready()
      reads this, sectors, dinodes
    {
      && Geometry()
      && Image(sectors[..], dinodes[..], owner)
      && forall i | 0 <= i < dinodes.Length :: Packed(sectors[..], dinodes[i])
    }

    /** The free blocks are those the files leave. */
    lemma Room()
      requires Ready()
      ensures FreeBlocks() + Held(Contained()) == Capacity()
    {
      hide Packed, Held, Files, Free;
      FreeAndHeld(sectors[..], dinodes[..], owner);
    }

    /** The files as byte sequences. */
    ghost function Contained(): seq<File>
      reads sectors, dinodes
    {
      Files(sectors[..], dinodes[..])
    }

    /** ialloc (kernel/fs.c:145-168) followed by the initialisation in create (kernel/sysfile.c:233-240). */
    method Ialloc(typ: int, major: int, minor: int) returns (r: Option<nat>)
      requires Ready() && typ != 0
      modifies dinodes
      ensures r.None? <==> forall i | 1 <= i < dinodes.Length :: old(dinodes[i].typ) != 0
      ensures r.None? ==> unchanged(dinodes)
      ensures r.Some? ==>
                && Ready() && 1 <= r.value < dinodes.Length
                && old(dinodes[r.value].typ) == 0
                && (forall i | 1 <= i < r.value :: old(dinodes[i].typ) != 0)
                && Contained() == old(Contained())[r.value := File(typ, major, minor, 1, [])]
    {
      var inum := 1;
      while inum < dinodes.Length
        invariant 1 <= inum && unchanged(dinodes)
        invariant forall i | 1 <= i < inum :: i < dinodes.Length && dinodes[i].typ != 0
      {
        if dinodes[inum].typ == 0 {
          var d := Dinode(typ, major, minor, 1, 0, seq(13, _ => 0));
          FreshInode(sectors[..], dinodes[..], owner, inum, d);
          dinodes[inum] := d;
          OneFileChanged(sectors[..], old(dinodes[..]), sectors[..], dinodes[..], inum);
          return Some(inum);
        }
        inum := inum + 1;
      }
      r := None;
    }

    /** ilock of an inode not yet read (kernel/fs.c:235-265). A free inode is the "no type" panic. */
    method Ilock(inum: nat) returns (ok: bool, ip: Inode)
      requires Ready() && inum < dinodes.Length
      ensures ok <==> dinodes[inum].typ != 0
      ensures fresh(ip) && ip.inum == inum && ip.ref == 1 && ip.D() == dinodes[inum]
      ensures ImageWith(ip)
    {
      var d := dinodes[inum];
      ip := new Inode(inum, d);
      ok := ip.typ != 0;
      assert Table(ip) == dinodes[..];
    }

    /** iput (kernel/fs.c:280-300). */
    method Iput(ip: Inode) returns (ok: bool)
      requires Ready() && ImageWith(ip) && ip.D() == dinodes[ip.inum] && ip.ref >= 1 && ip.typ != 0
      modifies sectors, dinodes, ip, `owner
      ensures ok && Ready() && ip.ref == old(ip.ref) - 1
      ensures Contained() ==
              if old(ip.ref) == 1 && old(ip.nlink) == 0 then old(Contained())[ip.inum := Absent] else old(Contained())
      ensures old(ip.ref) == 1 && old(ip.nlink) == 0 ==>
                forall b | 0 <= b < sectors.Length ::
                  Marked(sectors[..], dinodes.Length, b) ==
                  (Marked(old(sectors[..]), dinodes.Length, b) && !Refers(old(sectors[..]), old(ip.D()), b))
    {
      hide Sound, Slot, OthersKeep, Tidy, Bytes, Marked, Refers;
      ok := true;
      if ip.ref == 1 && ip.nlink == 0 {
        ok := Itrunc(ip);
        ghost var table1 := dinodes[..];
        assert table1 == Table(ip);
        ip.typ := 0;
        Iupdate(ip);
        FreeInode(sectors[..], table1, owner, ip.inum, ip.D());
        OthersKeepTable(old(sectors[..]), sectors[..], table1, old(dinodes[..]), ip.inum);
        OneFileChanged(old(sectors[..]), old(dinodes[..]), sectors[..], dinodes[..], ip.inum);
      }
      ip.ref := ip.ref - 1;
    }

    /** After a write to a file without holes the disk copy of its inode is up to date. */
    ghost method Written(ip: Inode, blocks0: seq<Block>, inodes0: seq<Dinode>, off: nat, k: nat)
      requires ImageWith(ip) && |inodes0| == dinodes.Length
      requires Dense(blocks0, inodes0[ip.inum]) && off + k <= MAXBYTES
      requires forall j | 0 <= j < |inodes0| :: Packed(blocks0, inodes0[j])
      requires Packed(sectors[..], ip.D())
      requires dinodes[..] == if off + k > inodes0[ip.inum].size then inodes0[ip.inum := ip.D()] else inodes0
      requires dinodes[ip.inum] == ip.D() <==> off + k > inodes0[ip.inum].size || !MeetsHole(inodes0[ip.inum], off, k)
      requires OthersKeep(blocks0, sectors[..], dinodes[..], ip.inum)
      ensures Ready()
      ensures Contained() == Files(blocks0, inodes0)[ip.inum := FileOf(sectors[..], ip.D())]
    {
      hide Sound, Slot, OthersKeep, Tidy, Bytes, Marked, MeetsHole, Dense, Packed;
      if MeetsHole(inodes0[ip.inum], off, k) { DenseGrows(blocks0, inodes0[ip.inum], off, k); }
      assert Table(ip) == dinodes[..];
      OthersKeepTable(blocks0, sectors[..], dinodes[..], inodes0, ip.inum);
      OneFileChanged(blocks0, inodes0, sectors[..], dinodes[..], ip.inum);
    }

    method PerformCreate(typ: int, major: int, minor: int) returns (ok: bool)
      requires Ready()
      modifies dinodes
      ensures ok <==> !Stuck(old(Contained()), Create(typ, major, minor), Capacity())
      ensures ok ==> Ready() && Contained() == Stepped(old(Contained()), Create(typ, major, minor))
    {
      forall i | 0 <= i < dinodes.Length
        ensures dinodes[i].size <= MAXBYTES
      {
        SizeBounded(sectors[..], dinodes[..], owner, i);
      }
      Room();
      hide Sound, OthersKeep, Tidy, Bytes, Packed, Held, Free;
      if typ == 0 { return true; }
      var r := Ialloc(typ, major, minor);
      ok := r.Some?;
      if ok {
        FirstAbsentIs(old(Contained()), 1, r.value);
        Room();
      } else if dinodes.Length > 0 {
        FirstAbsentIs(old(Contained()), 1, dinodes.Length);
      }
    }

    /** n is what writei returns. */
    method PerformWrite(inum: nat, off: nat, src: seq<Byte>) returns (ok: bool, n: int)
      requires Ready() && inum < dinodes.Length && dinodes[inum].typ != 0 && off < WORD && |src| < WORD
      modifies sectors, dinodes, `owner
      ensures ok <==> !Stuck(old(Contained()), Write(inum, off, src), Capacity())
      ensures ok ==> Ready() && Contained() == Stepped(old(Contained()), Write(inum, off, src))
      ensures ok && old(dinodes[inum].typ) != T_DEV && off <= old(dinodes[inum].size) && off + |src| < WORD ==>
                n == Min(|src|, MAXBYTES - off)
    {
      hide Image, Sound, OthersKeep, Contents, Dense, Snug, MeetsHole, FileSplice, Stepped, Files, FileOf, Held,
          Free, Needs;
      Room();
      SizeBounded(sectors[..], dinodes[..], owner, inum);
      FileAt(sectors[..], dinodes[..], inum);
      WriteFits(sectors[..], dinodes[..], inum, off, src);
      var live, ip := Ilock(inum);
      var r := Writei(ip, src, off, |src|);
      ok, n := !r.Stopped?, if r.Done? then r.n else -1;
      if r.Done? {
        Written(ip, old(sectors[..]), old(dinodes[..]), off, r.n);
        WroteFile(old(Contained()), inum, off, src, old(sectors[..]), old(dinodes[inum]), sectors[..], ip.D(), r.n);
      } else if ok {
        WroteNothing(old(Contained()), inum, off, src, old(sectors[..]), old(dinodes[inum]));
      }
    }

    method PerformRead(inum: nat, off: nat, n: nat) returns (out: seq<Byte>)
      requires Ready() && inum < dinodes.Length && dinodes[inum].typ != 0 && off < WORD && n < WORD
      modifies sectors, dinodes, `owner
      ensures Ready() && Contained() == old(Contained()) && out == Answer(old(Contained()), Read(inum, off, n))
    {
      hide Image, Sound, OthersKeep, Tidy, Bytes, Contents, Dense, Snug, MeetsHole, Answer, Files, FileOf, Free, Needs;
      SizeBounded(sectors[..], dinodes[..], owner, inum);
      FileAt(sectors[..], dinodes[..], inum);
      ReadAnswer(Contained(), inum, off, n, sectors[..], dinodes[inum]);
      var live, ip := Ilock(inum);
      if off <= ip.size { NeedsDense(sectors[..], ip.D(), off, Min(n, ip.size - off)); }
      var r, dst := Readi(ip, off, n);
      out := if r.Done? then dst else [];
      assert Table(ip) == dinodes[..];
    }

    /** A new link count, stored with iupdate as sys_link and sys_unlink do (kernel/sysfile.c:123-131, 207-209). */
    method PerformLinks(inum: nat, n: int)
      requires Ready() && inum < dinodes.Length && dinodes[inum].typ != 0
      modifies dinodes
      ensures Ready() && Contained() == Stepped(old(Contained()), SetLinks(inum, n))
    {
      Relinked(sectors[..], dinodes[..], owner, inum, n);
      FileAt(sectors[..], dinodes[..], inum);
      hide Image, Packed, Files, FileOf;
      var live, ip := Ilock(inum);
      ip.nlink := n;
      Iupdate(ip);
    }

    /** The last reference to an inode dropped. */
    method PerformRemove(inum: nat)
      requires Ready() && inum < dinodes.Length && dinodes[inum].typ != 0
      modifies sectors, dinodes, `owner
      ensures Ready() && Contained() == Stepped(old(Contained()), Remove(inum))
    {
      hide Sound, OthersKeep, Tidy, Bytes, Packed;
      SizeBounded(sectors[..], dinodes[..], owner, inum);
      if dinodes[inum].nlink == 0 {
        var live, ip := Ilock(inum);
        var ok := Iput(ip);
      }
    }

    /** bread(dp->dev, bmap(dp, n)) for a block below the size. */
    method BlockOf(ip: Inode, n: nat) returns (data: Block)
      requires Ready() && ip.inum < dinodes.Length && ip.D() == dinodes[ip.inum] && ip.typ != 0 && n * 512 < ip.size
      modifies sectors, ip`addrs, `owner
      ensures Ready() && sectors[..] == old(sectors[..]) && ip.addrs == old(ip.addrs)
      ensures n < MAXFILE && data == Bytes(sectors[..], ip.D())[n * 512..n * 512 + 512]
    {
      hide Sound, OthersKeep, Bytes, Slot, Dense, Snug, Free, NeedsAt;
      assert Table(ip) == dinodes[..];
      SizeBounded(sectors[..], dinodes[..], owner, ip.inum);
      DenseSlot(sectors[..], ip.D(), n * 512);
      NeedsNow(sectors[..], ip.D(), n);
      var b := Bmap(ip, n);
      ReadChunk(sectors[..], ip.D(), n * 512, 512);
      assert Table(ip) == dinodes[..];
      data := sectors[b.value];
      assert data[..512] == data;
    }

    /** One operation of a process on files, between two quiet states. Operations on inodes that are not in use do not
        occur; false is a machine that stopped. */
    method Perform(op: Op) returns (ok: bool, out: seq<Byte>)
      requires Ready()
      modifies sectors, dinodes, `owner
      ensures ok <==> !Stuck(old(Contained()), op, Capacity())
      ensures ok ==> Ready() && Contained() == Stepped(old(Contained()), op) && out == Answer(old(Contained()), op)
    {
      hide Sound, OthersKeep, Tidy, Bytes, Packed, Held, Free;
      ok, out := true, [];
      Room();
      if op.Create? {
        ok := PerformCreate(op.typ, op.major, op.minor);
      } else if op.inum < dinodes.Length && dinodes[op.inum].typ != 0 {
        SizeBounded(sectors[..], dinodes[..], owner, op.inum);
        match op
        case Write(inum, off, src) =>
          if off < WORD && |src| < WORD {
            var n;
            ok, n := PerformWrite(inum, off, src);
          }
        case Read(inum, off, n) =>
          if off < WORD && n < WORD {
            out := PerformRead(inum, off, n);
          }
        case SetLinks(inum, nlink) =>
          PerformLinks(inum, nlink);
          Room();
        case Remove(inum) =>
          PerformRemove(inum);
          Room();
      }
    }

    /** Any run of operations: the disk stays consistent, the files are those of the run on byte sequences, and every
        read gives the bytes that run gives. Whether it stops, and where, is settled by the byte sequences too: at the
        first operation that needs an inode or a block more than there are. */
    method Run(ops: seq<Op>) returns (ok: bool, done: nat, out: seq<seq<Byte>>)
      requires Ready()
      modifies sectors, dinodes, `owner
      ensures ok <==> !Halts(old(Contained()), ops, Capacity())
      ensures done <= |ops| && !Halts(old(Contained()), ops[..done], Capacity())
      ensures !ok ==> done < |ops| && Stuck(Ran(old(Contained()), ops[..done]), ops[done], Capacity())
      ensures ok ==> Ready() && Contained() == Ran(old(Contained()), ops)
      ensures out == Answers(old(Contained()), ops[..done]) && (ok ==> done == |ops|)
    {
      hide Image, Packed, Files, Stepped, Answer, Stuck;
      ok, done, out := true, 0, [];
      while done < |ops|
        invariant done <= |ops| && Ready() && !Halts(old(Contained()), ops[..done], Capacity())
        invariant Contained() == Ran(old(Contained()), ops[..done]) && out == Answers(old(Contained()), ops[..done])
      {
        assert ops[..done + 1][..done] == ops[..done];
        var bytes;
        ok, bytes := Perform(ops[done]);
        if !ok {
          HaltsForGood(old(Contained()), ops, done + 1, Capacity());
          return;
        }
        out := out + [bytes];
        done := done + 1;
      }
      assert ops[..done] == ops;
    }
  }
}

/** Directories as files: the 16-byte records of struct dirent, and why the byte-level directory code
    of kernel/fs.c works on entries. */
module Dirents {
  import opened Common
  import opened Disk
  import Images
  import NameTree

  /** A name that strncpy and strncmp over DIRSIZ bytes treat as a string. */
  predicate GoodName(name: string) {
    |name| <= 14 && forall i | 0 <= i < |name| :: 0 < name[i] as int < 256
  }

  predicate Good(e: NameTree.Dirent) {
    e.inum < 0x1_0000 && GoodName(e.name)
  }

  /** strncpy(de.name, name, DIRSIZ): padded with zeros. */
  function NameField(name: string): (r: seq<Byte>)
    requires GoodName(name)
    ensures |r| == 14
  {
    seq(14, i requires 0 <= i < 14 => if i < |name| then name[i] as int else 0)
  }

  function Record(e: NameTree.Dirent): (r: seq<Byte>)
    requires Good(e)
    ensures |r| == 16
  {
    [e.inum % 0x100, e.inum / 0x100] + NameField(e.name)
  }

  /** The record's bytes: the inode number, the low byte first, and then the name, filled up with zeros. */
  lemma RecordBytes(e: NameTree.Dirent)
    requires Good(e)
    ensures var lo: int, hi: int := Record(e)[0], Record(e)[1]; lo + 0x100 * hi == e.inum
    ensures forall i | 0 <= i < 14 :: Record(e)[2 + i] == if i < |e.name| then e.name[i] as int else 0
  {
    assert Record(e)[2..] == NameField(e.name);
    assert forall i | 0 <= i < 14 :: Record(e)[2 + i] == Record(e)[2..][i];
  }

  /** The string in a name field: up to the first zero or the end of the field. */
  function NameAt(b: seq<Byte>, i: nat): string
    requires i <= |b|
    decreases |b| - i
  {
    if i == |b| || b[i] == 0 then "" else [b[i] as char] + NameAt(b, i + 1)
  }

  function Parse(b: seq<Byte>): NameTree.Dirent
    requires |b| == 16
  {
    var lo: int, hi: int := b[0], b[1];
    NameTree.Dirent(lo + 0x100 * hi, NameAt(b[2..], 0))
  }

  /** The entries of a directory file. */
  function Entries(bytes: seq<Byte>): (r: seq<NameTree.Dirent>)
    ensures |r| == |bytes| / 16
  {
    if |bytes| < 16 then [] else [Parse(bytes[..16])] + Entries(bytes[16..])
  }

  /** A file as the directory layer sees it. */
  function NodeOf(file: Images.File): NameTree.Node {
    if file.Absent? then NameTree.Node(0, 0, [])
    else NameTree.Node(file.typ, file.nlink, if file.typ == T_DIR then Entries(file.bytes) else [])
  }

  function Nodes(files: seq<Images.File>): (r: seq<NameTree.Node>)
    ensures |r| == |files| && forall i | 0 <= i < |files| :: r[i] == NodeOf(files[i])
  {
    seq(|files|, i requires 0 <= i < |files| => NodeOf(files[i]))
  }

  lemma {:induction false} NameOfField(name: string, i: nat)
    requires GoodName(name) && i <= |name|
    ensures NameAt(NameField(name), i) == name[i..]
    decreases |name| - i
  {
    if i < |name| { NameOfField(name, i + 1); }
  }

  /** What dirlink writes is what dirlookup and readi find. */
  lemma ParseOfRecord(e: NameTree.Dirent)
    requires Good(e)
    ensures Parse(Record(e)) == e
  {
    NameOfField(e.name, 0);
    assert Record(e)[2..] == NameField(e.name);
  }

  lemma {:induction false} EntryAt(bytes: seq<Byte>, k: nat)
    requires 16 * k + 16 <= |bytes|
    ensures Entries(bytes)[k] == Parse(bytes[16 * k..16 * k + 16])
  {
    if k > 0 {
      EntryAt(bytes[16..], k - 1);
      assert bytes[16..][16 * (k - 1)..16 * (k - 1) + 16] == bytes[16 * k..16 * k + 16];
    }
  }

  /** Writing a record at 16 * k, as dirlink and unlink do, replaces or adds entry k and no other. */
  lemma WriteEntry(bytes: seq<Byte>, k: nat, e: NameTree.Dirent)
    requires |bytes| % 16 == 0 && 16 * k <= |bytes| && Good(e)
    ensures Entries(Images.FileSplice(bytes, 16 * k, Record(e))) == NameTree.PutAt(Entries(bytes), k, e)
  {
    hide Record, Parse, Entries, Images.FileSplice, NameTree.PutAt;
    var after := Images.FileSplice(bytes, 16 * k, Record(e));
    SpliceSize(bytes, 16 * k, Record(e));
    forall l | 0 <= l < |after| / 16
      ensures Entries(after)[l] == if l == k then e else Entries(bytes)[l]
    {
      WriteEntryAt(bytes, k, e, l);
    }
  }

  lemma SpliceSize(bytes: seq<Byte>, off: nat, data: seq<Byte>)
    requires off <= |bytes|
    ensures |Images.FileSplice(bytes, off, data)| == if off + |data| < |bytes| then |bytes| else off + |data|
  {
  }

  lemma SpliceOutside(bytes: seq<Byte>, off: nat, data: seq<Byte>, lo: nat, hi: nat)
    requires off <= |bytes| && lo <= hi <= |bytes| && (hi <= off || off + |data| <= lo)
    ensures hi <= |Images.FileSplice(bytes, off, data)|
    ensures Images.FileSplice(bytes, off, data)[lo..hi] == bytes[lo..hi]
  {
  }

  lemma SpliceInside(bytes: seq<Byte>, off: nat, data: seq<Byte>)
    requires off <= |bytes|
    ensures off + |data| <= |Images.FileSplice(bytes, off, data)|
    ensures Images.FileSplice(bytes, off, data)[off..off + |data|] == data
  {
  }

  lemma WriteEntryAt(bytes: seq<Byte>, k: nat, e: NameTree.Dirent, l: nat)
    requires |bytes| % 16 == 0 && 16 * k <= |bytes| && Good(e)
    requires l < |bytes| / 16 || l == k
    ensures l < |Entries(Images.FileSplice(bytes, 16 * k, Record(e)))|
    ensures Entries(Images.FileSplice(bytes, 16 * k, Record(e)))[l] == if l == k then e else Entries(bytes)[l]
  {
    hide Record, Parse, Entries, Images.FileSplice;
    var after := Images.FileSplice(bytes, 16 * k, Record(e));
    SpliceSize(bytes, 16 * k, Record(e));
    EntryAt(after, l);
    if l == k {
      SpliceInside(bytes, 16 * k, Record(e));
      ParseOfRecord(e);
    } else {
      EntryAt(bytes, l);
      SpliceOutside(bytes, 16 * k, Record(e), 16 * l, 16 * l + 16);
    }
  }

  /** The cleared record of unlink is a free entry with an empty name. */
  lemma ClearedRecord()
    ensures Record(NameTree.Dirent(0, "")) == seq(16, _ => 0)
  {
  }

  lemma {:induction false} EntriesOfZeros(bytes: seq<Byte>, n: nat)
    requires n <= |bytes| && n % 16 == 0 && forall o | n <= o < |bytes| :: bytes[o] == 0
    ensures Entries(bytes[..n]) <= Entries(bytes)
    ensures forall l | n / 16 <= l < |Entries(bytes)| :: Entries(bytes)[l].inum == 0
  {
    forall l | 0 <= l < |Entries(bytes)|
      ensures l < n / 16 ==> Entries(bytes)[l] == Entries(bytes[..n])[l]
      ensures l >= n / 16 ==> Entries(bytes)[l].inum == 0
    {
      EntryAt(bytes, l);
      if l < n / 16 {
        EntryAt(bytes[..n], l);
        assert bytes[..n][16 * l..16 * l + 16] == bytes[16 * l..16 * l + 16];
      }
    }
  }

  lemma {:induction false} LookupPastEnd(ents: seq<NameTree.Dirent>, more: seq<NameTree.Dirent>, name: string, k: nat)
    requires k <= |ents| && ents <= more && forall l | |ents| <= l < |more| :: more[l].inum == 0
    ensures NameTree.Lookup(more, name, k) ==
            if NameTree.Lookup(ents, name, k) < |ents| then NameTree.Lookup(ents, name, k) else |more|
    decreases |more| - k
  {
    if k < |ents| {
      LookupPastEnd(ents, more, name, k + 1);
    } else {
      NoneLeft(more, name, k);
    }
  }

  lemma {:induction false} NoneLeft(ents: seq<NameTree.Dirent>, name: string, k: nat)
    requires k <= |ents| && forall l | k <= l < |ents| :: ents[l].inum == 0
    ensures NameTree.Lookup(ents, name, k) == |ents|
    decreases |ents| - k
  {
    if k < |ents| { NoneLeft(ents, name, k + 1); }
  }

  /** dirlookup scans whole blocks, past the size of the directory, and still finds just what the
      entries below the size hold, because the bytes past the size are zero. */
  lemma ScanOfBlocks(blocks: seq<Block>, d: Dinode, name: string, n: nat)
    requires Images.Tidy(blocks, d) && d.size % 16 == 0 && d.size <= n <= MAXBYTES
    ensures var ents := Entries(Contents(blocks, d));
            var seen := Entries(Bytes(blocks, d)[..n]);
            NameTree.Lookup(seen, name, 0) == if NameTree.Lookup(ents, name, 0) < |ents|
                                              then NameTree.Lookup(ents, name, 0) else |seen|
  {
    var bytes := Bytes(blocks, d)[..n];
    forall o | d.size <= o < n
      ensures bytes[o] == 0
    {
      assert bytes[o] == ByteAt(blocks, d, o);
    }
    assert bytes[..d.size] == Contents(blocks, d);
    EntriesOfZeros(bytes, d.size);
    LookupPastEnd(Entries(Contents(blocks, d)), Entries(bytes), name, 0);
  }
}

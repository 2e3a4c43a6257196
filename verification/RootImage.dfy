/** The image tools/mkfs.c makes of a host directory of plain files, and the directory tree it holds. */
module RootImage {
  import opened Common
  import opened Disk
  import opened Images
  import opened Space
  import Dirents
  import FileSystem
  import Mkfs
  import NameTree
  import Syscalls

  const DIRSIZ: nat := 14

  /** A plain file of the host directory, with the pieces read() returns. */
  datatype HostFile = HostFile(name: string, pieces: seq<seq<Byte>>)

  /** What the host names its files. */
  predicate HostName(name: string) {
    && name != "" && name != "." && name != ".."
    && forall i | 0 <= i < |name| :: 0 < name[i] as int < 256
  }

  predicate HostNames(files: seq<HostFile>) {
    forall k | 0 <= k < |files| :: HostName(files[k].name)
  }

  /** strncpy(de.name, entry->d_name, DIRSIZ). */
  function Cut(name: string): string {
    if |name| <= DIRSIZ then name else name[..DIRSIZ]
  }

  lemma CutGood(name: string)
    requires HostName(name)
    ensures Cut(name) <= name && |Cut(name)| == if |name| < 14 then |name| else 14
    ensures Dirents.GoodName(Cut(name)) && Cut(name) != "." && Cut(name) != ".."
  {
    if |name| > DIRSIZ { assert |Cut(name)| == DIRSIZ; }
  }

  function Flat(pieces: seq<seq<Byte>>): seq<Byte> {
    if pieces == [] then [] else Flat(pieces[..|pieces| - 1]) + pieces[|pieces| - 1]
  }

  lemma {:induction false} FlatLonger(pieces: seq<seq<Byte>>, m: nat)
    requires m <= |pieces|
    ensures |Flat(pieces[..m])| <= |Flat(pieces)|
  {
    if m < |pieces| {
      FlatLonger(pieces[..|pieces| - 1], m);
      assert pieces[..|pieces| - 1][..m] == pieces[..m];
    } else {
      assert pieces[..m] == pieces;
    }
  }

  // ---------- what the root holds ----------

  /** The entries of the root: the dots, and the files in the order of the host directory. */
  function RootEnts(files: seq<HostFile>): (r: seq<NameTree.Dirent>)
    ensures |r| == |files| + 2 && r[0] == NameTree.Dirent(ROOT, ".") && r[1] == NameTree.Dirent(ROOT, "..")
    ensures forall k | 0 <= k < |files| :: r[k + 2] == NameTree.Dirent(k + 2, Cut(files[k].name))
  {
    [NameTree.Dirent(ROOT, "."), NameTree.Dirent(ROOT, "..")]
    + seq(|files|, k requires 0 <= k < |files| => NameTree.Dirent(k + 2, Cut(files[k].name)))
  }

  lemma EntsGood(files: seq<HostFile>, k: nat)
    requires HostNames(files) && |files| + 2 <= NameTree.MAXENTS && k < |files| + 2
    ensures Dirents.Good(RootEnts(files)[k])
  {
    if k >= 2 {
      CutGood(files[k - 2].name);
      assert RootEnts(files)[k - 2 + 2] == NameTree.Dirent(k - 2 + 2, Cut(files[k - 2].name));
    }
  }

  function Records(ents: seq<NameTree.Dirent>): (r: seq<Byte>)
    requires forall k | 0 <= k < |ents| :: Dirents.Good(ents[k])
    ensures |r| == 16 * |ents|
  {
    if ents == [] then [] else Records(ents[..|ents| - 1]) + Dirents.Record(ents[|ents| - 1])
  }

  /** A record added at the end of a directory file is an entry added at the end. */
  lemma EntriesAppend(bytes: seq<Byte>, e: NameTree.Dirent)
    requires |bytes| % 16 == 0 && Dirents.Good(e)
    ensures Dirents.Entries(bytes + Dirents.Record(e)) == Dirents.Entries(bytes) + [e]
  {
    hide Dirents.Entries, Dirents.Record, Dirents.Good, FileSplice;
    var k := |bytes| / 16;
    assert 16 * k == |bytes|;
    Dirents.WriteEntry(bytes, k, e);
    SpliceAtEnd(bytes, Dirents.Record(e));
  }

  lemma SpliceAtEnd(bytes: seq<Byte>, more: seq<Byte>)
    ensures FileSplice(bytes, |bytes|, more) == bytes + more
  {
    assert bytes[..|bytes|] == bytes;
  }

  lemma {:induction false} EntriesOfRecords(ents: seq<NameTree.Dirent>)
    requires forall k | 0 <= k < |ents| :: Dirents.Good(ents[k])
    ensures Dirents.Entries(Records(ents)) == ents
  {
    if ents != [] {
      var n := |ents| - 1;
      EntriesOfRecords(ents[..n]);
      EntriesAppend(Records(ents[..n]), ents[n]);
    }
  }

  /** The bytes of the root before it is padded. */
  function RootBytes(files: seq<HostFile>): (r: seq<Byte>)
    requires HostNames(files) && |files| + 2 <= NameTree.MAXENTS
    ensures |r| == 16 * (|files| + 2)
  {
    assert forall k | 0 <= k < |files| + 2 :: Dirents.Good(RootEnts(files)[k]) by {
      forall k | 0 <= k < |files| + 2
        ensures Dirents.Good(RootEnts(files)[k])
      {
        EntsGood(files, k);
      }
    }
    Records(RootEnts(files))
  }

  lemma RootBytesMore(files: seq<HostFile>, n: nat)
    requires HostNames(files) && n < |files| && n + 3 <= NameTree.MAXENTS
    ensures Dirents.Good(NameTree.Dirent(n + 2, Cut(files[n].name)))
    ensures RootBytes(files[..n + 1]) == RootBytes(files[..n])
              + Dirents.Record(NameTree.Dirent(n + 2, Cut(files[n].name)))
  {
    CutGood(files[n].name);
    assert RootEnts(files[..n + 1])[..n + 2] == RootEnts(files[..n]);
  }

  /** The files of the image of some of the host's, with that root. */
  function ImageFiles(files: seq<HostFile>, ninodes: nat, root: seq<Byte>): (r: seq<File>)
    ensures |r| == ninodes
  {
    seq(ninodes, i requires 0 <= i < ninodes =>
      if i == ROOT then File(T_DIR, 0, 0, 1, root)
      else if 2 <= i < |files| + 2 then File(T_FILE, 0, 0, 1, Flat(files[i - 2].pieces))
      else Absent)
  }

  /** The whole image: a root that is padded if the host directory could be opened. */
  function Final(dir: Option<seq<HostFile>>, ninodes: nat): seq<File>
    requires dir.Some? ==> HostNames(dir.value) && |dir.value| + 2 <= NameTree.MAXENTS
  {
    if dir.None? then ImageFiles([], ninodes, RootBytes([]))
    else ImageFiles(dir.value, ninodes, Mkfs.PaddedBytes(RootBytes(dir.value)))
  }

  // ---------- the tree in the image ----------

  predicate CutNamesDiffer(files: seq<HostFile>) {
    forall k, l | 0 <= k < l < |files| :: Cut(files[k].name) != Cut(files[l].name)
  }

  lemma {:induction false} CountRoot(files: seq<HostFile>, i: nat)
    requires i != 0
    ensures NameTree.Count(RootEnts(files), i) == if i < |files| + 2 then 1 else 0
  {
    var ents := RootEnts(files);
    if |files| > 0 {
      CountRoot(files[..|files| - 1], i);
      assert ents[..|files| + 1] == RootEnts(files[..|files| - 1]);
      assert ents[|files| - 1 + 2].inum == |files| + 1;
    } else {
      assert NameTree.Count(ents[..1], i) == 0;
    }
  }

  lemma {:induction false} CountPastEnd(ents: seq<NameTree.Dirent>, more: seq<NameTree.Dirent>, i: nat)
    requires ents <= more && i != 0 && |ents| >= 1 && forall l | |ents| <= l < |more| :: more[l].inum == 0
    ensures NameTree.Count(more, i) == NameTree.Count(ents, i)
    decreases |more|
  {
    if |more| > |ents| {
      CountPastEnd(ents, more[..|more| - 1], i);
    } else {
      assert more == ents;
    }
  }

  /** ents are the entries of the root, perhaps with free ones behind. */
  ghost predicate EntsOf(files: seq<HostFile>, ents: seq<NameTree.Dirent>) {
    && HostNames(files) && |ents| >= |files| + 2
    && ents[0] == NameTree.Dirent(ROOT, ".") && ents[1] == NameTree.Dirent(ROOT, "..")
    && (forall k | 0 <= k < |files| :: ents[k + 2] == NameTree.Dirent(k + 2, Cut(files[k].name)))
    && forall l | |files| + 2 <= l < |ents| :: ents[l].inum == 0
  }

  lemma EntsOfPrefix(files: seq<HostFile>, ents: seq<NameTree.Dirent>)
    requires HostNames(files) && RootEnts(files) <= ents && forall l | |files| + 2 <= l < |ents| :: ents[l].inum == 0
    ensures EntsOf(files, ents)
  {
    hide RootEnts, HostNames, Cut;
    forall k | 0 <= k < |files|
      ensures ents[k + 2] == NameTree.Dirent(k + 2, Cut(files[k].name))
    {
      assert ents[k + 2] == RootEnts(files)[k + 2];
    }
  }

  /** The entries of the finished root are those of the files and then free ones. */
  lemma FinalEnts(files: seq<HostFile>, bytes: seq<Byte>)
    requires HostNames(files) && |files| + 2 <= NameTree.MAXENTS
    requires bytes == RootBytes(files) || bytes == Mkfs.PaddedBytes(RootBytes(files))
    ensures EntsOf(files, Dirents.Entries(bytes))
  {
    hide HostName, Dirents.Entries, Dirents.Good, RootEnts, Records, EntsOf;
    var n := |files| + 2;
    forall k | 0 <= k < n
      ensures Dirents.Good(RootEnts(files)[k])
    {
      EntsGood(files, k);
    }
    EntriesOfRecords(RootEnts(files));
    assert bytes[..16 * n] == RootBytes(files);
    Dirents.EntriesOfZeros(bytes, 16 * n);
    EntsOfPrefix(files, Dirents.Entries(bytes));
  }

  lemma FinalNodes(files: seq<HostFile>, ninodes: nat, bytes: seq<Byte>)
    requires 2 <= ninodes
    ensures var nodes := Dirents.Nodes(ImageFiles(files, ninodes, bytes));
            && nodes[ROOT] == NameTree.Node(T_DIR, 1, Dirents.Entries(bytes))
            && forall i | 0 <= i < ninodes && i != ROOT ::
                 nodes[i] == if 2 <= i < |files| + 2 then NameTree.Node(T_FILE, 1, []) else NameTree.Node(0, 0, [])
  {
    hide Dirents.Entries;
  }

  /** The image of a host directory is a tree with right link counts exactly if the names still differ once
      they are cut to 14 characters. */
  lemma ImageIsTree(dir: Option<seq<HostFile>>, ninodes: nat)
    requires dir.Some? ==> HostNames(dir.value) && |dir.value| + 2 <= NameTree.MAXENTS
    requires 2 <= ninodes && (dir.Some? ==> |dir.value| + 2 <= ninodes)
    ensures var nodes := Dirents.Nodes(Final(dir, ninodes));
            && NameTree.RootOnly(nodes)
            && ((exists place :: NameTree.Inv(nodes, place)) <==> dir.None? || CutNamesDiffer(dir.value))
            && (NameTree.NamesDiffer(nodes[ROOT].ents) <==> dir.None? || CutNamesDiffer(dir.value))
  {
    hide Dirents.Entries, Dirents.Nodes, Dirents.NodeOf, RootEnts, RootBytes, ImageFiles, Mkfs.PaddedBytes;
    hide NameTree.RootOnly, NameTree.Inv, NameTree.NamesDiffer, CutNamesDiffer, EntsOf;
    var files := if dir.None? then [] else dir.value;
    var bytes := if dir.None? then RootBytes([]) else Mkfs.PaddedBytes(RootBytes(files));
    FinalEnts(files, bytes);
    FinalNodes(files, ninodes, bytes);
    ImageRootOnly(files, Dirents.Entries(bytes), Dirents.Nodes(Final(dir, ninodes)));
    NameTree.RootOnlyIsTree(Dirents.Nodes(Final(dir, ninodes)));
    DifferAsCut(files, Dirents.Entries(bytes));
    NoneDiffer(files);
  }

  /** What a path from the root of the image leads to: a host file's name, cut to 14 characters, to a plain file of one
      link with all the file's bytes; the dots to the root; and any other name nowhere. */
  lemma ImageHolds(files: seq<HostFile>, ninodes: nat, name: string)
    requires HostNames(files) && CutNamesDiffer(files) && |files| + 2 <= ninodes && |files| + 2 <= NameTree.MAXENTS
    ensures var image := Final(Some(files), ninodes);
            var found := NameTree.Namei(Dirents.Nodes(image), ROOT, [name]);
            && |image| == ninodes && image[ROOT].File? && image[ROOT].typ == T_DIR && image[ROOT].nlink == 1
            && (name == "." || name == ".." ==> found == Some(ROOT))
            && (forall k | 0 <= k < |files| && name == (if |files[k].name| <= 14 then files[k].name
                                                        else files[k].name[..14]) ::
                  found == Some(k + 2) && image[k + 2] == File(T_FILE, 0, 0, 1, Flat(files[k].pieces)))
            && (found.Some? && name != "." && name != ".." ==>
                  2 <= found.value < |files| + 2 && name <= files[found.value - 2].name)
  {
    hide Dirents.Entries, Dirents.Nodes, Dirents.NodeOf, RootBytes, ImageFiles, Mkfs.PaddedBytes, EntsOf,
        CutNamesDiffer, RootEnts, HostName;
    var bytes := Mkfs.PaddedBytes(RootBytes(files));
    var ents, image := Dirents.Entries(bytes), Final(Some(files), ninodes);
    FinalEnts(files, bytes);
    FinalNodes(files, ninodes, bytes);
    DifferAsCut(files, ents);
    FinalFiles(files, ninodes, bytes);
    FirstTwo(files, ents);
    var nodes := Dirents.Nodes(image);
    var l := NameTree.Lookup(ents, name, 0);
    assert NameTree.Namei(nodes, ROOT, [name]) == if l == |ents| then None else Some(ents[l].inum);
    forall k | 0 <= k < |files| && name == Cut(files[k].name)
      ensures l == k + 2
    {
      NamedOnce(ents, name, k + 2);
    }
    if l < |ents| && l >= 2 {
      EntAt(files, ents, l);
      CutGood(files[l - 2].name);
    }
    if name == "." { NamedOnce(ents, name, 0); }
    if name == ".." { NamedOnce(ents, name, 1); }
  }

  lemma FirstTwo(files: seq<HostFile>, ents: seq<NameTree.Dirent>)
    requires EntsOf(files, ents)
    ensures |ents| >= |files| + 2
    ensures ents[0] == NameTree.Dirent(ROOT, ".") && ents[1] == NameTree.Dirent(ROOT, "..")
    ensures forall k | 0 <= k < |files| :: ents[k + 2] == NameTree.Dirent(k + 2, Cut(files[k].name))
  {
  }

  /** A name that only one entry has is found there. */
  lemma NamedOnce(ents: seq<NameTree.Dirent>, name: string, k: nat)
    requires NameTree.NamesDiffer(ents) && k < |ents| && ents[k].inum != 0 && ents[k].name == name
    ensures NameTree.Lookup(ents, name, 0) == k
  {
  }

  lemma FinalFiles(files: seq<HostFile>, ninodes: nat, bytes: seq<Byte>)
    requires |files| + 2 <= ninodes
    ensures var image := ImageFiles(files, ninodes, bytes);
            && image[ROOT] == File(T_DIR, 0, 0, 1, bytes)
            && forall k | 0 <= k < |files| :: image[k + 2] == File(T_FILE, 0, 0, 1, Flat(files[k].pieces))
  {
  }

  /** The pieces read from a host file follow one another. */
  lemma {:induction false} PieceIn(pieces: seq<seq<Byte>>, j: nat)
    requires j < |pieces|
    ensures Flat(pieces[..j]) + pieces[j] <= Flat(pieces)
    decreases |pieces|
  {
    var n := |pieces| - 1;
    if j < n {
      PieceIn(pieces[..n], j);
      assert pieces[..n][..j] == pieces[..j];
    }
  }

  lemma NoneDiffer(files: seq<HostFile>)
    ensures files == [] ==> CutNamesDiffer(files)
  {
  }

  lemma EntAt(files: seq<HostFile>, ents: seq<NameTree.Dirent>, k: nat)
    requires EntsOf(files, ents) && 2 <= k < |ents| && ents[k].inum != 0
    ensures k < |files| + 2 && ents[k] == NameTree.Dirent(k, Cut(files[k - 2].name))
    ensures ents[k].name != "." && ents[k].name != ".."
  {
    assert k < |files| + 2;
    assert ents[k - 2 + 2] == NameTree.Dirent(k - 2 + 2, Cut(files[k - 2].name));
    CutGood(files[k - 2].name);
  }

  lemma RootEntsFirst(files: seq<HostFile>, ents: seq<NameTree.Dirent>)
    requires EntsOf(files, ents)
    ensures RootEnts(files) <= ents
  {
    hide RootEnts, HostNames, Cut;
    forall k | 0 <= k < |files| + 2
      ensures RootEnts(files)[k] == ents[k]
    {
      if k >= 2 {
        var j := k - 2;
        assert ents[j + 2] == NameTree.Dirent(j + 2, Cut(files[j].name));
        assert RootEnts(files)[j + 2] == NameTree.Dirent(j + 2, Cut(files[j].name));
      }
    }
  }

  lemma CountEnts(files: seq<HostFile>, ents: seq<NameTree.Dirent>, i: nat)
    requires EntsOf(files, ents) && i != 0
    ensures NameTree.Count(ents, i) == if i < |files| + 2 then 1 else 0
  {
    hide NameTree.Count;
    RootEntsFirst(files, ents);
    CountRoot(files, i);
    CountPastEnd(RootEnts(files), ents, i);
  }

  lemma ImageRootOnly(files: seq<HostFile>, ents: seq<NameTree.Dirent>, nodes: seq<NameTree.Node>)
    requires EntsOf(files, ents) && |nodes| >= |files| + 2 && nodes[ROOT] == NameTree.Node(T_DIR, 1, ents)
    requires forall i | 0 <= i < |nodes| && i != ROOT ::
               nodes[i] == if 2 <= i < |files| + 2 then NameTree.Node(T_FILE, 1, []) else NameTree.Node(0, 0, [])
    ensures NameTree.RootOnly(nodes)
  {
    assert |ents| >= 2 && ents[0] == NameTree.Dirent(ROOT, ".") && ents[1] == NameTree.Dirent(ROOT, "..");
    hide EntsOf, HostNames;
    forall k | 2 <= k < |ents| && ents[k].inum != 0
      ensures ents[k].inum == k < |files| + 2 && ents[k].name != "." && ents[k].name != ".."
    {
      EntAt(files, ents, k);
    }
    forall i | 1 <= i < |nodes| && nodes[i].typ != 0
      ensures nodes[i].nlink == NameTree.Count(ents, i)
    {
      CountEnts(files, ents, i);
    }
  }

  lemma DifferAsCut(files: seq<HostFile>, ents: seq<NameTree.Dirent>)
    requires EntsOf(files, ents)
    ensures NameTree.NamesDiffer(ents) <==> CutNamesDiffer(files)
  {
    hide HostNames, Cut;
    if NameTree.NamesDiffer(ents) {
      forall k, l | 0 <= k < l < |files|
        ensures Cut(files[k].name) != Cut(files[l].name)
      {
        assert ents[k + 2] == NameTree.Dirent(k + 2, Cut(files[k].name));
        assert ents[l + 2] == NameTree.Dirent(l + 2, Cut(files[l].name));
      }
    }
    if CutNamesDiffer(files) { CutDiffer(files, ents); }
  }

  lemma CutDiffer(files: seq<HostFile>, ents: seq<NameTree.Dirent>)
    requires EntsOf(files, ents) && CutNamesDiffer(files)
    ensures NameTree.NamesDiffer(ents)
  {
    assert ents[0].name == "." && ents[1].name == "..";
    hide EntsOf, HostNames;
    forall k, l | 0 <= k < l < |ents| && ents[k].inum != 0 && ents[l].inum != 0
      ensures ents[k].name != ents[l].name
    {
      if l >= 2 { EntAt(files, ents, l); }
      if k >= 2 { EntAt(files, ents, k); }
    }
  }

  // ---------- building it ----------

  /** The blocks that hold the files' bytes. */
  function BlocksOf(files: seq<HostFile>): nat {
    if files == [] then 0
    else BlocksOf(files[..|files| - 1]) + BlocksFor(|Flat(files[|files| - 1].pieces)|)
  }

  lemma {:induction false} BlocksOfMore(files: seq<HostFile>, n: nat)
    requires n <= |files|
    ensures BlocksOf(files[..n]) <= BlocksOf(files)
  {
    if n < |files| {
      assert files[..|files| - 1][..n] == files[..n];
      BlocksOfMore(files[..|files| - 1], n);
    } else {
      assert files[..n] == files;
    }
  }

  /** The blocks in use once the root and the files are in the image. */
  function BlocksUsed(files: seq<HostFile>, ninodes: nat, size: nat): nat {
    DataStart(size, ninodes) + BlocksOf(files) + BlocksFor(16 * (|files| + 2))
  }

  lemma UsedMore(files: seq<HostFile>, n: nat, ninodes: nat, size: nat)
    requires n < |files|
    ensures BlocksUsed(files[..n + 1], ninodes, size) <= BlocksUsed(files, ninodes, size)
    ensures BlocksUsed(files[..n + 1], ninodes, size) ==
            DataStart(size, ninodes) + BlocksOf(files[..n]) + BlocksFor(|Flat(files[n].pieces)|)
              + BlocksFor(16 * (n + 2) + 16)
    ensures BlocksFor(16 * (n + 2)) <= BlocksFor(16 * (n + 2) + 16)
  {
    hide BlocksFor;
    BlocksOfMore(files, n + 1);
    assert files[..n + 1][..n] == files[..n];
    assert 16 * (n + 1 + 2) == 16 * (n + 2) + 16;
    BlocksMore(16 * (n + 1 + 2), 16 * (|files| + 2));
    BlocksMore(16 * (n + 2), 16 * (n + 2) + 16);
  }

  /** The image has an inode for each file, room in it, and all the blocks they take. */
  predicate Fits(files: seq<HostFile>, ninodes: nat, size: nat) {
    && |files| + 2 <= ninodes
    && (forall k | 0 <= k < |files| :: |Flat(files[k].pieces)| <= MAXBYTES)
    && BlocksUsed(files, ninodes, size) <= size
  }

  /** ialloc and the read loop for one plain file (tools/mkfs.c:173-180). */
  method CopyFile(b: Mkfs.Builder, pieces: seq<seq<Byte>>) returns (ok: bool, inum: nat)
    requires b.Building() && b.sectors as object != b.dinodes as object
    modifies b, b.sectors, b.dinodes
    ensures ok <==> old(b.freeinode) < b.dinodes.Length && |Flat(pieces)| <= MAXBYTES
                    && old(b.freeblock) + BlocksFor(|Flat(pieces)|) <= b.sectors.Length
    ensures ok ==>
              && b.Building() && inum == old(b.freeinode) < b.dinodes.Length && b.freeinode == inum + 1
              && b.holed == old(b.holed) && b.freeblock == old(b.freeblock) + BlocksFor(|Flat(pieces)|)
              && (forall i :: i in b.Tall() && i != inum <==> i in old(b.Tall()) && i != inum)
              && b.Contained() == old(b.Contained())[inum := File(T_FILE, 0, 0, 1, Flat(pieces))]
  {
    hide Files, Mkfs.NeedsTail, BlocksFor, Mkfs.Built;
    BuilderFits(b);
    ok, inum := b.Ialloc(T_FILE);
    if !ok { return; }
    var m := 0;
    assert pieces[..0] == [] && BlocksFor(0) == 0 by { NothingHeld(); }
    while m < |pieces|
      invariant m <= |pieces| && b.Building() && b.freeinode == inum + 1 && b.holed == old(b.holed)
      invariant b.Contained() == old(b.Contained())[inum := File(T_FILE, 0, 0, 1, Flat(pieces[..m]))]
      invariant b.freeblock == old(b.freeblock) + BlocksFor(|Flat(pieces[..m])|) <= b.sectors.Length
      invariant inum in b.Tall() <==> |Flat(pieces[..m])| > NDIRECT * 512
      invariant forall i :: i in b.Tall() && i != inum <==> i in old(b.Tall()) && i != inum
    {
      assert pieces[..m + 1][..m] == pieces[..m];
      FlatLonger(pieces, m + 1);
      BlocksMore(|Flat(pieces[..m + 1])|, |Flat(pieces)|);
      Mkfs.TailGrows(|Flat(pieces[..m])|, |pieces[m]|);
      Mkfs.BuiltFile(b.sectors[..], b.dinodes[..], b.owner, b.freeblock, b.holed, inum);
      ok := b.Iappend(inum, pieces[m]);
      if !ok { return; }
      m := m + 1;
    }
    Mkfs.BuiltFile(b.sectors[..], b.dinodes[..], b.owner, b.freeblock, b.holed, inum);
    assert pieces[..m] == pieces;
  }

  lemma NothingHeld()
    ensures BlocksFor(0) == 0
  {
  }

  lemma BuilderFits(b: Mkfs.Builder)
    requires b.Building()
    ensures b.freeblock <= b.sectors.Length && b.freeinode !in b.Tall()
  {
    if b.freeinode < b.dinodes.Length {
      Mkfs.BuiltFile(b.sectors[..], b.dinodes[..], b.owner, b.freeblock, b.holed, b.freeinode);
    }
  }

  /** The image so far: the root names the files, and the next inode is free. */
  ghost predicate Holds(b: Mkfs.Builder, files: seq<HostFile>)
    reads b, b.sectors, b.dinodes
  {
    && HostNames(files) && |files| + 2 <= NameTree.MAXENTS
    && b.Building() && b.sectors as object != b.dinodes as object
    && b.freeinode == |files| + 2 <= b.dinodes.Length && b.holed == {}
    && b.Contained() == ImageFiles(files, b.dinodes.Length, RootBytes(files))
    && b.freeblock == BlocksUsed(files, b.dinodes.Length, b.sectors.Length) <= b.sectors.Length
    && (ROOT in b.Tall() <==> 16 * (|files| + 2) > NDIRECT * 512)
  }

  /** The same and its entry in the root (tools/mkfs.c:173-184). */
  method AddFile(b: Mkfs.Builder, files: seq<HostFile>, n: nat) returns (ok: bool)
    requires HostNames(files) && n < |files| && n + 2 <= NameTree.MAXENTS && b.dinodes.Length < NameTree.MAXENTS
    requires Holds(b, files[..n])
    modifies b, b.sectors, b.dinodes
    ensures ok <==> && n + 3 <= b.dinodes.Length && |Flat(files[n].pieces)| <= MAXBYTES
                    && BlocksUsed(files[..n + 1], b.dinodes.Length, b.sectors.Length) <= b.sectors.Length
    ensures ok ==> n + 3 <= NameTree.MAXENTS && Holds(b, files[..n + 1])
  {
    hide Files, RootBytes, ImageFiles, Flat, BlocksFor, BlocksUsed, Mkfs.NeedsTail, BlocksOf, Mkfs.Built, Mkfs.Neat,
        Contents, Dirents.Record, Cut;
    CountMore(files, n, b.dinodes.Length, b.sectors.Length);
    Mkfs.TailGrows(16 * (n + 2), 16);
    if n + 3 <= b.dinodes.Length { FileAdded(files, n, b.dinodes.Length); }
    var child;
    ok, child := CopyFile(b, files[n].pieces);
    if !ok { return; }
    Mkfs.BuiltFile(b.sectors[..], b.dinodes[..], b.owner, b.freeblock, b.holed, ROOT);
    RootBytesMore(files, n);
    ok := b.Iappend(ROOT, Dirents.Record(NameTree.Dirent(child, Cut(files[n].name))));
  }

  /** The blocks before and after a file. */
  lemma CountMore(files: seq<HostFile>, n: nat, ninodes: nat, size: nat)
    requires n < |files|
    ensures |files[..n]| == n && |files[..n + 1]| == n + 1
    ensures BlocksUsed(files[..n + 1], ninodes, size) + BlocksFor(16 * (n + 2)) ==
            BlocksUsed(files[..n], ninodes, size) + BlocksFor(|Flat(files[n].pieces)|) + BlocksFor(16 * (n + 2) + 16)
    ensures BlocksFor(16 * (n + 2)) <= BlocksFor(16 * (n + 2) + 16)
  {
    hide BlocksFor;
    UsedMore(files, n, ninodes, size);
  }

  lemma FileAdded(files: seq<HostFile>, n: nat, ninodes: nat)
    requires HostNames(files) && n < |files| && n + 3 <= NameTree.MAXENTS && n + 3 <= ninodes
    ensures Dirents.Good(NameTree.Dirent(n + 2, Cut(files[n].name)))
    ensures var copied := ImageFiles(files[..n], ninodes, RootBytes(files[..n]))
                          [n + 2 := File(T_FILE, 0, 0, 1, Flat(files[n].pieces))];
            var rec := Dirents.Record(NameTree.Dirent(n + 2, Cut(files[n].name)));
            && copied[ROOT] == File(T_DIR, 0, 0, 1, RootBytes(files[..n]))
            && copied[ROOT := copied[ROOT].(bytes := copied[ROOT].bytes + rec)] ==
               ImageFiles(files[..n + 1], ninodes, RootBytes(files[..n + 1]))
  {
    hide RootBytes, Flat, Dirents.Record;
    RootBytesMore(files, n);
  }

  /** The loop of add_dir. */
  method AddFiles(b: Mkfs.Builder, files: seq<HostFile>) returns (ok: bool)
    requires HostNames(files) && Holds(b, []) && b.dinodes.Length < NameTree.MAXENTS
    modifies b, b.sectors, b.dinodes
    ensures ok <==> Fits(files, b.dinodes.Length, b.sectors.Length)
    ensures ok ==> |files| + 2 <= NameTree.MAXENTS && Holds(b, files)
  {
    hide Files, RootBytes, BlocksFor, BlocksOf, BlocksUsed, Mkfs.Built;
    ok := true;
    var n := 0;
    assert files[..0] == [];
    while n < |files|
      invariant n <= |files| && n + 2 <= NameTree.MAXENTS && Holds(b, files[..n])
      invariant forall k | 0 <= k < n :: |Flat(files[k].pieces)| <= MAXBYTES
    {
      UsedMore(files, n, b.dinodes.Length, b.sectors.Length);
      ok := AddFile(b, files, n);
      if !ok { return; }
      n := n + 1;
    }
    assert files[..n] == files;
  }

  /** The root and its entries "." and ".." (tools/mkfs.c:224, 111-119). */
  method Dots(b: Mkfs.Builder) returns (ok: bool)
    requires b.Building() && b.sectors as object != b.dinodes as object && 2 <= b.dinodes.Length
    requires b.freeinode == 1 && b.holed == {} && b.Contained() == seq(b.dinodes.Length, _ => Absent)
    requires b.freeblock == DataStart(b.sectors.Length, b.dinodes.Length)
    modifies b, b.sectors, b.dinodes
    ensures ok <==> BlocksUsed([], b.dinodes.Length, b.sectors.Length) <= b.sectors.Length
    ensures ok ==> Holds(b, [])
  {
    hide Files, RootBytes, ImageFiles, Mkfs.Built, Mkfs.Neat, Mkfs.NeedsTail, BlocksFor, Contents, Dirents.Record;
    BuilderFits(b);
    DotsBlocks();
    DotsAdded(b.dinodes.Length);
    var root;
    ok, root := b.Ialloc(T_DIR);
    Mkfs.BuiltFile(b.sectors[..], b.dinodes[..], b.owner, b.freeblock, b.holed, ROOT);
    ok := b.Iappend(ROOT, Dirents.Record(NameTree.Dirent(ROOT, ".")));
    if !ok { return; }
    Mkfs.BuiltFile(b.sectors[..], b.dinodes[..], b.owner, b.freeblock, b.holed, ROOT);
    BuilderFits(b);
    ok := b.Iappend(ROOT, Dirents.Record(NameTree.Dirent(ROOT, "..")));
  }

  lemma DotsAdded(ninodes: nat)
    requires 2 <= ninodes
    ensures var root := seq(ninodes, _ => Absent)[ROOT := File(T_DIR, 0, 0, 1, [])];
            var dot := root[ROOT := root[ROOT].(bytes :=
                         root[ROOT].bytes + Dirents.Record(NameTree.Dirent(ROOT, ".")))];
            dot[ROOT := dot[ROOT].(bytes := dot[ROOT].bytes + Dirents.Record(NameTree.Dirent(ROOT, "..")))] ==
            ImageFiles([], ninodes, RootBytes([]))
  {
    hide RootBytes, Dirents.Record;
    DotsBytes();
    assert [] + Dirents.Record(NameTree.Dirent(ROOT, ".")) == Dirents.Record(NameTree.Dirent(ROOT, "."));
  }

  /** add_dir for the root (tools/mkfs.c:97-195); without a directory it ends after the dots. */
  method AddRoot(b: Mkfs.Builder, dir: Option<seq<HostFile>>) returns (ok: bool)
    requires b.Building() && b.sectors as object != b.dinodes as object && 2 <= b.dinodes.Length < NameTree.MAXENTS
    requires dir.Some? ==> HostNames(dir.value)
    requires b.freeinode == 1 && b.holed == {} && b.Contained() == seq(b.dinodes.Length, _ => Absent)
    requires b.freeblock == DataStart(b.sectors.Length, b.dinodes.Length)
    modifies b, b.sectors, b.dinodes
    ensures ok <==> Fits(if dir.None? then [] else dir.value, b.dinodes.Length, b.sectors.Length)
    ensures ok ==>
              && b.Building() && (dir.Some? ==> |dir.value| + 2 <= b.dinodes.Length)
              && b.freeblock ==
                 BlocksUsed(if dir.None? then [] else dir.value, b.dinodes.Length, b.sectors.Length)
              && b.Contained() == Final(dir, b.dinodes.Length)
              && b.holed == if dir.Some? && (|dir.value| + 2) % 32 == 0 then {ROOT} else {}
  {
    hide Files, RootBytes, ImageFiles, Mkfs.PaddedBytes, BlocksFor, BlocksOf;
    if dir.Some? { EmptyLess(dir.value); }
    ok := Dots(b);
    if !ok || dir.None? { return; }
    ok := AddFiles(b, dir.value);
    if !ok { return; }
    PadRoot(b, dir.value);
  }

  lemma EmptyLess(files: seq<HostFile>)
    ensures BlocksOf([]) + BlocksFor(16 * (0 + 2)) <= BlocksOf(files) + BlocksFor(16 * (|files| + 2))
  {
    hide BlocksFor;
    BlocksMore(16 * (0 + 2), 16 * (|files| + 2));
  }

  /** The padding of the root (tools/mkfs.c:188-193). */
  method PadRoot(b: Mkfs.Builder, files: seq<HostFile>)
    requires HostNames(files) && |files| + 2 < NameTree.MAXENTS && Holds(b, files)
    modifies b, b.sectors, b.dinodes
    ensures b.Building() && b.Contained() == Final(Some(files), b.dinodes.Length) && b.freeblock == old(b.freeblock)
    ensures b.holed == if (|files| + 2) % 32 == 0 then {ROOT} else {}
  {
    hide Files, RootBytes, ImageFiles, Mkfs.PaddedBytes, Mkfs.Built;
    Mkfs.BuiltFile(b.sectors[..], b.dinodes[..], b.owner, b.freeblock, b.holed, ROOT);
    OtherRoot(files, b.dinodes.Length, RootBytes(files), Mkfs.PaddedBytes(RootBytes(files)));
    WholeBlocks(|files| + 2);
    b.Pad(ROOT);
  }

  lemma OtherRoot(files: seq<HostFile>, ninodes: nat, root: seq<Byte>, root': seq<Byte>)
    requires ROOT < ninodes
    ensures ImageFiles(files, ninodes, root)[ROOT] == File(T_DIR, 0, 0, 1, root)
    ensures ImageFiles(files, ninodes, root)[ROOT := File(T_DIR, 0, 0, 1, root')] == ImageFiles(files, ninodes, root')
  {
  }

  lemma WholeBlocks(n: nat)
    ensures 16 * n % 512 == 0 <==> n % 32 == 0
  {
    var q, r := n / 32, n % 32;
    assert 16 * n == 512 * q + 16 * r;
  }

  lemma DotsBlocks()
    ensures BlocksFor(16) == BlocksFor(16 * (0 + 2)) == 1 && Mkfs.NeedsTail(0, false, 16) == 1
    ensures Mkfs.NeedsTail(16, false, 16) == 0
  {
  }

  lemma DotsBytes()
    ensures RootBytes([]) == Dirents.Record(NameTree.Dirent(ROOT, ".")) + Dirents.Record(NameTree.Dirent(ROOT, ".."))
  {
    var ents := RootEnts([]);
    assert ents[..1] == [ents[0]];
    assert ents[..1][..0] == [];
  }

  /** mkfs from start to end (tools/mkfs.c:199-237): there is an image exactly if the files fit and the blocks in use
      have their bits in one sector. The disk holds the root and the files, and is ready for the kernel exactly if the
      size of the root was not a whole number of blocks before padding. */
  method MakeImage(nblocks: nat, ninodes: nat, size: nat, dir: Option<seq<HostFile>>)
      returns (disks: Option<FileSystem.Disks>)
    requires nblocks + DataStart(size, ninodes) == size < WORD && 2 <= ninodes < NameTree.MAXENTS
    requires dir.Some? ==> HostNames(dir.value)
    ensures var files := if dir.None? then [] else dir.value;
            disks.Some? <==> Fits(files, ninodes, size) && BlocksUsed(files, ninodes, size) < 4096
    ensures disks.Some? ==>
              && fresh(disks.value) && fresh(disks.value.sectors) && fresh(disks.value.dinodes)
              && disks.value.sectors.Length == size && disks.value.dinodes.Length == ninodes
              && (dir.Some? ==> |dir.value| + 2 <= ninodes)
              && disks.value.Contained() == Final(dir, ninodes)
              && (disks.value.Ready() <==> dir.None? || (|dir.value| + 2) % 32 != 0)
  {
    hide Files, Image, Packed, Mkfs.Built, Final, Fits, BlocksUsed;
    var b := new Mkfs.Builder(nblocks, ninodes, size);
    assert b.Contained() == seq(ninodes, _ => Absent);
    var ok := AddRoot(b, dir);
    if !ok { return None; }
    ok := b.Balloc(b.usedblocks);
    if !ok { return None; }
    var disk := new FileSystem.Disks(b.sectors, b.dinodes, b.owner);
    disks := Some(disk);
  }

  lemma FinalWhole(dir: Option<seq<HostFile>>, ninodes: nat)
    requires dir.Some? ==> HostNames(dir.value) && |dir.value| + 2 <= NameTree.MAXENTS
    ensures Syscalls.DirsWhole(Final(dir, ninodes))
  {
    hide RootBytes, Flat;
    var files := if dir.None? then [] else dir.value;
    var bytes := if dir.None? then RootBytes([]) else Mkfs.PaddedBytes(RootBytes(files));
    assert |bytes| % 16 == 0 by {
      PaddedWhole(16 * (|files| + 2));
    }
    assert Final(dir, ninodes) == ImageFiles(files, ninodes, bytes);
  }

  lemma PaddedWhole(size: nat)
    ensures Mkfs.Padded(size) % 16 == 0
  {
    var n := 32 * (size / 512 + 1);
    assert Mkfs.Padded(size) == 16 * n;
    Sixteens(n);
  }

  lemma Sixteens(n: nat)
    ensures 16 * n % 16 == 0
  {
  }

  /** A system that starts on a fresh image is settled, so that every run is one on names and bytes, exactly if the root
      was not a whole number of blocks before padding and the names differ once cut. */
  method Boot(nblocks: nat, ninodes: nat, size: nat, dir: Option<seq<HostFile>>, nproc: nat)
      returns (kernel: Option<Syscalls.Kernel>)
    requires nblocks + DataStart(size, ninodes) == size < WORD && 2 <= ninodes < NameTree.MAXENTS
    requires dir.Some? ==> HostNames(dir.value)
    ensures var files := if dir.None? then [] else dir.value;
            kernel.Some? <==> Fits(files, ninodes, size) && BlocksUsed(files, ninodes, size) < 4096
    ensures kernel.Some? ==>
              && (dir.Some? ==> |dir.value| + 2 <= ninodes)
              && kernel.value.Names() == Dirents.Nodes(Final(dir, ninodes))
              && ((exists place :: kernel.value.Settled(place)) <==>
                  dir.None? || ((|dir.value| + 2) % 32 != 0 && CutNamesDiffer(dir.value)))
  {
    hide Fits, BlocksUsed, Final, CutNamesDiffer, FileSystem.Disks.Ready, Syscalls.DirsWhole, NameTree.Inv,
        Dirents.Nodes, HostNames;
    var disks := MakeImage(nblocks, ninodes, size, dir);
    if disks.None? { return None; }
    var k := new Syscalls.Kernel(disks.value, nproc);
    FinalWhole(dir, ninodes);
    ImageIsTree(dir, ninodes);
    if NameTree.NamesDiffer(k.Names()[ROOT].ents) {
      NameTree.RootShape(k.Names());
      assert k.Ready() ==> k.Settled(map[ROOT := NameTree.Place(0, 0)]);
    }
    kernel := Some(k);
  }
}

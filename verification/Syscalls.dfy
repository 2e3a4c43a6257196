/** The system calls on names and bytes over the disk: create, link, unlink, chdir, read and write of
    kernel/sysfile.c and the directory layer of kernel/fs.c, down to blocks, bitmap and inodes. */
module Syscalls {
  import opened Common
  import opened Disk
  import opened Images
  import opened Space
  import Dirents
  import FS = FileSystem
  import NT = NameTree

  // ---------- steps on files as steps on names ----------

  /** Directory files are made of whole records. */
  predicate DirsWhole(files: seq<File>) {
    forall i | 0 <= i < |files| && files[i].File? && files[i].typ == T_DIR :: |files[i].bytes| % 16 == 0
  }

  /** A record written at slot k of a directory is an entry put there. */
  lemma RecordWritten(files: seq<File>, dp: nat, k: nat, e: NT.Dirent)
    requires DirsWhole(files) && dp < |files| && files[dp].File? && files[dp].typ == T_DIR
    requires Dirents.Good(e) && 16 * k <= |files[dp].bytes| && k < NT.MAXENTS
    ensures var files' := FS.Stepped(files, FS.Write(dp, 16 * k, Dirents.Record(e)));
            && DirsWhole(files')
            && k <= |Dirents.Nodes(files)[dp].ents|
            && Dirents.Nodes(files') == Dirents.Nodes(files)[dp :=
                 Dirents.Nodes(files)[dp].(ents := NT.PutAt(Dirents.Nodes(files)[dp].ents, k, e))]
  {
    hide Dirents.Entries, Dirents.Record, Dirents.Good, FileSplice;
    var bytes := files[dp].bytes;
    assert Dirents.Record(e)[..16] == Dirents.Record(e);
    Dirents.WriteEntry(bytes, k, e);
    Dirents.SpliceSize(bytes, 16 * k, Dirents.Record(e));
    var files' := FS.Stepped(files, FS.Write(dp, 16 * k, Dirents.Record(e)));
    assert files' == files[dp := files[dp].(bytes := FileSplice(bytes, 16 * k, Dirents.Record(e)))];
  }

  /** What an inode holds beside its type and link count: the device numbers, and the bytes unless it is a directory.
      A free inode holds nothing. */
  datatype Content = Content(major: int, minor: int, bytes: seq<Byte>)

  const NOTHING := Content(0, 0, [])

  function DataOf(file: File): Content {
    if file.Absent? then NOTHING else Content(file.major, file.minor, if file.typ != T_DIR then file.bytes else [])
  }

  /** A write at the end of the largest file writes nothing. */
  lemma NoRoomInFile(files: seq<File>, dp: nat, off: nat, src: seq<Byte>)
    requires dp < |files| && files[dp].File? && off == |files[dp].bytes| == MAXBYTES
    ensures FS.Stepped(files, FS.Write(dp, off, src)) == files
  {
    assert src[..0] == [];
    assert FileSplice(files[dp].bytes, off, []) == files[dp].bytes;
  }

  /** The same inodes are in use and hold the same. */
  ghost predicate DataKept(files: seq<File>, files': seq<File>) {
    && |files'| == |files|
    && forall i {:trigger DataOf(files'[i])} | 0 <= i < |files| ::
         DataOf(files'[i]) == DataOf(files[i]) && (files'[i].File? <==> files[i].File?)
  }

  /** The same but for new inodes, which hold these device numbers and no byte. */
  ghost predicate DataMade(files: seq<File>, files': seq<File>, major: int, minor: int) {
    && |files'| == |files|
    && forall i {:trigger DataOf(files'[i])} | 0 <= i < |files| ::
         && (files[i].File? ==> files'[i].File? && DataOf(files'[i]) == DataOf(files[i]))
         && (files[i].Absent? && files'[i].File? ==> DataOf(files'[i]) == Content(major, minor, []))
  }

  lemma WriteKeepsData(files: seq<File>, dp: nat, off: nat, src: seq<Byte>)
    requires dp < |files| && files[dp].File? && files[dp].typ == T_DIR
    ensures DataKept(files, FS.Stepped(files, FS.Write(dp, off, src)))
  {
  }

  lemma LinksKeepData(files: seq<File>, i: nat, n: int)
    ensures DataKept(files, FS.Stepped(files, FS.SetLinks(i, n)))
  {
  }

  /** The inodes in use were in use before and hold the same. */
  ghost predicate DataLeft(files: seq<File>, files': seq<File>) {
    && |files'| == |files|
    && forall i {:trigger DataOf(files'[i])} | 0 <= i < |files| ::
         files'[i].File? ==> files[i].File? && DataOf(files'[i]) == DataOf(files[i])
  }

  /** The inodes in use were in use before and hold the same, or are new. */
  ghost predicate DataNow(files: seq<File>, files': seq<File>, major: int, minor: int) {
    && |files'| == |files|
    && forall i {:trigger DataOf(files'[i])} | 0 <= i < |files| ::
         files'[i].File? ==> DataOf(files'[i]) == if files[i].File? then DataOf(files[i]) else Content(major, minor, [])
  }

  lemma RemoveLeavesData(files: seq<File>, i: nat)
    ensures DataLeft(files, FS.Stepped(files, FS.Remove(i)))
  {
  }

  lemma NewKeepsData(files: seq<File>, c: nat, typ: int, major: int, minor: int)
    requires c < |files| && files[c].Absent?
    ensures DataMade(files, files[c := File(typ, major, minor, 1, [])], major, minor)
  {
  }

  lemma MadeThenKept(files: seq<File>, mid: seq<File>, files': seq<File>, major: int, minor: int)
    requires DataMade(files, mid, major, minor) && DataKept(mid, files')
    ensures DataMade(files, files', major, minor)
  {
    forall i | 0 <= i < |files|
      ensures files[i].File? ==> files'[i].File? && DataOf(files'[i]) == DataOf(files[i])
      ensures files[i].Absent? && files'[i].File? ==> DataOf(files'[i]) == Content(major, minor, [])
    {
      assert DataOf(files'[i]) == DataOf(mid[i]);
    }
  }

  lemma KeptIsMade(files: seq<File>, files': seq<File>, major: int, minor: int)
    requires DataKept(files, files')
    ensures DataMade(files, files', major, minor)
  {
    forall i | 0 <= i < |files|
      ensures DataOf(files'[i]) == DataOf(files[i]) && (files'[i].File? <==> files[i].File?)
    {
      assert DataOf(files'[i]) == DataOf(files[i]);
    }
  }

  lemma KeptIsNow(files: seq<File>, files': seq<File>, major: int, minor: int)
    requires DataKept(files, files')
    ensures DataNow(files, files', major, minor)
  {
  }

  lemma MadeIsNow(files: seq<File>, files': seq<File>, major: int, minor: int)
    requires DataMade(files, files', major, minor)
    ensures DataNow(files, files', major, minor)
  {
  }

  lemma LeftIsNow(files: seq<File>, files': seq<File>, major: int, minor: int)
    requires DataLeft(files, files')
    ensures DataNow(files, files', major, minor)
  {
  }

  /** New inodes take no blocks. */
  lemma TakenMade(files: seq<File>, files': seq<File>, major: int, minor: int)
    requires DataMade(files, files', major, minor)
    ensures forall nodes {:trigger Taken(nodes, Data(files'))} ::
              Taken(nodes, Data(files')) == Taken(nodes, Data(files))
  {
    forall nodes
      ensures Taken(nodes, Data(files')) == Taken(nodes, Data(files))
    {
      forall i | 0 <= i < |files|
        ensures |Data(files')[i].bytes| == |Data(files)[i].bytes|
      {
        assert DataOf(files'[i]) == Data(files')[i];
      }
      assert FileSizes(nodes, Data(files')) == FileSizes(nodes, Data(files));
    }
  }

  /** Making the inode first makes no difference to what create leaves. */
  lemma NewNodesAgain(nodes: seq<NT.Node>, dp: nat, name: NT.Name, c: nat, typ: int)
    requires dp < |nodes| && c < |nodes| && dp != c
    ensures NT.NewNodes(nodes[c := NT.Node(typ, 1, [])], dp, name, c, typ) == NT.NewNodes(nodes, dp, name, c, typ)
  {
    hide NT.PutAt, NT.FreeSlot;
  }

  /** The entry first, then the parent's count if it was a directory, then its own. */
  lemma ClearedInSteps(nodes: seq<NT.Node>, dp: nat, k: nat, a: seq<NT.Node>, b: seq<NT.Node>, c: seq<NT.Node>)
    requires dp < |nodes| && k < |nodes[dp].ents| && nodes[dp].ents[k].inum < |nodes| && nodes[dp].ents[k].inum != dp
    requires a == nodes[dp := nodes[dp].(ents := NT.PutAt(nodes[dp].ents, k, NT.Dirent(0, "")))]
    requires b == if nodes[nodes[dp].ents[k].inum].typ == T_DIR then a[dp := a[dp].(nlink := a[dp].nlink - 1)] else a
    requires var ip := nodes[dp].ents[k].inum; c == b[ip := b[ip].(nlink := b[ip].nlink - 1)]
    ensures c == NT.ClearNodes(nodes, dp, k)
  {
  }

  lemma DotsNodes(nodes: seq<NT.Node>, dp: nat, c: nat)
    requires dp < |nodes| && c < |nodes| && dp != c
    ensures var node := NT.Node(T_DIR, 1, [NT.Dirent(c, "."), NT.Dirent(dp, "..")]);
            nodes[dp := nodes[dp].(nlink := nodes[dp].nlink + 1)][c := node] ==
            nodes[c := node][dp := nodes[dp].(nlink := nodes[dp].nlink + 1)]
  {
  }

  lemma DotsInTurn(nodes: seq<NT.Node>, dp: nat, c: nat)
    requires c < |nodes| && nodes[c] == NT.Node(T_DIR, 1, [])
    ensures var dot := nodes[c := NT.Node(T_DIR, 1, [NT.Dirent(c, ".")])];
            && EntryPut(nodes, c, NT.Dirent(c, ".")) == dot
            && (c != 0 ==> EntryPut(dot, c, NT.Dirent(dp, "..")) == WithDots(nodes, dp, c))
  {
    var one := [NT.Dirent(c, ".")];
    assert NT.PutAt([], 0, NT.Dirent(c, ".")) == one && NT.FreeSlot([], 0) == 0;
    if c != 0 {
      assert NT.FreeSlot(one, 1) == 1;
      assert NT.PutAt(one, 1, NT.Dirent(dp, "..")) == [NT.Dirent(c, "."), NT.Dirent(dp, "..")];
    }
  }

  lemma OneDotBefore(nodes: seq<NT.Node>, dp: nat, c: nat, data: seq<Content>)
    requires c < |nodes|
    ensures Taken(nodes[c := NT.Node(T_DIR, 1, [NT.Dirent(c, ".")])], data) <= Taken(WithDots(nodes, dp, c), data)
  {
    TakenMore(nodes[c := NT.Node(T_DIR, 1, [NT.Dirent(c, ".")])], WithDots(nodes, dp, c), data);
  }

  /** The entry in the parent comes last. */
  lemma EntryLast(nodes: seq<NT.Node>, dp: nat, name: NT.Name, c: nat, typ: int)
    requires dp < |nodes| && c < |nodes| && dp != c && nodes[dp].typ == T_DIR && nodes[c] == NT.Node(typ, 1, [])
    ensures typ == T_DIR ==>
              EntryPut(WithDots(nodes, dp, c)[dp := nodes[dp].(nlink := nodes[dp].nlink + 1)], dp, NT.Dirent(c, name))
              == NT.NewNodes(nodes, dp, name, c, typ)
    ensures typ != T_DIR ==> EntryPut(nodes, dp, NT.Dirent(c, name)) == NT.NewNodes(nodes, dp, name, c, typ)
  {
    hide NT.FreeSlot, NT.PutAt;
  }

  lemma DotsBefore(nodes: seq<NT.Node>, dp: nat, name: NT.Name, c: nat, data: seq<Content>)
    requires dp < |nodes| && c < |nodes| && dp != c && nodes[dp].typ == T_DIR
    ensures Taken(WithDots(nodes, dp, c), data) <= Taken(NT.NewNodes(nodes, dp, name, c, T_DIR), data)
  {
    TakenMore(WithDots(nodes, dp, c), NT.NewNodes(nodes, dp, name, c, T_DIR), data);
  }

  /** One more entry in a directory. */
  function EntryPut(nodes: seq<NT.Node>, dp: nat, e: NT.Dirent): seq<NT.Node>
    requires dp < |nodes|
  {
    nodes[dp := nodes[dp].(ents := NT.PutAt(nodes[dp].ents, NT.FreeSlot(nodes[dp].ents, 0), e))]
  }

  /** A new directory and its two entries. */
  function WithDots(nodes: seq<NT.Node>, dp: nat, c: nat): seq<NT.Node>
    requires c < |nodes|
  {
    nodes[c := NT.Node(T_DIR, 1, [NT.Dirent(c, "."), NT.Dirent(dp, "..")])]
  }

  lemma GoodCleared()
    ensures Dirents.Good(NT.Dirent(0, ""))
  {
  }

  lemma KeptSame(files: seq<File>)
    ensures DataKept(files, files)
  {
  }

  lemma KeptTwice(files: seq<File>, mid: seq<File>, files': seq<File>)
    requires DataKept(files, mid) && DataKept(mid, files')
    ensures DataKept(files, files')
  {
    forall i | 0 <= i < |files|
      ensures DataOf(files'[i]) == DataOf(files[i])
    {
      assert DataOf(mid[i]) == DataOf(files[i]);
    }
  }

  lemma LeftAfterKept(files: seq<File>, mid: seq<File>, files': seq<File>)
    requires DataKept(files, mid) && DataLeft(mid, files')
    ensures DataLeft(files, files')
  {
    forall i | 0 <= i < |files| && files'[i].File?
      ensures DataOf(files'[i]) == DataOf(files[i])
    {
      assert DataOf(mid[i]) == DataOf(files[i]);
    }
  }

  lemma KeptIsLeft(files: seq<File>, files': seq<File>)
    requires DataKept(files, files')
    ensures DataLeft(files, files')
  {
    forall i | 0 <= i < |files|
      ensures DataOf(files'[i]) == DataOf(files[i]) && (files'[i].File? <==> files[i].File?)
    {
      assert DataOf(files'[i]) == DataOf(files[i]);
    }
  }

  lemma LinksSet(files: seq<File>, i: nat, n: int)
    requires DirsWhole(files) && i < |files| && files[i].File?
    ensures var files' := FS.Stepped(files, FS.SetLinks(i, n));
            DirsWhole(files') && Dirents.Nodes(files') ==
                Dirents.Nodes(files)[i := Dirents.Nodes(files)[i].(nlink := n)]
  {
    hide Dirents.Entries;
  }

  lemma InodeMade(files: seq<File>, c: nat, typ: int, major: int, minor: int)
    requires DirsWhole(files) && c < |files| && typ != 0
    ensures var files' := files[c := File(typ, major, minor, 1, [])];
            DirsWhole(files') && Dirents.Nodes(files') == Dirents.Nodes(files)[c := NT.Node(typ, 1, [])]
  {
  }

  lemma InodeDropped(files: seq<File>, i: nat)
    requires DirsWhole(files) && i < |files| && files[i].File? && files[i].typ != 0
    ensures var files' := FS.Stepped(files, FS.Remove(i));
            && DirsWhole(files')
            && Dirents.Nodes(files') ==
               if files[i].nlink == 0 then Dirents.Nodes(files)[i := NT.Node(0, 0, [])] else Dirents.Nodes(files)
  {
    hide Dirents.Entries;
  }

  /** What readi hands back at slot k is the record of entry k. */
  lemma RecordRead(files: seq<File>, dp: nat, k: nat)
    requires dp < |files| && files[dp].File? && files[dp].typ == T_DIR && 16 * k + 16 <= |files[dp].bytes| <= MAXBYTES
    ensures var de := FS.Answer(files, FS.Read(dp, 16 * k, 16));
            && |de| == 16 && k < |Dirents.Nodes(files)[dp].ents|
                 && Dirents.Parse(de) == Dirents.Nodes(files)[dp].ents[k]
  {
    hide Dirents.Parse;
    Dirents.EntryAt(files[dp].bytes, k);
  }

  // ---------- the file system as names and bytes ----------

  /** A call on names, with the numbers create stores, or a read or write of a plain file. */
  datatype Call =
    | Name(op: NT.Op, major: int, minor: int)
    | Put(inum: nat, off: nat, src: seq<Byte>)
    | Get(inum: nat, off: nat, n: nat)

  /** The names a path can have: what skipelem cuts out of it. */
  predicate Cut(path: NT.Path) {
    forall n | n in path.names :: Dirents.GoodName(n)
  }

  predicate Proper(call: Call) {
    call.Name? ==>
      match call.op
      case Make(who, path, typ) => Cut(path)
      case Join(who, oldPath, path) => Cut(path)
      case Remove(who, path, busy) => true
      case Chdir(who, path, busy) => true
      case Drop(ip) => true
  }

  /** What the inodes hold once a call on names has made nodes' of nodes: those it freed hold nothing, those it made the
      device numbers. */
  function Now(nodes: seq<NT.Node>, nodes': seq<NT.Node>, data: seq<Content>, major: int, minor: int): (r: seq<Content>)
    ensures |r| == |data|
  {
    seq(|data|, i requires 0 <= i < |data| =>
      if i >= |nodes| || i >= |nodes'| || nodes'[i].typ == 0 then NOTHING
      else if nodes[i].typ == 0 then Content(major, minor, []) else data[i])
  }

  /** The sizes of all files: a directory has 16 bytes an entry. */
  function FileSizes(nodes: seq<NT.Node>, data: seq<Content>): (r: seq<nat>)
    ensures |r| == |data|
    ensures forall i | 0 <= i < |data| ::
              r[i] == if i < |nodes| && nodes[i].typ == T_DIR then 16 * |nodes[i].ents| else |data[i].bytes|
  {
    seq(|data|, i requires 0 <= i < |data| =>
      if i < |nodes| && nodes[i].typ == T_DIR then 16 * |nodes[i].ents| else |data[i].bytes|)
  }

  /** The blocks that they take. */
  function Taken(nodes: seq<NT.Node>, data: seq<Content>): nat {
    BlocksForAll(FileSizes(nodes, data))
  }

  /** Directories, link counts and current directories, what each inode holds, and how many blocks the disk has for all
      of them. No bitmap, records, block numbers or inode fields. */
  datatype System = System(world: NT.World, data: seq<Content>, capacity: nat) {
    predicate Plain(inum: nat) {
      inum < |world.nodes| && inum < |data| && world.nodes[inum].typ !in {0, T_DIR, T_DEV}
    }

    predicate Fits() {
      Taken(world.nodes, data) <= capacity
    }

    /** What a call leaves behind, if there are the blocks for it. */
    function Stepped(call: Call): Option<System> {
      var next := Wanted(call);
      if next.Some? && next.value.Fits() then next else None
    }

    /** The same on a disk that is large enough. */
    function Wanted(call: Call): Option<System> {
      match call
      case Name(op, major, minor) =>
        var w := world.Stepped(op);
        if w.None? then None
        else Some(System(w.value, Now(world.nodes, w.value.nodes, data, major, minor), capacity))
      case Put(inum, off, src) =>
        if !Plain(inum) || off > |data[inum].bytes| || off + |src| >= WORD then Some(this)
        else
          var k := FS.Min(|src|, MAXBYTES - FS.Min(off, MAXBYTES));
          Some(this.(data := data[inum := data[inum].(bytes := FileSplice(data[inum].bytes, off, src[..k]))]))
      case Get(inum, off, n) => Some(this)
    }

    /** The bytes a call hands back. */
    function Answer(call: Call): seq<Byte> {
      if !call.Get? || !Plain(call.inum) || call.off > |data[call.inum].bytes| || call.off + call.n >= WORD then []
      else data[call.inum].bytes[call.off..call.off + FS.Min(call.n, |data[call.inum].bytes| - call.off)]
    }

    /** None if one of the calls stops the machine. */
    function Ran(calls: seq<Call>): Option<System> {
      if calls == [] then Some(this)
      else
        var mid := Ran(calls[..|calls| - 1]);
        if mid.None? then None else mid.value.Stepped(calls[|calls| - 1])
    }

    function Answers(calls: seq<Call>): seq<seq<Byte>> {
      if calls == [] then []
      else
        var mid := Ran(calls[..|calls| - 1]);
        Answers(calls[..|calls| - 1]) + [if mid.None? then [] else mid.value.Answer(calls[|calls| - 1])]
    }
  }

  /** On names and bytes files take what they take as files. */
  lemma TakenIsHeld(files: seq<File>)
    requires DirsWhole(files)
    ensures Taken(Dirents.Nodes(files), Data(files)) == Held(files)
  {
    hide Dirents.Parse;
    forall i | 0 <= i < |files|
      ensures FileSizes(Dirents.Nodes(files), Data(files))[i] == Sizes(files)[i]
    {
      assert Dirents.Nodes(files)[i] == Dirents.NodeOf(files[i]);
    }
    assert FileSizes(Dirents.Nodes(files), Data(files)) == Sizes(files);
  }

  /** Longer directories take no less. */
  lemma TakenMore(nodes: seq<NT.Node>, nodes': seq<NT.Node>, data: seq<Content>)
    requires |nodes'| == |nodes|
    requires forall i | 0 <= i < |nodes| :: nodes'[i].typ == nodes[i].typ && |nodes[i].ents| <= |nodes'[i].ents|
    ensures Taken(nodes, data) <= Taken(nodes', data)
  {
    AllLarger(FileSizes(nodes, data), FileSizes(nodes', data));
  }

  lemma TakenLinks(nodes: seq<NT.Node>, nodes': seq<NT.Node>, dp: nat, c: nat, data: seq<Content>)
    requires c < |nodes| && dp < |nodes| && nodes' == nodes[dp := nodes[dp].(nlink := nodes[dp].nlink + 1)]
    ensures Taken(WithDots(nodes', dp, c), data) == Taken(WithDots(nodes, dp, c), data)
  {
    assert FileSizes(WithDots(nodes', dp, c), data) == FileSizes(WithDots(nodes, dp, c), data);
  }

  lemma TakenCleared(nodes: seq<NT.Node>, dp: nat, k: nat, data: seq<Content>)
    requires dp < |nodes| && k < |nodes[dp].ents|
    ensures Taken(nodes[dp := nodes[dp].(ents := NT.PutAt(nodes[dp].ents, k, NT.Dirent(0, "")))], data)
              <= Taken(nodes, data)
  {
    TakenMore(nodes[dp := nodes[dp].(ents := NT.PutAt(nodes[dp].ents, k, NT.Dirent(0, "")))], nodes, data);
  }

  lemma DataSame(files: seq<File>, files': seq<File>)
    requires DataKept(files, files')
    ensures Data(files') == Data(files)
  {
  }

  function Data(files: seq<File>): (r: seq<Content>)
    ensures |r| == |files| && forall i | 0 <= i < |files| :: r[i] == DataOf(files[i])
  {
    seq(|files|, i requires 0 <= i < |files| => DataOf(files[i]))
  }

  lemma DataAfter(files: seq<File>, files': seq<File>, major: int, minor: int)
    requires DataNow(files, files', major, minor)
    requires forall i | 0 <= i < |files| && files[i].File? :: files[i].typ != 0
    requires forall i | 0 <= i < |files'| && files'[i].File? :: files'[i].typ != 0
    ensures Data(files') == Now(Dirents.Nodes(files), Dirents.Nodes(files'), Data(files), major, minor)
  {
    hide Dirents.Entries;
    var nodes, nodes' := Dirents.Nodes(files), Dirents.Nodes(files');
    forall i | 0 <= i < |files|
      ensures DataOf(files'[i]) == if nodes'[i].typ == 0 then NOTHING
                                   else if nodes[i].typ == 0 then Content(major, minor, []) else DataOf(files[i])
    {
      assert nodes[i] == Dirents.NodeOf(files[i]) && nodes'[i] == Dirents.NodeOf(files'[i]);
    }
  }

  /** A write to a plain file, seen as names and bytes. */
  lemma PutSeen(files: seq<File>, inum: nat, off: nat, src: seq<Byte>, cwds: seq<nat>, capacity: nat)
    requires inum < |files| && files[inum].File? && files[inum].typ !in {0, T_DIR} && DirsWhole(files)
    ensures var files' := FS.Stepped(files, FS.Write(inum, off, src));
            var st := System(NT.World(Dirents.Nodes(files), cwds), Data(files), capacity);
            && DirsWhole(files')
            && st.Wanted(Put(inum, off, src)) ==
               Some(System(NT.World(Dirents.Nodes(files'), cwds), Data(files'), capacity))
  {
    hide Dirents.Entries, FileSplice;
    var files' := FS.Stepped(files, FS.Write(inum, off, src));
    var st := System(NT.World(Dirents.Nodes(files), cwds), Data(files), capacity);
    assert Dirents.Nodes(files') == Dirents.Nodes(files);
    assert Data(files)[inum].bytes == files[inum].bytes;
    assert Data(files') == Data(files)[inum := Data(files)[inum].(bytes := files'[inum].bytes)];
    assert Dirents.Nodes(files)[inum].typ == files[inum].typ;
    if !st.Plain(inum) || off > |files[inum].bytes| || off + |src| >= WORD { assert files' == files; }
  }

  lemma PutKeepsNames(st: System, inum: nat, off: nat, src: seq<Byte>)
    ensures st.Wanted(Put(inum, off, src)).value.world == st.world
  {
  }

  lemma SameTree(nodes: seq<NT.Node>, nodes': seq<NT.Node>, place: map<nat, NT.Place>)
    requires NT.Inv(nodes, place) && nodes' == nodes
    ensures NT.Inv(nodes', place)
  {
  }

  lemma GetSeen(files: seq<File>, inum: nat, off: nat, n: nat, cwds: seq<nat>, capacity: nat)
    requires inum < |files| && files[inum].File? && files[inum].typ !in {0, T_DIR}
    ensures System(NT.World(Dirents.Nodes(files), cwds), Data(files), capacity).Answer(Get(inum, off, n)) ==
            FS.Answer(files, FS.Read(inum, off, n))
  {
    hide Dirents.Entries;
    assert Data(files)[inum].bytes == files[inum].bytes;
    assert Dirents.Nodes(files)[inum].typ == files[inum].typ;
  }

  /** create and link neither free a file in use nor lengthen one that is no directory. */
  lemma NothingLost(files: seq<File>, w: NT.World, op: NT.Op, major: int, minor: int)
    requires w.nodes == Dirents.Nodes(files) && (op.Make? || op.Join?) && w.Stepped(op).Some?
    requires forall i | 0 <= i < |files| && files[i].File? :: files[i].typ != 0
    ensures var nodes' := w.Stepped(op).value.nodes;
            Taken(nodes', Now(w.nodes, nodes', Data(files), major, minor)) == Taken(nodes', Data(files))
  {
    hide Dirents.Entries, NT.MakeNodes, NT.JoinNodes, BlocksForAll;
    match op {
      case Make(who, path, typ) =>
        var made := NT.MakeNodes(w.nodes, w.Start(who, path), path.names, typ);
        if |files| > 0 && made.Some? { NT.MadeTypes(w.nodes, w.Start(who, path), path.names, typ); }
      case Join(who, oldPath, path) =>
        var joined := NT.JoinNodes(w.nodes, w.Start(who, oldPath), oldPath.names, w.Start(who, path), path.names);
        if joined.Some? {
          NT.JoinedTypes(w.nodes, w.Start(who, oldPath), oldPath.names, w.Start(who, path), path.names);
        }
    }
    var nodes' := w.Stepped(op).value.nodes;
    var now := Now(w.nodes, nodes', Data(files), major, minor);
    forall i | 0 <= i < |files|
      ensures |now[i].bytes| == |Data(files)[i].bytes|
    {
      assert w.nodes[i] == Dirents.NodeOf(files[i]);
    }
    assert FileSizes(nodes', now) == FileSizes(nodes', Data(files));
  }

  /** A file or device made by create holds the numbers it was given and no byte, and no other inode changes. */
  lemma MadeHolds(st: System, place: map<nat, NT.Place>, who: nat, path: NT.Path, typ: int, major: int, minor: int,
                  d: nat)
    requires NT.StartsAt(st.world, place, who, path, d) && typ != 0 && |st.data| == |st.world.nodes|
    requires forall i | 0 <= i < |st.data| && st.world.nodes[i].typ == 0 :: st.data[i] == NOTHING
    requires NT.NameiParent(st.world.nodes, d, path.names).Some? && NT.Namei(st.world.nodes, d, path.names).None?
    requires st.Stepped(Name(NT.Make(who, path, typ), major, minor)).Some?
    ensures var st' := st.Stepped(Name(NT.Make(who, path, typ), major, minor)).value;
            var c := NT.Namei(st'.world.nodes, d, path.names);
            && c.Some? && c.value < |st.data| == |st'.data|
            && st'.data[c.value].major == major && st'.data[c.value].minor == minor && st'.data[c.value].bytes == []
            && forall i | 0 <= i < |st.data| && i != c.value :: st'.data[i] == st.data[i]
  {
    hide NT.StartsAt, NT.Namei, NT.NameiParent, NT.FreeSlot, NT.World.Stepped, Taken;
    NT.MakeLands(st.world, place, who, path, typ, d);
  }

  /** A file keeps what it holds through every call on names that leaves it in use; freed, it holds nothing. */
  lemma NamesKeepData(st: System, op: NT.Op, major: int, minor: int, i: nat)
    requires i < |st.data| == |st.world.nodes| && st.world.nodes[i].typ != 0
    requires st.Stepped(Name(op, major, minor)).Some?
    ensures var st' := st.Stepped(Name(op, major, minor)).value;
            && |st'.data| == |st.data|
            && st'.data[i] == if i < |st'.world.nodes| && st'.world.nodes[i].typ != 0 then st.data[i] else NOTHING
  {
    hide NT.World.Stepped, Taken;
  }

  /** What is put into a plain file is got back, as far as the largest file goes, and nothing else changes. */
  lemma PutThenGet(st: System, inum: nat, off: nat, src: seq<Byte>, lo: nat, n: nat)
    requires st.Plain(inum) && off <= |st.data[inum].bytes| <= MAXBYTES && off + |src| < WORD
    requires st.Stepped(Put(inum, off, src)).Some?
    ensures var st' := st.Stepped(Put(inum, off, src)).value;
            var done := if off + |src| <= MAXBYTES then |src| else MAXBYTES - off;
            && st'.Answer(Get(inum, off, done)) == src[..done]
            && |st'.data[inum].bytes| == (if off + done > |st.data[inum].bytes| then off + done
                                          else |st.data[inum].bytes|)
            && st'.world == st.world && |st'.data| == |st.data|
            && (forall i | 0 <= i < |st.data| && i != inum :: st'.data[i] == st.data[i])
            && (lo + n <= off || (off + done <= lo && lo + n <= |st.data[inum].bytes|) ==>
                  st'.Answer(Get(inum, lo, n)) == st.Answer(Get(inum, lo, n)))
            && (lo <= |st'.data[inum].bytes| && lo + n < WORD ==>
                  |st'.Answer(Get(inum, lo, n))| == if lo + n <= |st'.data[inum].bytes| then n
                                                    else |st'.data[inum].bytes| - lo)
  {
    hide Taken, FileSplice;
    var bytes, done := st.data[inum].bytes, if off + |src| <= MAXBYTES then |src| else MAXBYTES - off;
    FS.SpliceAt(bytes, off, src[..done], lo, n);
    var st' := st.Stepped(Put(inum, off, src)).value;
    assert st' == st.(data := st.data[inum := st.data[inum].(bytes := FileSplice(bytes, off, src[..done]))]);
    if lo + n <= off || (off + done <= lo && lo + n <= |bytes|) { GetSame(st, st', inum, lo, n); }
  }

  lemma GetSame(st: System, st': System, inum: nat, lo: nat, n: nat)
    requires st.Plain(inum) && st'.Plain(inum) && lo + n <= |st.data[inum].bytes| && lo + n <= |st'.data[inum].bytes|
    requires st'.data[inum].bytes[lo..lo + n] == st.data[inum].bytes[lo..lo + n]
    ensures st'.Answer(Get(inum, lo, n)) == st.Answer(Get(inum, lo, n))
  {
  }

  lemma {:induction false} StopsForGood(st: System, calls: seq<Call>, n: nat)
    requires n <= |calls| && st.Ran(calls[..n]).None?
    ensures st.Ran(calls).None?
    decreases |calls|
  {
    if n < |calls| {
      assert calls[..|calls| - 1][..n] == calls[..n];
      StopsForGood(st, calls[..|calls| - 1], n);
    } else {
      assert calls[..n] == calls;
    }
  }

  // ---------- the file system as the code has it ----------

  /** The entries in block n of a directory. */
  lemma BlockEntries(bytes: seq<Byte>, top: nat, n: nat)
    requires n * 512 + 512 <= top <= |bytes|
    ensures |Dirents.Entries(bytes[..top])| >= n * 32 + 32
    ensures Dirents.Entries(bytes[..top])[n * 32..n * 32 + 32] == Dirents.Entries(bytes[n * 512..n * 512 + 512])
  {
    hide Dirents.Entries, Dirents.Parse;
    var part := bytes[n * 512..n * 512 + 512];
    forall i | 0 <= i < 32
      ensures Dirents.Entries(bytes[..top])[n * 32 + i] == Dirents.Entries(part)[i]
    {
      var k := n * 32 + i;
      assert 16 * k == n * 512 + 16 * i;
      Dirents.EntryAt(bytes[..top], k);
      Dirents.EntryAt(part, i);
      SliceOfSlice(bytes, top, n * 512, 16 * i);
    }
  }

  lemma SliceOfSlice(s: seq<Byte>, top: nat, lo: nat, o: nat)
    requires o + 16 <= 512 && lo + 512 <= top <= |s|
    ensures s[lo..lo + 512][o..o + 16] == s[..top][lo + o..lo + o + 16]
  {
    var a, b := s[lo..lo + 512][o..o + 16], s[..top][lo + o..lo + o + 16];
    forall i | 0 <= i < 16
      ensures a[i] == b[i]
    {
      assert a[i] == s[lo..lo + 512][o + i] == s[lo + o + i];
    }
  }

  /** Looking a name up in a stretch of entries and then in the rest. */
  lemma {:induction false} LookupPart(ents: seq<NT.Dirent>, from: nat, hi: nat, name: NT.Name, k: nat)
    requires from <= hi <= |ents| && k <= hi - from
    ensures NT.Lookup(ents, name, from + k) ==
            if NT.Lookup(ents[from..hi], name, k) < hi - from then from + NT.Lookup(ents[from..hi], name, k)
            else NT.Lookup(ents, name, hi)
    decreases hi - from - k
  {
    if k < hi - from { LookupPart(ents, from, hi, name, k + 1); }
  }

  lemma EntriesFirst(blocks: seq<Block>, d: Dinode, top: nat)
    requires Tidy(blocks, d) && d.size % 16 == 0 && d.size <= top <= MAXBYTES
    ensures |Bytes(blocks, d)| == MAXBYTES
              && Dirents.Entries(Contents(blocks, d)) <= Dirents.Entries(Bytes(blocks, d)[..top])
  {
    hide Dirents.Entries;
    var bytes := Bytes(blocks, d)[..top];
    forall o | d.size <= o < top
      ensures bytes[o] == 0
    {
      assert bytes[o] == ByteAt(blocks, d, o);
    }
    assert bytes[..d.size] == Contents(blocks, d);
    Dirents.EntriesOfZeros(bytes, d.size);
  }

  /** The whole blocks that hold size bytes. */
  function Blocks(size: nat): nat {
    (size + 511) / 512
  }

  lemma BlocksFit(size: nat)
    requires size <= MAXBYTES
    ensures size <= Blocks(size) * 512 <= MAXBYTES
  {
  }

  lemma BytesLength(blocks: seq<Block>, d: Dinode)
    ensures |Bytes(blocks, d)| == MAXBYTES
  {
  }

  class Kernel {
    const disk: FS.Disks
    /** proc->cwd of each process. */
    var cwds: seq<nat>

    constructor (disk: FS.Disks, nproc: nat)
      ensures this.disk == disk && cwds == seq(nproc, _ => ROOT)
    {
      this.disk, cwds := disk, seq(nproc, _ => ROOT);
    }

    ghost predicate Ready()
      reads this, disk, disk.sectors, disk.dinodes
    {
      disk.Ready() && disk.dinodes.Length <= 0x1_0000 && DirsWhole(disk.Contained())
    }

    ghost function Names(): (nodes: seq<NT.Node>)
      reads this, disk, disk.sectors, disk.dinodes
      ensures |nodes| == disk.dinodes.Length
    {
      Dirents.Nodes(disk.Contained())
    }

    /** The inode on disk and the node it stands for. */
    lemma At(i: nat)
      requires Ready() && i < disk.dinodes.Length
      ensures disk.dinodes.Length <= 0x1_0000
      ensures var d, node := disk.dinodes[i], Names()[i];
              && d.size <= MAXBYTES && Tidy(disk.sectors[..], d) && node.typ == d.typ
              && (disk.Contained()[i].File? <==> d.typ != 0)
              && (d.typ != 0 ==> node.nlink == d.nlink && disk.Contained()[i] == FileOf(disk.sectors[..], d)
                                 && disk.Contained()[i].typ == d.typ && |disk.Contained()[i].bytes| == d.size)
              && (d.typ == T_DIR ==>
                    && d.size % 16 == 0 && |node.ents| == d.size / 16
                    && node.ents == Dirents.Entries(Contents(disk.sectors[..], d)))
    {
      SizeBounded(disk.sectors[..], disk.dinodes[..], disk.owner, i);
    }

    /** With those names, and the bytes there are, the disk would not do. */
    ghost predicate Over(nodes: seq<NT.Node>)
      reads disk, disk.sectors, disk.dinodes
    {
      Taken(nodes, Data(disk.Contained())) > disk.Capacity()
    }

    /** What is there fits. */
    lemma Room()
      requires Ready()
      ensures !Over(Names())
    {
      hide Packed, Files, Free, Held, Image;
      disk.Room();
      TakenIsHeld(disk.Contained());
    }

    /** dirlookup (kernel/fs.c:464-493): the slot of the entry, or the number of slots, and its inode. */
    method Dirlookup(dp: nat, name: NT.Name) returns (k: nat, inum: nat)
      requires Ready() && dp < disk.dinodes.Length && disk.dinodes[dp].typ == T_DIR
      modifies disk.sectors, disk`owner
      ensures Ready() && disk.sectors[..] == old(disk.sectors[..]) && Names() == old(Names())
      ensures k == NT.Lookup(Names()[dp].ents, name, 0) && (k < |Names()[dp].ents| ==> inum == Names()[dp].ents[k].inum)
    {
      hide FS.Disks.Ready, Files, Bytes, Contents, Tidy, Dirents.Entries, Dirents.Nodes, DirsWhole, NT.Lookup;
      At(dp);
      var live, ip := disk.Ilock(dp);
      BlocksFit(ip.size);
      Dirents.ScanOfBlocks(disk.sectors[..], ip.D(), name, Blocks(ip.size) * 512);
      EntriesFirst(disk.sectors[..], ip.D(), Blocks(ip.size) * 512);
      k, inum := ScanBlocks(ip, name);
      if k >= ip.size / 16 { k := ip.size / 16; }
    }

    /** The loop over the blocks of a directory. */
    method ScanBlocks(ip: FS.Inode, name: NT.Name) returns (k: nat, inum: nat)
      requires Ready() && ip.inum < disk.dinodes.Length && ip.D() == disk.dinodes[ip.inum] && ip.typ != 0
      requires Blocks(ip.size) * 512 <= MAXBYTES
      modifies disk.sectors, ip`addrs, disk`owner
      ensures Ready() && disk.sectors[..] == old(disk.sectors[..]) && ip.D() == old(ip.D())
      ensures |Bytes(disk.sectors[..], ip.D())| == MAXBYTES
      ensures var seen := Dirents.Entries(Bytes(disk.sectors[..], ip.D())[..Blocks(ip.size) * 512]);
              k == NT.Lookup(seen, name, 0) && (k < |seen| ==> inum == seen[k].inum)
    {
      hide FS.Disks.Ready, Files, Bytes, Dirents.Entries, DirsWhole, NT.Lookup;
      ghost var blocks, d := disk.sectors[..], ip.D();
      ghost var bytes := Bytes(blocks, d);
      BytesLength(blocks, d);
      ghost var seen := Dirents.Entries(bytes[..Blocks(ip.size) * 512]);
      var n := 0;
      while n * 512 < ip.size
        invariant n <= Blocks(ip.size) && Ready() && disk.sectors[..] == blocks && ip.D() == d
        invariant NT.Lookup(seen, name, 0) == NT.Lookup(seen, name, n * 32)
        decreases ip.size - n * 512
      {
        var data := disk.BlockOf(ip, n);
        var i;
        i, inum := ScanBlock(data, name);
        BlockEntries(bytes, Blocks(ip.size) * 512, n);
        LookupPart(seen, n * 32, n * 32 + 32, name, 0);
        if i < 32 {
          assert seen[n * 32..n * 32 + 32][i] == seen[n * 32 + i];
          k := n * 32 + i;
          return;
        }
        n := n + 1;
      }
      assert n * 32 == |seen|;
      return n * 32, 0;
    }

    /** The loop over the records of one block. */
    static method ScanBlock(data: Block, name: NT.Name) returns (i: nat, inum: nat)
      ensures i == NT.Lookup(Dirents.Entries(data), name, 0) && (i < 32 ==> inum == Dirents.Entries(data)[i].inum)
    {
      hide Dirents.Entries, Dirents.Parse;
      i, inum := 0, 0;
      while i < 32
        invariant i <= 32 && NT.Lookup(Dirents.Entries(data), name, 0) == NT.Lookup(Dirents.Entries(data), name, i)
      {
        Dirents.EntryAt(data, i);
        var de := Dirents.Parse(data[16 * i..16 * i + 16]);
        if de.inum != 0 && de.name == name {
          inum := de.inum;
          return;
        }
        i := i + 1;
      }
    }

    /** namex with nameiparent 0 (kernel/fs.c:567-600); an inode number past the table has no inode to lock. */
    method Walk(start: nat, path: seq<NT.Name>) returns (r: Option<nat>)
      requires Ready()
      modifies disk.sectors, disk`owner
      ensures Ready() && disk.sectors[..] == old(disk.sectors[..]) && Names() == old(Names())
      ensures r == NT.Namei(Names(), start, path)
    {
      hide Ready, Names, FS.Disks.Contained, NT.Lookup;
      ghost var nodes := Names();
      var ip: nat, i: nat := start, 0;
      while i < |path|
        invariant i <= |path| && Ready() && disk.sectors[..] == old(disk.sectors[..]) && Names() == nodes
        invariant NT.Namei(nodes, start, path) == NT.Namei(nodes, ip, path[i..])
      {
        if ip >= disk.dinodes.Length { return None; }
        At(ip);
        if disk.dinodes[ip].typ != T_DIR { return None; }
        var k, next := Dirlookup(ip, path[i]);
        if k >= disk.dinodes[ip].size / 16 { return None; }
        assert path[i..][1..] == path[i + 1..];
        ip, i := next, i + 1;
      }
      r := Some(ip);
    }

    /** namex with nameiparent 1: stop one level early. */
    method WalkParent(start: nat, path: seq<NT.Name>) returns (r: Option<nat>)
      requires Ready()
      modifies disk.sectors, disk`owner
      ensures Ready() && disk.sectors[..] == old(disk.sectors[..]) && Names() == old(Names())
      ensures r == NT.NameiParent(Names(), start, path)
    {
      hide Ready, Names, FS.Disks.Contained, NT.Lookup;
      ghost var nodes := Names();
      var ip: nat, i: nat := start, 0;
      while i < |path|
        invariant i <= |path| && Ready() && disk.sectors[..] == old(disk.sectors[..]) && Names() == nodes
        invariant NT.NameiParent(nodes, start, path) == NT.NameiParent(nodes, ip, path[i..])
      {
        if ip >= disk.dinodes.Length { return None; }
        At(ip);
        if disk.dinodes[ip].typ != T_DIR { return None; }
        if i + 1 == |path| { return Some(ip); }
        var k, next := Dirlookup(ip, path[i]);
        if k >= disk.dinodes[ip].size / 16 { return None; }
        assert path[i..][1..] == path[i + 1..];
        ip, i := next, i + 1;
      }
      r := None;
    }

    /** readi of one record of a directory. */
    method ReadRecord(dp: nat, k: nat) returns (de: NT.Dirent)
      requires Ready() && dp < disk.dinodes.Length && disk.dinodes[dp].typ == T_DIR && 16 * k < disk.dinodes[dp].size
      modifies disk.sectors, disk.dinodes, disk`owner
      ensures Ready() && disk.Contained() == old(disk.Contained())
      ensures k < |Names()[dp].ents| && de == Names()[dp].ents[k]
    {
      hide FS.Disks.Ready, Files, DirsWhole, FS.Answer, Dirents.Parse, Dirents.Nodes, Dirents.Entries;
      At(dp);
      RecordRead(disk.Contained(), dp, k);
      var bytes := disk.PerformRead(dp, 16 * k, 16);
      de := Dirents.Parse(bytes);
    }

    /** writei of one record of a directory; done is whether it wrote all of it. */
    method WriteRecord(dp: nat, k: nat, de: NT.Dirent) returns (ok: bool, done: bool)
      requires Ready() && dp < disk.dinodes.Length && disk.dinodes[dp].typ == T_DIR && 16 * k <= disk.dinodes[dp].size
      requires Dirents.Good(de)
      modifies disk.sectors, disk.dinodes, disk`owner
      ensures k <= |old(Names())[dp].ents|
      ensures ok <==> k >= NT.MAXENTS
                      || !old(Over(Names()[dp := Names()[dp].(ents := NT.PutAt(Names()[dp].ents, k, de))]))
      ensures ok ==> (done <==> k < NT.MAXENTS)
      ensures ok && done ==>
                && Ready() && DataKept(old(disk.Contained()), disk.Contained())
                && Names() == old(Names())[dp :=
                     old(Names())[dp].(ents := NT.PutAt(old(Names())[dp].ents, k, de))]
    {
      hide FS.Disks.Ready, Files, DirsWhole, FS.Stepped, Dirents.Record, Dirents.Good, Dirents.Nodes, Dirents.Entries;
      At(dp);
      WriteKeepsData(disk.Contained(), dp, 16 * k, Dirents.Record(de));
      if k < NT.MAXENTS {
        RecordWritten(disk.Contained(), dp, k, de);
        DataSame(disk.Contained(), FS.Stepped(disk.Contained(), FS.Write(dp, 16 * k, Dirents.Record(de))));
        TakenIsHeld(FS.Stepped(disk.Contained(), FS.Write(dp, 16 * k, Dirents.Record(de))));
      } else {
        NoRoomInFile(disk.Contained(), dp, 16 * k, Dirents.Record(de));
        disk.Room();
      }
      var n;
      ok, n := disk.PerformWrite(dp, 16 * k, Dirents.Record(de));
      done := n == 16;
    }

    /** dirlink (kernel/fs.c:496-523). Stopped is a panic: the disk or the directory is full. */
    method Dirlink(dp: nat, name: NT.Name, inum: nat) returns (r: NT.Ret)
      requires Ready() && dp < disk.dinodes.Length && disk.dinodes[dp].typ == T_DIR
      requires Dirents.Good(NT.Dirent(inum, name))
      modifies disk.sectors, disk.dinodes, disk`owner
      ensures r.Fail? <==> NT.Lookup(old(Names())[dp].ents, name, 0) < |old(Names())[dp].ents|
      ensures r.Fail? ==> Ready() && disk.Contained() == old(disk.Contained())
      ensures r.Stopped? <==>
                && NT.Lookup(old(Names())[dp].ents, name, 0) == |old(Names())[dp].ents|
                && (NT.FreeSlot(old(Names())[dp].ents, 0) >= NT.MAXENTS
                    || old(Over(EntryPut(Names(), dp, NT.Dirent(inum, name)))))
      ensures r.Ok? ==>
                && Ready() && r.inum == inum && NT.FreeSlot(old(Names())[dp].ents, 0) < NT.MAXENTS
                && DataKept(old(disk.Contained()), disk.Contained())
                && Names() == EntryPut(old(Names()), dp, NT.Dirent(inum, name))
    {
      hide FS.Disks.Ready, Files, DirsWhole, Dirents.Good, Dirents.Nodes, NT.Lookup;
      ghost var files, ents := disk.Contained(), Names()[dp].ents;
      At(dp);
      var k, found := Dirlookup(dp, name);
      if k < disk.dinodes[dp].size / 16 { return NT.Fail; }
      k := 0;
      while 16 * k < disk.dinodes[dp].size
        invariant Ready() && disk.Contained() == files && k <= |ents| && NT.FreeSlot(ents, 0) == NT.FreeSlot(ents, k)
        decreases |ents| - k
      {
        At(dp);
        var de := ReadRecord(dp, k);
        if de.inum == 0 { break; }
        k := k + 1;
        At(dp);
      }
      At(dp);
      var ok, done := WriteRecord(dp, k, NT.Dirent(inum, name));
      r := if ok && done then NT.Ok(inum) else NT.Stopped;
    }

    /** isdirempty (kernel/sysfile.c:149-162). */
    method Isdirempty(dp: nat) returns (b: bool)
      requires Ready() && dp < disk.dinodes.Length && disk.dinodes[dp].typ == T_DIR
      modifies disk.sectors, disk.dinodes, disk`owner
      ensures Ready() && disk.Contained() == old(disk.Contained()) && b == NT.EmptyDir(Names()[dp].ents)
    {
      hide FS.Disks.Ready, Files, DirsWhole, Dirents.Nodes;
      ghost var files, ents := disk.Contained(), Names()[dp].ents;
      At(dp);
      var k := 2;
      while 16 * k < disk.dinodes[dp].size
        invariant Ready() && disk.Contained() == files && k >= 2
        invariant forall l | 2 <= l < k && l < |ents| :: ents[l].inum == 0
        decreases |ents| - k
      {
        At(dp);
        var de := ReadRecord(dp, k);
        if de.inum != 0 { return false; }
        k := k + 1;
        At(dp);
      }
      At(dp);
      b := true;
    }

    /** ilock, a new link count, iupdate. */
    method SetLinks(i: nat, n: int)
      requires Ready() && i < disk.dinodes.Length && disk.dinodes[i].typ != 0
      modifies disk.dinodes
      ensures Ready() && DataKept(old(disk.Contained()), disk.Contained())
      ensures Names() == old(Names())[i := old(Names())[i].(nlink := n)]
    {
      hide FS.Disks.Ready, Files, FS.Stepped, Dirents.Nodes, DirsWhole;
      At(i);
      LinksSet(disk.Contained(), i, n);
      LinksKeepData(disk.Contained(), i, n);
      disk.PerformLinks(i, n);
    }

    /** iput of an inode that nobody else has. */
    method Drop(i: nat)
      requires Ready() && i < disk.dinodes.Length && disk.dinodes[i].typ != 0
      modifies disk.sectors, disk.dinodes, disk`owner
      ensures Ready() && DataLeft(old(disk.Contained()), disk.Contained())
      ensures Names() == if old(Names())[i].nlink == 0 then old(Names())[i := NT.Node(0, 0, [])] else old(Names())
    {
      hide FS.Disks.Ready, Files, FS.Stepped, Dirents.Nodes, DirsWhole;
      At(i);
      InodeDropped(disk.Contained(), i);
      RemoveLeavesData(disk.Contained(), i);
      disk.PerformRemove(i);
    }

    /** ialloc and the first part of create; None is the panic without a free inode. */
    method NewInode(typ: int, major: int, minor: int) returns (r: Option<nat>)
      requires Ready() && typ != 0
      modifies disk.dinodes
      ensures 1 <= disk.dinodes.Length && r.None? ==> NT.FirstFree(old(Names()), 1) == disk.dinodes.Length
      ensures r.Some? ==>
                && 1 <= disk.dinodes.Length && r.value == NT.FirstFree(old(Names()), 1) < disk.dinodes.Length
                && Ready() && old(disk.Contained())[r.value].Absent?
                && disk.Contained() == old(disk.Contained())[r.value := File(typ, major, minor, 1, [])]
                && old(Names())[r.value].typ == 0 && Names() == old(Names())[r.value := NT.Node(typ, 1, [])]
    {
      hide FS.Disks.Ready, Files, Dirents.Nodes, DirsWhole;
      forall i | 0 <= i < disk.dinodes.Length
        ensures Names()[i].typ == disk.dinodes[i].typ && (disk.Contained()[i].File? <==> disk.dinodes[i].typ != 0)
      {
        At(i);
      }
      r := disk.Ialloc(typ, major, minor);
      if r.Some? {
        InodeMade(old(disk.Contained()), r.value, typ, major, minor);
        NT.FirstFreeIs(old(Names()), 1, r.value);
      } else if 1 <= disk.dinodes.Length {
        NT.FirstFreeIs(old(Names()), 1, disk.dinodes.Length);
      }
    }

    /** The entries "." and ".." of a new directory, and the count for the latter. */
    method Dots(dp: nat, c: nat) returns (ok: bool)
      requires Ready() && dp < disk.dinodes.Length && 1 <= c < disk.dinodes.Length && dp != c
      requires Names()[dp].typ == T_DIR && Names()[c] == NT.Node(T_DIR, 1, [])
      modifies disk.sectors, disk.dinodes, disk`owner
      ensures ok <==> !old(Over(WithDots(Names(), dp, c)))
      ensures ok ==>
                && Ready() && DataKept(old(disk.Contained()), disk.Contained())
                && Names() == WithDots(old(Names()), dp, c)
                                [dp := old(Names())[dp].(nlink := old(Names())[dp].nlink + 1)]
    {
      hide FS.Disks.Ready, Files, Dirents.Nodes, DirsWhole, DataKept, Data, Taken;
      ghost var nodes0, files0 := Names(), disk.Contained();
      At(dp);
      SetLinks(dp, disk.dinodes[dp].nlink + 1);
      ghost var files1 := disk.Contained();
      DataSame(files0, files1);
      TakenLinks(nodes0, Names(), dp, c, Data(files0));
      ok := DotsIn(dp, c);
      if ok {
        KeptTwice(files0, files1, disk.Contained());
        DotsNodes(nodes0, dp, c);
      }
    }

    /** The two calls of dirlink. */
    method DotsIn(dp: nat, c: nat) returns (ok: bool)
      requires Ready() && dp < disk.dinodes.Length && 1 <= c < disk.dinodes.Length
                 && Names()[c] == NT.Node(T_DIR, 1, [])
      modifies disk.sectors, disk.dinodes, disk`owner
      ensures ok <==> !old(Over(WithDots(Names(), dp, c)))
      ensures ok ==>
                && Ready() && DataKept(old(disk.Contained()), disk.Contained())
                && Names() == WithDots(old(Names()), dp, c)
    {
      hide FS.Disks.Ready, Files, Dirents.Nodes, DirsWhole, DataKept, Data, Taken, EntryPut, WithDots;
      ghost var nodes0, files0 := Names(), disk.Contained();
      ghost var nodes1 := nodes0[c := NT.Node(T_DIR, 1, [NT.Dirent(c, ".")])];
      OneDotBefore(nodes0, dp, c, Data(files0));
      At(c);
      DotsInTurn(nodes0, dp, c);
      var r := Dirlink(c, ".", c);
      if !r.Ok? { return false; }
      ghost var files1 := disk.Contained();
      DataSame(files0, files1);
      At(c);
      r := Dirlink(c, "..", dp);
      ok := r.Ok?;
      if ok { KeptTwice(files0, files1, disk.Contained()); }
    }

    /** The rest of create once it has a new inode (kernel/sysfile.c:242-252). */
    method Enter(dp: nat, name: NT.Name, c: nat, typ: int) returns (r: NT.Ret)
      requires Ready() && dp < disk.dinodes.Length && 1 <= c < disk.dinodes.Length && dp != c && typ != 0
      requires Names()[dp].typ == T_DIR && Names()[c] == NT.Node(typ, 1, []) && Dirents.GoodName(name)
      requires NT.Lookup(Names()[dp].ents, name, 0) == |Names()[dp].ents|
      modifies disk.sectors, disk.dinodes, disk`owner
      ensures r.Ok? || r.Stopped?
      ensures r.Stopped? <==> NT.FreeSlot(old(Names())[dp].ents, 0) >= NT.MAXENTS
                              || old(Over(NT.NewNodes(Names(), dp, name, c, typ)))
      ensures r.Ok? ==>
                && r.inum == c && Ready() && DataKept(old(disk.Contained()), disk.Contained())
                && NT.FreeSlot(old(Names())[dp].ents, 0) < NT.MAXENTS
                && Names() == NT.NewNodes(old(Names()), dp, name, c, typ)
    {
      hide Ready, Names, FS.Disks.Contained, NT.Lookup, NT.FreeSlot, NT.PutAt, DataKept, Data, Taken;
      ghost var nodes0, files0 := Names(), disk.Contained();
      KeptSame(files0);
      if typ == T_DIR {
        DotsBefore(nodes0, dp, name, c, Data(files0));
        var ok := Dots(dp, c);
        if !ok { return NT.Stopped; }
      }
      ghost var files1 := disk.Contained();
      DataSame(files0, files1);
      EntryLast(nodes0, dp, name, c, typ);
      At(dp);
      r := Dirlink(dp, name, c);
      if r.Ok? { KeptTwice(files0, files1, disk.Contained()); }
    }

    /** create (kernel/sysfile.c:213-255): on the disk it does what it does to names. */
    method Create(start: nat, path: seq<NT.Name>, typ: int, major: int, minor: int) returns (r: NT.Ret)
      requires Ready() && typ != 0 && forall n | n in path :: Dirents.GoodName(n)
      modifies disk.sectors, disk.dinodes, disk`owner
      ensures r.Stopped? <==> old(NT.MakeNodes(Names(), start, path, typ).None?
                                  || Over(NT.MakeNodes(Names(), start, path, typ).value))
      ensures !r.Stopped? ==>
                && Ready() && Some(Names()) == NT.MakeNodes(old(Names()), start, path, typ)
                && DataMade(old(disk.Contained()), disk.Contained(), major, minor)
      ensures r.Fail? <==>
                var dp, i := NT.NameiParent(old(Names()), start, path), NT.Namei(old(Names()), start, path);
                || dp.None?
                || (i.Some? && !(typ == T_FILE && i.value < |old(Names())| && old(Names())[i.value].typ == T_FILE))
      ensures r.Ok? ==> NT.Namei(Names(), start, path) == Some(r.inum)
    {
      hide FS.Disks.Ready, Files, Dirents.Nodes, DirsWhole, NT.Lookup, NT.FreeSlot, NT.PutAt, NT.NewNodes, DataKept,
          DataMade, Data, Taken;
      ghost var nodes0, files0 := Names(), disk.Contained();
      Room();
      KeptSame(files0);
      KeptIsMade(files0, files0, major, minor);
      var parent := WalkParent(start, path);
      if parent.None? { return NT.Fail; }
      var dp, name := parent.value, path[|path| - 1];
      At(dp);
      var k, found := Dirlookup(dp, name);
      NT.NameiByParent(nodes0, start, path);
      if k < disk.dinodes[dp].size / 16 {
        if found < disk.dinodes.Length { At(found); }
        if typ == T_FILE && found < disk.dinodes.Length && disk.dinodes[found].typ == T_FILE { return NT.Ok(found); }
        return NT.Fail;
      }
      var c := NewInode(typ, major, minor);
      if c.None? { return NT.Stopped; }
      ghost var files1 := disk.Contained();
      NewKeepsData(files0, c.value, typ, major, minor);
      TakenMade(files0, files1, major, minor);
      NewNodesAgain(nodes0, dp, name, c.value, typ);
      NT.CreatedResolves(nodes0, start, path, dp, c.value, typ);
      r := Enter(dp, name, c.value, typ);
      if r.Ok? { MadeThenKept(files0, files1, disk.Contained(), major, minor); }
    }

    /** The second half of sys_link: a new entry for ip, if the path has a parent that does not have the name. */
    method LinkEntry(start: nat, path: seq<NT.Name>, ip: nat) returns (r: NT.Ret)
      requires Ready() && (forall n | n in path :: Dirents.GoodName(n)) && ip < disk.dinodes.Length
      modifies disk.sectors, disk.dinodes, disk`owner
      ensures r.Fail? ==>
                && Ready() && disk.Contained() == old(disk.Contained())
                && (path == [] || NT.NameiParent(old(Names()), start, path).None?
                     || NT.Namei(old(Names()), start, path).Some?)
      ensures !r.Fail? ==> NT.NameiParent(old(Names()), start, path).Some? && NT.Namei(old(Names()), start, path).None?
      ensures !r.Fail? ==>
                var dp := NT.NameiParent(old(Names()), start, path).value;
                (r.Stopped? <==> NT.FreeSlot(old(Names())[dp].ents, 0) >= NT.MAXENTS
                                 || old(Over(EntryPut(Names(), dp, NT.Dirent(ip, path[|path| - 1])))))
      ensures r.Ok? ==>
                var dp := NT.NameiParent(old(Names()), start, path).value;
                && Ready() && r.inum == ip && NT.FreeSlot(old(Names())[dp].ents, 0) < NT.MAXENTS
                && DataKept(old(disk.Contained()), disk.Contained())
                && Names() == EntryPut(old(Names()), dp, NT.Dirent(ip, path[|path| - 1]))
    {
      hide FS.Disks.Ready, Files, Dirents.Nodes, DirsWhole, NT.Lookup, EntryPut, NT.FreeSlot, DataKept, Data, Taken;
      if path != [] { NT.NameiByParent(Names(), start, path); }
      var parent := WalkParent(start, path);
      if parent.None? { return NT.Fail; }
      At(parent.value);
      r := Dirlink(parent.value, path[|path| - 1], ip);
    }

    /** sys_link (kernel/sysfile.c:111-146). */
    method Link(oldStart: nat, oldPath: seq<NT.Name>, start: nat, path: seq<NT.Name>) returns (r: NT.Ret)
      requires Ready() && (forall n | n in path :: Dirents.GoodName(n))
      requires forall i | NT.Namei(Names(), oldStart, oldPath) == Some(i) && i < |Names()| :: Names()[i].typ != 0
      modifies disk.sectors, disk.dinodes, disk`owner
      ensures r.Stopped? <==> old(NT.JoinNodes(Names(), oldStart, oldPath, start, path).None?
                                  || Over(NT.JoinNodes(Names(), oldStart, oldPath, start, path).value))
      ensures !r.Stopped? ==>
                && Ready() && Some(Names()) == NT.JoinNodes(old(Names()), oldStart, oldPath, start, path)
                && DataKept(old(disk.Contained()), disk.Contained())
      ensures r.Fail? <==>
                var i := NT.Namei(old(Names()), oldStart, oldPath);
                || i.None? || i.value >= |old(Names())| || old(Names())[i.value].typ == T_DIR
                || NT.NameiParent(old(Names()), start, path).None? || NT.Namei(old(Names()), start, path).Some?
      ensures r.Ok? ==> NT.Namei(old(Names()), oldStart, oldPath) == Some(r.inum)
    {
      hide FS.Disks.Ready, Files, Dirents.Nodes, DirsWhole, NT.Lookup, NT.FreeSlot, NT.PutAt, DataKept,
          NT.Namei, NT.NameiParent, Data, Taken;
      ghost var nodes0, files0 := Names(), disk.Contained();
      Room();
      var found := Walk(oldStart, oldPath);
      KeptSame(files0);
      if found.None? || found.value >= disk.dinodes.Length { return NT.Fail; }
      var ip := found.value;
      At(ip);
      if disk.dinodes[ip].typ == T_DIR { return NT.Fail; }
      SetLinks(ip, disk.dinodes[ip].nlink + 1);
      ghost var mid, files1 := Names(), disk.Contained();
      DataSame(files0, files1);
      NT.WalksAside(nodes0, mid, start, path);
      r := LinkEntry(start, path, ip);
      if r.Fail? {
        At(ip);
        SetLinks(ip, disk.dinodes[ip].nlink - 1);
        assert Names() == nodes0;
      }
      if !r.Stopped? { KeptTwice(files0, files1, disk.Contained()); }
    }

    /** The part of sys_unlink that changes things (kernel/sysfile.c:195-209): entry k of dp is cleared, the counts go
        down, and the inode is freed if it has no link and is not busy. */
    method Clear(dp: nat, k: nat, ip: nat, busy: bool)
      requires Ready() && dp < disk.dinodes.Length && disk.dinodes[dp].typ == T_DIR && 16 * k < disk.dinodes[dp].size
      requires k < |Names()[dp].ents| && ip == Names()[dp].ents[k].inum < disk.dinodes.Length
      requires disk.dinodes[ip].typ != 0 && ip != dp
      modifies disk.sectors, disk.dinodes, disk`owner
      ensures Ready() && Names() == NT.UnlinkNodes(old(Names()), dp, k, busy)
      ensures DataLeft(old(disk.Contained()), disk.Contained())
    {
      hide FS.Disks.Ready, Files, Dirents.Nodes, DirsWhole, DataKept, DataLeft, NT.ClearNodes;
      ghost var nodes0, files0 := Names(), disk.Contained();
      ClearCounts(dp, k, ip);
      ghost var files1 := disk.Contained();
      if !busy {
        At(ip);
        Drop(ip);
        LeftAfterKept(files0, files1, disk.Contained());
      } else {
        KeptIsLeft(files0, files1);
      }
    }

    /** The cleared entry and the counts. */
    method ClearCounts(dp: nat, k: nat, ip: nat)
      requires Ready() && dp < disk.dinodes.Length && disk.dinodes[dp].typ == T_DIR && 16 * k < disk.dinodes[dp].size
      requires k < |Names()[dp].ents| && ip == Names()[dp].ents[k].inum < disk.dinodes.Length
      requires disk.dinodes[ip].typ != 0 && ip != dp
      modifies disk.sectors, disk.dinodes, disk`owner
      ensures Ready() && Names() == NT.ClearNodes(old(Names()), dp, k) && disk.dinodes[ip].typ != 0
      ensures DataKept(old(disk.Contained()), disk.Contained())
    {
      hide Ready, Names, FS.Disks.Contained, DataKept, NT.ClearNodes, NT.PutAt;
      ghost var files0, nodes0 := disk.Contained(), Names();
      At(dp);
      At(ip);
      var isDir := disk.dinodes[ip].typ == T_DIR;
      ClearRecord(dp, k);
      ghost var a := Names();
      if isDir { OneLess(dp, files0); }
      ghost var b := Names();
      OneLess(ip, files0);
      ClearedInSteps(nodes0, dp, k, a, b, Names());
      At(ip);
    }

    /** The cleared record; it lies below the size, so the write cannot fail. */
    method ClearRecord(dp: nat, k: nat)
      requires Ready() && dp < disk.dinodes.Length && disk.dinodes[dp].typ == T_DIR && 16 * k < disk.dinodes[dp].size
      modifies disk.sectors, disk.dinodes, disk`owner
      ensures k < |old(Names())[dp].ents|
      ensures Ready() && DataKept(old(disk.Contained()), disk.Contained())
      ensures Names() == old(Names())[dp := old(Names())[dp].(ents := NT.PutAt(old(Names())[dp].ents, k,
                                                                               NT.Dirent(0, "")))]
    {
      hide FS.Disks.Ready, Files, Dirents.Nodes, DirsWhole, DataKept, NT.PutAt, Taken, Data;
      At(dp);
      GoodCleared();
      Room();
      TakenCleared(Names(), dp, k, Data(disk.Contained()));
      var ok, done := WriteRecord(dp, k, NT.Dirent(0, ""));
    }

    method OneLess(i: nat, ghost files0: seq<File>)
      requires Ready() && i < disk.dinodes.Length && Names()[i].typ != 0 && DataKept(files0, disk.Contained())
      modifies disk.dinodes
      ensures Ready() && DataKept(files0, disk.Contained())
      ensures Names() == old(Names())[i := old(Names())[i].(nlink := old(Names())[i].nlink - 1)]
    {
      hide FS.Disks.Ready, Files, Dirents.Nodes, DirsWhole, DataKept;
      At(i);
      SetLinks(i, disk.dinodes[i].nlink - 1);
      KeptTwice(files0, old(disk.Contained()), disk.Contained());
    }

    /** sys_unlink (kernel/sysfile.c:164-211). When busy, other references keep the inode in use for now. */
    method Unlink(start: nat, path: seq<NT.Name>, busy: bool, ghost place: map<nat, NT.Place>) returns (r: NT.Ret)
      requires Ready() && NT.Inv(Names(), place) && start in place
      modifies disk.sectors, disk.dinodes, disk`owner
      ensures !r.Stopped? && Ready() && Names() == NT.RemoveNodes(old(Names()), start, path, busy)
      ensures DataLeft(old(disk.Contained()), disk.Contained())
      ensures var i := NT.Namei(old(Names()), start, path);
              if path == [] || path[|path| - 1] == "." || path[|path| - 1] == ".." || i.None? then r.Fail?
              else i.value < |old(Names())| && r == if old(Names())[i.value].typ == T_DIR
                                                       && !NT.EmptyDir(old(Names())[i.value].ents) then NT.Fail
                                                    else NT.Ok(i.value)
    {
      hide FS.Disks.Ready, Files, Dirents.Nodes, DirsWhole, NT.Lookup, NT.UnlinkNodes, NT.Inv;
      ghost var nodes0 := Names();
      NT.StartOk(nodes0, place, start);
      NT.PathStaysLinked(nodes0, place, start, path);
      if path != [] { NT.NameiByParent(nodes0, start, path); }
      var parent := WalkParent(start, path);
      if parent.None? { return NT.Fail; }
      var dp, name := parent.value, path[|path| - 1];
      if name == "." || name == ".." { return NT.Fail; }
      At(dp);
      var k, ip := Dirlookup(dp, name);
      if k >= disk.dinodes[dp].size / 16 { return NT.Fail; }
      NT.UnlinkFacts(nodes0, place, dp, name);
      At(ip);
      if disk.dinodes[ip].nlink < 1 { return NT.Stopped; }
      if disk.dinodes[ip].typ == T_DIR {
        var empty := Isdirempty(ip);
        if !empty { return NT.Fail; }
        At(dp);
        At(ip);
      }
      Clear(dp, k, ip, busy);
      r := NT.Ok(ip);
    }

    ghost function View(): System
      reads this, disk, disk.sectors, disk.dinodes
    {
      System(NT.World(Names(), cwds), Data(disk.Contained()), disk.Capacity())
    }

    /** Between two calls: the disk is consistent, the names are a tree with right counts, and every process is in a
        directory. */
    ghost predicate Settled(place: map<nat, NT.Place>)
      reads this, disk, disk.sectors, disk.dinodes
    {
      Ready() && NT.Inv(Names(), place) && NT.Housed(Names(), cwds)
    }

    lemma Typed()
      requires Ready()
      ensures forall i | 0 <= i < |disk.Contained()| && disk.Contained()[i].File? :: disk.Contained()[i].typ != 0
    {
      forall i | 0 <= i < disk.dinodes.Length && disk.Contained()[i].File?
        ensures disk.Contained()[i].typ != 0
      {
        At(i);
      }
    }

    /** The path is relative and the directory it starts in has been removed. */
    predicate Lost(who: nat, path: NT.Path)
      reads this, disk, disk.dinodes
    {
      !path.rooted && who < |cwds| && cwds[who] < disk.dinodes.Length && disk.dinodes[cwds[who]].nlink == 0
    }

    predicate StartsLost(op: NT.Op)
      reads this, disk, disk.dinodes
    {
      match op
      case Make(who, path, typ) => Lost(who, path)
      case Join(who, oldPath, path) => Lost(who, oldPath) || Lost(who, path)
      case Remove(who, path, busy) => Lost(who, path)
      case Chdir(who, path, busy) => Lost(who, path)
      case Drop(ip) => false
    }

    /** The count on disk is the count of the node. */
    lemma LostSeen(place: map<nat, NT.Place>, op: NT.Op)
      requires Settled(place)
      ensures forall who: nat, path: NT.Path :: Lost(who, path) <==> View().world.Lost(who, path)
      ensures StartsLost(op) <==> View().world.StartsLost(op)
    {
      hide FS.Disks.Ready, NT.Inv, Dirents.Nodes, Data;
      forall who: nat, path: NT.Path
        ensures Lost(who, path) <==> View().world.Lost(who, path)
      {
        if who < |cwds| {
          assert cwds[who] in cwds;
          At(cwds[who]);
        }
      }
    }

    /** A call on names, told by what it leaves. */
    method PerformName(op: NT.Op, major: int, minor: int, ghost place: map<nat, NT.Place>) returns (ok: bool)
      requires Settled(place) && Proper(Name(op, major, minor))
      modifies this`cwds, disk.sectors, disk.dinodes, disk`owner
      ensures !ok ==>
                && (op.Make? || op.Join?) && !old(View()).world.StartsLost(op)
                && old(View().world.Stepped(op).None? || Over(View().world.Stepped(op).value.nodes))
      ensures ok ==>
                && Ready() && Some(NT.World(Names(), cwds)) == old(View()).world.Stepped(op)
                && DataNow(old(disk.Contained()), disk.Contained(), major, minor)
    {
      hide FS.Disks.Ready, Files, Dirents.Nodes, DirsWhole, DataKept, DataLeft, DataMade, DataNow, Data, NT.Inv,
          NT.Namei, NT.MakeNodes, NT.JoinNodes, NT.RemoveNodes, Taken, NT.DropNodes;
      ghost var files0 := disk.Contained();
      KeptSame(files0);
      KeptIsNow(files0, files0, major, minor);
      LostSeen(place, op);
      ok := true;
      if StartsLost(op) { return; }
      match op {
        case Make(who, path, typ) =>
          if typ != 0 {
            var r := Create(Start(who, path), path.names, typ, major, minor);
            ok := !r.Stopped?;
            if ok { MadeIsNow(files0, disk.Contained(), major, minor); }
          }
        case Join(who, oldPath, path) =>
          InUse(place, who, oldPath);
          var r := Link(Start(who, oldPath), oldPath.names, Start(who, path), path.names);
          ok := !r.Stopped?;
          if ok { KeptIsNow(files0, disk.Contained(), major, minor); }
        case Remove(who, path, busy) =>
          Remove(who, path, busy, place);
          LeftIsNow(files0, disk.Contained(), major, minor);
        case Chdir(who, path, busy) =>
          Chdir(who, path, busy, place);
          LeftIsNow(files0, disk.Contained(), major, minor);
        case Drop(ip) =>
          PerformDrop(ip);
          LeftIsNow(files0, disk.Contained(), major, minor);
      }
    }

    function Start(who: nat, path: NT.Path): nat
      reads this
    {
      if path.rooted || who >= |cwds| then ROOT else cwds[who]
    }

    /** Paths that start in the tree lead to inodes in use. */
    lemma InUse(place: map<nat, NT.Place>, who: nat, path: NT.Path)
      requires Settled(place) && !View().world.Lost(who, path)
      ensures var start := Start(who, path);
              start in place && (NT.Namei(Names(), start, path.names).Some? ==>
                var i := NT.Namei(Names(), start, path.names).value; i < |Names()| && Names()[i].typ != 0)
    {
      hide FS.Disks.Ready, NT.Inv, Dirents.Nodes, Data;
      NT.StartLinked(View().world, place, who, path);
      NT.StartOk(Names(), place, Start(who, path));
      NT.PathStaysLinked(Names(), place, Start(who, path), path.names);
    }

    /** sys_unlink; who sits in what is removed keeps its inode in use. */
    method Remove(who: nat, path: NT.Path, busy: bool, ghost place: map<nat, NT.Place>)
      requires Settled(place) && !View().world.Lost(who, path)
      modifies disk.sectors, disk.dinodes, disk`owner
      ensures Ready() && Some(NT.World(Names(), cwds)) == old(View()).world.Stepped(NT.Remove(who, path, busy))
      ensures DataLeft(old(disk.Contained()), disk.Contained())
    {
      hide FS.Disks.Ready, Files, Dirents.Nodes, DirsWhole, DataKept, DataLeft, Data, NT.Inv, NT.Namei, NT.RemoveNodes;
      InUse(place, who, path);
      var target := Walk(Start(who, path), path.names);
      var r := Unlink(Start(who, path), path.names, busy || (target.Some? && target.value in cwds), place);
    }

    /** sys_chdir (kernel/sysfile.c:326-342); the last directory is given up. */
    method Chdir(who: nat, path: NT.Path, busy: bool, ghost place: map<nat, NT.Place>)
      requires Settled(place) && !View().world.Lost(who, path)
      modifies this`cwds, disk.sectors, disk.dinodes, disk`owner
      ensures Ready() && DataLeft(old(disk.Contained()), disk.Contained())
      ensures Some(NT.World(Names(), cwds)) == old(View()).world.Stepped(NT.Chdir(who, path, busy))
    {
      hide FS.Disks.Ready, Files, Dirents.Nodes, DirsWhole, Data, DataKept, DataLeft, NT.Namei, NT.Inv, NT.DropNodes;
      ghost var files0, nodes0 := disk.Contained(), Names();
      KeptSame(files0);
      KeptIsLeft(files0, files0);
      if who >= |cwds| { return; }
      var ip := Walk(Start(who, path), path.names);
      if ip.None? || ip.value >= disk.dinodes.Length { return; }
      At(ip.value);
      if disk.dinodes[ip.value].typ != T_DIR { return; }
      var last := cwds[who];
      cwds := cwds[who := ip.value];
      if !busy { PerformDrop(last); }
    }

    /** The last reference to an inode dropped, if it is nobody's current directory. */
    method PerformDrop(ip: nat)
      requires Ready()
      modifies disk.sectors, disk.dinodes, disk`owner
      ensures Ready() && DataLeft(old(disk.Contained()), disk.Contained())
      ensures Names() == if ip in cwds then old(Names()) else NT.DropNodes(old(Names()), ip)
    {
      hide FS.Disks.Ready, Files, Dirents.Nodes, DirsWhole, DataKept, DataLeft, Data;
      KeptSame(disk.Contained());
      KeptIsLeft(disk.Contained(), disk.Contained());
      if 1 <= ip < disk.dinodes.Length && ip !in cwds {
        At(ip);
        if disk.dinodes[ip].typ != 0 { Drop(ip); }
      }
    }

    /** sys_write on an open plain file, at an offset. */
    method PerformPut(inum: nat, off: nat, src: seq<Byte>) returns (ok: bool)
      requires Ready()
      modifies disk.sectors, disk.dinodes, disk`owner
      ensures ok <==> old(View()).Stepped(Put(inum, off, src)).Some?
      ensures ok ==> Ready() && Some(View()) == old(View()).Stepped(Put(inum, off, src))
                     && Names() == old(Names())
    {
      hide FS.Disks.Ready, Files, Dirents.NodeOf, Dirents.Entries, DirsWhole, FS.Stepped, FileSplice, Held, Taken;
      ok := true;
      Room();
      if inum >= disk.dinodes.Length || off >= WORD || |src| >= WORD { return; }
      At(inum);
      var typ := disk.dinodes[inum].typ;
      if typ == 0 || typ == T_DIR { return; }
      PutSeen(disk.Contained(), inum, off, src, cwds, disk.Capacity());
      TakenIsHeld(FS.Stepped(disk.Contained(), FS.Write(inum, off, src)));
      PutKeepsNames(View(), inum, off, src);
      var n;
      ok, n := disk.PerformWrite(inum, off, src);
    }

    /** sys_read on an open plain file, at an offset. */
    method PerformGet(inum: nat, off: nat, n: nat) returns (out: seq<Byte>)
      requires Ready()
      modifies disk.sectors, disk.dinodes, disk`owner
      ensures Ready() && View() == old(View()) && out == old(View()).Answer(Get(inum, off, n))
    {
      hide FS.Disks.Ready, Files, Dirents.NodeOf, Dirents.Entries, DirsWhole, FS.Answer;
      out := [];
      if inum >= disk.dinodes.Length || off >= WORD || n >= WORD { return; }
      At(inum);
      var typ := disk.dinodes[inum].typ;
      if typ == 0 || typ == T_DIR { return; }
      GetSeen(disk.Contained(), inum, off, n, cwds, disk.Capacity());
      out := disk.PerformRead(inum, off, n);
    }

    /** One call. place says where the directories hang, before and after. */
    method Perform(call: Call, ghost place: map<nat, NT.Place>)
        returns (ok: bool, out: seq<Byte>, ghost place': map<nat, NT.Place>)
      requires Settled(place) && Proper(call)
      modifies this`cwds, disk.sectors, disk.dinodes, disk`owner
      ensures ok <==> old(View()).Stepped(call).Some?
      ensures ok ==> Settled(place') && Some(View()) == old(View()).Stepped(call) && out == old(View()).Answer(call)
    {
      hide FS.Disks.Ready, Files, Dirents.Nodes, DirsWhole, DataNow, Data, NT.Inv, NT.World.Stepped, Taken, Now;
      out, place' := [], place;
      match call {
        case Name(op, major, minor) =>
          ghost var files0, w := disk.Contained(), View().world;
          Typed();
          ok := PerformName(op, major, minor, place);
          if ok {
            Typed();
            DataAfter(files0, disk.Contained(), major, minor);
            Room();
            place' := NT.StepKeepsTree(w, place, op);
          } else if w.Stepped(op).Some? {
            NothingLost(files0, w, op, major, minor);
          }
        case Put(inum, off, src) =>
          ok := PerformPut(inum, off, src);
          if ok { SameTree(old(Names()), Names(), place); }
        case Get(inum, off, n) =>
          ok := true;
          Room();
          out := PerformGet(inum, off, n);
      }
    }

    /** Any run of the calls on a settled system: whatever happens to blocks, bitmap, inodes and records, what a process
        sees is the run on names and bytes, and the names stay a tree with right link counts. Whether it ends early, and
        where, is settled there too: at the first call that needs an inode, an entry or a block more than there are. */
    method Run(calls: seq<Call>, ghost place: map<nat, NT.Place>)
        returns (ok: bool, done: nat, out: seq<seq<Byte>>, ghost place': map<nat, NT.Place>)
      requires Settled(place) && forall k | 0 <= k < |calls| :: Proper(calls[k])
      modifies this`cwds, disk.sectors, disk.dinodes, disk`owner
      ensures ok <==> old(View()).Ran(calls).Some?
      ensures done <= |calls| && old(View()).Ran(calls[..done]).Some? && out == old(View()).Answers(calls[..done])
      ensures ok ==> done == |calls| && Settled(place') && Some(View()) == old(View()).Ran(calls)
      ensures !ok ==> done < |calls| && old(View()).Ran(calls[..done]).value.Stepped(calls[done]).None?
    {
      hide Settled, Proper, System.Stepped, System.Answer, FS.Disks.Contained;
      ok, done, out, place' := true, 0, [], place;
      while done < |calls|
        invariant done <= |calls| && Settled(place')
        invariant Some(View()) == old(View()).Ran(calls[..done]) && out == old(View()).Answers(calls[..done])
      {
        assert calls[..done + 1][..done] == calls[..done];
        var bytes;
        ok, bytes, place' := Perform(calls[done], place');
        if !ok {
          StopsForGood(old(View()), calls, done + 1);
          return;
        }
        out := out + [bytes];
        done := done + 1;
      }
      assert calls[..done] == calls;
    }
  }
}

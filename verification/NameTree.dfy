/** Directories and link counts: the system calls of kernel/sysfile.c over the directory
    layer of kernel/fs.c. */
module NameTree {
  import opened Common

  /** A directory file holds at most MAXFILE * BSIZE / 16 entries. */
  const MAXENTS: nat := 4480

  type Name = string

  /** struct dirent; inum 0 is a free entry. */
  datatype Dirent = Dirent(inum: nat, name: Name)

  /** An inode as this layer sees it: type 0 is a free inode. */
  datatype Node = Node(typ: int, nlink: int, ents: seq<Dirent>)

  // ---------- counting names ----------

  /** Entries other than "." that name inode i. */
  function Count(ents: seq<Dirent>, i: nat): nat {
    if |ents| <= 1 then 0
    else Count(ents[..|ents| - 1], i) + if ents[|ents| - 1].inum == i then 1 else 0
  }

  /** The same over the first n inodes, those that are linked directories. */
  function CountAll(nodes: seq<Node>, linked: set<nat>, i: nat, n: nat): nat
    requires n <= |nodes|
  {
    if n == 0 then 0
    else CountAll(nodes, linked, i, n - 1) + if n - 1 in linked then Count(nodes[n - 1].ents, i) else 0
  }

  /** Number of entries other than "." in linked directories that name inode i. */
  function Links(nodes: seq<Node>, linked: set<nat>, i: nat): nat {
    CountAll(nodes, linked, i, |nodes|)
  }

  lemma {:induction false} CountUpdate(ents: seq<Dirent>, k: nat, e: Dirent, i: nat)
    requires 1 <= k < |ents|
    ensures Count(ents[k := e], i) + (if ents[k].inum == i then 1 else 0) == Count(ents, i) + if e.inum == i then 1
                                                                                              else 0
  {
    var n := |ents| - 1;
    if k < n {
      assert ents[k := e][..n] == ents[..n][k := e];
      CountUpdate(ents[..n], k, e, i);
    } else {
      assert ents[k := e][..n] == ents[..n];
    }
  }

  lemma {:induction false} CountNone(ents: seq<Dirent>, i: nat)
    requires forall k | 1 <= k < |ents| :: ents[k].inum != i
    ensures Count(ents, i) == 0
  {
    if |ents| > 1 { CountNone(ents[..|ents| - 1], i); }
  }

  lemma {:induction false} CountSome(ents: seq<Dirent>, k: nat, i: nat)
    requires 1 <= k < |ents| && ents[k].inum == i
    ensures Count(ents, i) >= 1
  {
    if k < |ents| - 1 { CountSome(ents[..|ents| - 1], k, i); }
  }

  /** An empty directory names only its parent. */
  lemma {:induction false} CountEmptyDir(ents: seq<Dirent>, i: nat)
    requires |ents| >= 2 && i != 0 && forall k | 2 <= k < |ents| :: ents[k].inum == 0
    ensures Count(ents, i) == if ents[1].inum == i then 1 else 0
  {
    if |ents| > 2 { CountEmptyDir(ents[..|ents| - 1], i); }
  }

  lemma {:induction false} CountAllUpdate(nodes: seq<Node>, linked: set<nat>, d: nat, node: Node, i: nat, n: nat)
    requires d < |nodes| && n <= |nodes|
    ensures CountAll(nodes[d := node], linked, i, n) + (if d in linked && d < n then Count(nodes[d].ents, i) else 0)
         == CountAll(nodes, linked, i, n) + if d in linked && d < n then Count(node.ents, i) else 0
  {
    if n > 0 { CountAllUpdate(nodes, linked, d, node, i, n - 1); }
  }

  lemma {:induction false} CountAllLink(nodes: seq<Node>, linked: set<nat>, d: nat, i: nat, n: nat)
    requires d !in linked && d < |nodes| && n <= |nodes|
    ensures CountAll(nodes, linked + {d}, i, n) == CountAll(nodes, linked, i, n) + if d < n
                                                                                   then Count(nodes[d].ents, i) else 0
  {
    if n > 0 { CountAllLink(nodes, linked, d, i, n - 1); }
  }

  lemma {:induction false} CountAllNone(nodes: seq<Node>, linked: set<nat>, i: nat, n: nat)
    requires n <= |nodes|
    requires forall d, k | d in linked && d < |nodes| && 1 <= k < |nodes[d].ents| :: nodes[d].ents[k].inum != i
    ensures CountAll(nodes, linked, i, n) == 0
  {
    if n > 0 {
      CountAllNone(nodes, linked, i, n - 1);
      if n - 1 in linked { CountNone(nodes[n - 1].ents, i); }
    }
  }

  lemma {:induction false} CountAllSome(nodes: seq<Node>, linked: set<nat>, d: nat, k: nat, i: nat, n: nat)
    requires d in linked && d < n <= |nodes| && 1 <= k < |nodes[d].ents| && nodes[d].ents[k].inum == i
    ensures CountAll(nodes, linked, i, n) >= 1
  {
    if d == n - 1 { CountSome(nodes[d].ents, k, i); } else { CountAllSome(nodes, linked, d, k, i, n - 1); }
  }

  // ---------- the shape of the tree ----------

  /** Where a linked directory hangs: its distance from the root and its slot in the parent. */
  datatype Place = Place(depth: nat, slot: nat)

  ghost predicate DirOk(nodes: seq<Node>, place: map<nat, Place>, d: nat)
    requires d in place
  {
    && 1 <= d < |nodes| && nodes[d].typ == T_DIR && |nodes[d].ents| >= 2
    && nodes[d].ents[0] == Dirent(d, ".") && nodes[d].ents[1].name == ".."
    && var p := nodes[d].ents[1].inum;
       if d == ROOT then p == ROOT && place[d].depth == 0
       else p in place && p < |nodes| && place[d].depth == place[p].depth + 1
            && 2 <= place[d].slot < |nodes[p].ents| && nodes[p].ents[place[d].slot].inum == d
  }

  /** An ordinary entry names an inode in use; a directory only from the place it hangs at. */
  ghost predicate EntryOk(nodes: seq<Node>, place: map<nat, Place>, d: nat, k: nat)
    requires d < |nodes| && k < |nodes[d].ents|
  {
    var c := nodes[d].ents[k].inum;
    c != 0 ==>
      && c < |nodes| && nodes[c].typ != 0
      && nodes[d].ents[k].name != "." && nodes[d].ents[k].name != ".."
      && (nodes[c].typ == T_DIR ==>
           c != ROOT && c in place && |nodes[c].ents| >= 2 && nodes[c].ents[1].inum == d && place[c].slot == k)
  }

  ghost predicate NamesDiffer(ents: seq<Dirent>) {
    forall k, l | 0 <= k < l < |ents| && ents[k].inum != 0 && ents[l].inum != 0 :: ents[k].name != ents[l].name
  }

  /** The linked directories, the keys of place, form a tree; names in a directory differ. */
  ghost predicate Shape(nodes: seq<Node>, place: map<nat, Place>) {
    && ROOT in place
    && (forall d {:trigger DirOk(nodes, place, d)} | d in place :: DirOk(nodes, place, d))
    && (forall d, k {:trigger EntryOk(nodes, place, d, k)} | d in place && d < |nodes| && 2 <= k < |nodes[d].ents| ::
          EntryOk(nodes, place, d, k))
    && (forall d {:trigger NamesDiffer(nodes[d].ents)} | d in place && d < |nodes| :: NamesDiffer(nodes[d].ents))
  }

  /** Every inode's link count is the number of entries that name it. */
  ghost predicate Counted(nodes: seq<Node>, linked: set<nat>) {
    forall i | 1 <= i < |nodes| && nodes[i].typ != 0 :: nodes[i].nlink == Links(nodes, linked, i)
  }

  ghost predicate Inv(nodes: seq<Node>, place: map<nat, Place>) {
    Shape(nodes, place) && Counted(nodes, place.Keys)
  }

  /** The directory n steps up from d. */
  function Up(nodes: seq<Node>, d: nat, n: nat): nat
    decreases n
  {
    if n == 0 || d >= |nodes| || |nodes[d].ents| < 2 then d else Up(nodes, nodes[d].ents[1].inum, n - 1)
  }

  lemma Parent(nodes: seq<Node>, place: map<nat, Place>, d: nat)
    requires Shape(nodes, place) && d in place
    ensures 1 <= d < |nodes| && |nodes[d].ents| >= 2
    ensures d == ROOT ==> place[d].depth == 0
    ensures d != ROOT ==> nodes[d].ents[1].inum in place && place[d].depth == place[nodes[d].ents[1].inum].depth + 1
  {
    assert DirOk(nodes, place, d);
  }

  /** Following ".." from any linked directory leads to the root, in exactly depth steps. */
  lemma {:induction false} UpToRoot(nodes: seq<Node>, place: map<nat, Place>, d: nat)
    requires Shape(nodes, place) && d in place
    ensures Up(nodes, d, place[d].depth) == ROOT
    ensures forall n | 0 <= n < place[d].depth :: Up(nodes, d, n) != ROOT && Up(nodes, d, n) in place
    decreases place[d].depth
  {
    hide Shape;
    Parent(nodes, place, d);
    if d != ROOT {
      var p := nodes[d].ents[1].inum;
      UpToRoot(nodes, place, p);
      forall n | 0 <= n < place[d].depth
        ensures Up(nodes, d, n) != ROOT && Up(nodes, d, n) in place
      {
        if n > 0 {
          assert Up(nodes, d, n) == Up(nodes, p, n - 1);
          assert 0 <= n - 1 < place[p].depth;
        }
      }
    }
  }

  /** A linked directory other than the root is named by exactly one entry, in the directory its ".." names. */
  lemma OneName(nodes: seq<Node>, place: map<nat, Place>, c: nat, d: nat, k: nat)
    requires Shape(nodes, place) && c in place && c != ROOT && d in place && d < |nodes| && 2 <= k < |nodes[d].ents|
    ensures c < |nodes|
    ensures nodes[d].ents[k].inum == c <==> |nodes[c].ents| >= 2 && d == nodes[c].ents[1].inum && k == place[c].slot
  {
    assert DirOk(nodes, place, c) && EntryOk(nodes, place, d, k);
  }

  // ---------- looking names up ----------

  /** dirlookup's scan: the first entry in use with that name. */
  function Lookup(ents: seq<Dirent>, name: Name, k: nat): (r: nat)
    requires k <= |ents|
    ensures k <= r <= |ents|
    ensures r < |ents| ==> ents[r].inum != 0 && ents[r].name == name
    ensures forall l | k <= l < r :: ents[l].inum == 0 || ents[l].name != name
    decreases |ents| - k
  {
    if k == |ents| || (ents[k].inum != 0 && ents[k].name == name) then k else Lookup(ents, name, k + 1)
  }

  /** namex (kernel/fs.c:567-600) on a path already cut at its slashes: the inode the names lead to. */
  function Namei(nodes: seq<Node>, ip: nat, path: seq<Name>): Option<nat>
    decreases |path|
  {
    if path == [] then Some(ip)
    else if ip >= |nodes| || nodes[ip].typ != T_DIR then None
    else
      var k := Lookup(nodes[ip].ents, path[0], 0);
      if k == |nodes[ip].ents| then None else Namei(nodes, nodes[ip].ents[k].inum, path[1..])
  }

  /** The directory before the last name of the path. */
  function NameiParent(nodes: seq<Node>, ip: nat, path: seq<Name>): (r: Option<nat>)
    ensures r.Some? ==> r.value < |nodes| && nodes[r.value].typ == T_DIR && path != []
    decreases |path|
  {
    if path == [] || ip >= |nodes| || nodes[ip].typ != T_DIR then None
    else if |path| == 1 then Some(ip)
    else
      var k := Lookup(nodes[ip].ents, path[0], 0);
      if k == |nodes[ip].ents| then None else NameiParent(nodes, nodes[ip].ents[k].inum, path[1..])
  }

  /** What any entry of a linked directory names: a linked directory or a file in use. */
  lemma EntryLeads(nodes: seq<Node>, place: map<nat, Place>, d: nat, k: nat)
    requires Shape(nodes, place) && d in place && d < |nodes| && k < |nodes[d].ents| && nodes[d].ents[k].inum != 0
    ensures nodes[d].ents[k].inum < |nodes| && nodes[nodes[d].ents[k].inum].typ != 0
    ensures nodes[nodes[d].ents[k].inum].typ == T_DIR ==> nodes[d].ents[k].inum in place
  {
    assert DirOk(nodes, place, d);
    if k == 1 { assert DirOk(nodes, place, nodes[d].ents[1].inum); }
    if k >= 2 { assert EntryOk(nodes, place, d, k); }
  }

  /** Walking a path from a linked directory never leaves the linked tree. */
  lemma {:induction false} PathStaysLinked(nodes: seq<Node>, place: map<nat, Place>, ip: nat, path: seq<Name>)
    requires Shape(nodes, place) && ip < |nodes| && nodes[ip].typ != 0 && (nodes[ip].typ == T_DIR ==> ip in place)
    ensures Namei(nodes, ip, path).Some? ==>
              var i := Namei(nodes, ip, path).value;
              i < |nodes| && nodes[i].typ != 0 && (nodes[i].typ == T_DIR ==> i in place)
    ensures NameiParent(nodes, ip, path).Some? ==> NameiParent(nodes, ip, path).value in place
    decreases |path|
  {
    hide Shape;
    if path != [] && nodes[ip].typ == T_DIR {
      var k := Lookup(nodes[ip].ents, path[0], 0);
      if k < |nodes[ip].ents| {
        EntryLeads(nodes, place, ip, k);
        PathStaysLinked(nodes, place, nodes[ip].ents[k].inum, path[1..]);
      }
    }
  }

  // ---------- one change at a time ----------

  /** dirlink's search for an empty entry; |ents| means the entry is added at the end. */
  function FreeSlot(ents: seq<Dirent>, k: nat): (r: nat)
    requires k <= |ents|
    ensures k <= r <= |ents|
    ensures r < |ents| ==> ents[r].inum == 0
    ensures forall l | k <= l < r :: ents[l].inum != 0
    decreases |ents| - k
  {
    if k == |ents| || ents[k].inum == 0 then k else FreeSlot(ents, k + 1)
  }

  function PutAt(ents: seq<Dirent>, k: nat, e: Dirent): (r: seq<Dirent>)
    requires k <= |ents|
    ensures |r| == (if k < |ents| then |ents| else |ents| + 1) && r[k] == e
    ensures forall l | 0 <= l < |ents| && l != k :: r[l] == ents[l]
  {
    if k < |ents| then ents[k := e] else ents + [e]
  }

  lemma CountPut(ents: seq<Dirent>, k: nat, e: Dirent, i: nat)
    requires 1 <= k <= |ents| && (k < |ents| ==> ents[k].inum == 0) && i != 0
    ensures Count(PutAt(ents, k, e), i) == Count(ents, i) + if e.inum == i then 1 else 0
  {
    if k < |ents| {
      CountUpdate(ents, k, e, i);
    } else {
      assert (ents + [e])[..|ents|] == ents;
    }
  }

  /** No linked directory names c. */
  ghost predicate Unnamed(nodes: seq<Node>, place: map<nat, Place>, c: nat) {
    forall d, k | d in place && d < |nodes| && 1 <= k < |nodes[d].ents| :: nodes[d].ents[k].inum != c
  }

  /** The same nodes but for link counts. */
  ghost predicate SameButCounts(nodes: seq<Node>, nodes': seq<Node>) {
    && |nodes'| == |nodes|
    && forall i | 0 <= i < |nodes| :: nodes'[i] == nodes[i].(nlink := nodes'[i].nlink)
  }

  lemma {:induction false} CountsAside(nodes: seq<Node>, nodes': seq<Node>, linked: set<nat>, i: nat, n: nat)
    requires SameButCounts(nodes, nodes') && n <= |nodes|
    ensures CountAll(nodes', linked, i, n) == CountAll(nodes, linked, i, n)
  {
    if n > 0 { CountsAside(nodes, nodes', linked, i, n - 1); }
  }

  lemma ShapeAside(nodes: seq<Node>, nodes': seq<Node>, place: map<nat, Place>)
    requires Shape(nodes, place) && SameButCounts(nodes, nodes')
    ensures Shape(nodes', place)
    ensures forall i: nat :: Links(nodes', place.Keys, i) == Links(nodes, place.Keys, i)
  {
    forall d | d in place
      ensures DirOk(nodes', place, d)
    {
      assert DirOk(nodes, place, d);
    }
    forall d, k | d in place && d < |nodes| && 2 <= k < |nodes'[d].ents|
      ensures EntryOk(nodes', place, d, k)
    {
      assert EntryOk(nodes, place, d, k);
    }
    forall d | d in place && d < |nodes|
      ensures NamesDiffer(nodes'[d].ents)
    {
      assert NamesDiffer(nodes[d].ents);
    }
    forall i: nat
      ensures Links(nodes', place.Keys, i) == Links(nodes, place.Keys, i)
    {
      CountsAside(nodes, nodes', place.Keys, i, |nodes|);
    }
  }

  /** An inode that no linked directory names, and that is not linked itself, may become anything. */
  lemma Replace(nodes: seq<Node>, place: map<nat, Place>, c: nat, node: Node)
    requires Shape(nodes, place) && c < |nodes| && c !in place && Unnamed(nodes, place, c)
    ensures Shape(nodes[c := node], place) && Unnamed(nodes[c := node], place, c)
    ensures forall i: nat :: Links(nodes[c := node], place.Keys, i) == Links(nodes, place.Keys, i)
  {
    var nodes' := nodes[c := node];
    forall d | d in place
      ensures DirOk(nodes', place, d)
    {
      assert DirOk(nodes, place, d);
    }
    forall d, k | d in place && d < |nodes| && 2 <= k < |nodes'[d].ents|
      ensures EntryOk(nodes', place, d, k)
    {
      assert EntryOk(nodes, place, d, k);
    }
    forall d | d in place && d < |nodes|
      ensures NamesDiffer(nodes'[d].ents)
    {
      assert NamesDiffer(nodes[d].ents);
    }
    forall i: nat
      ensures Links(nodes', place.Keys, i) == Links(nodes, place.Keys, i)
    {
      CountAllUpdate(nodes, place.Keys, c, node, i, |nodes|);
    }
  }

  /** Slot k of dp is free and receives the name of inode c, a name not there before. */
  ghost predicate Names(nodes: seq<Node>, place: map<nat, Place>, dp: nat, k: nat, name: Name, c: nat,
                        nodes': seq<Node>) {
    && dp in place && dp < |nodes| && 2 <= k <= |nodes[dp].ents|
         && (k < |nodes[dp].ents| ==> nodes[dp].ents[k].inum == 0)
    && Lookup(nodes[dp].ents, name, 0) == |nodes[dp].ents|
    && 1 <= c < |nodes| && nodes[c].typ != 0
    && nodes' == nodes[dp := nodes[dp].(ents := PutAt(nodes[dp].ents, k, Dirent(c, name)))]
  }

  /** A new entry, in an empty slot, for a file. */
  lemma NameFile(nodes: seq<Node>, place: map<nat, Place>, dp: nat, k: nat, name: Name, c: nat, nodes': seq<Node>)
    requires Shape(nodes, place) && Names(nodes, place, dp, k, name, c, nodes') && nodes[c].typ != T_DIR
    ensures Shape(nodes', place)
  {
    NamedDirs(nodes, place, dp, k, name, c, nodes', place);
    NamedDiffer(nodes, place, dp, k, name, c, nodes');
    NewNameDiffers(nodes, place, dp, name);
    forall d, l | d in place && d < |nodes| && 2 <= l < |nodes'[d].ents|
      ensures EntryOk(nodes', place, d, l)
    {
      if d != dp || l != k { assert EntryOk(nodes, place, d, l); }
    }
  }

  lemma NamedDirs(nodes: seq<Node>, place: map<nat, Place>, dp: nat, k: nat, name: Name, c: nat, nodes': seq<Node>,
                  place': map<nat, Place>)
    requires Shape(nodes, place) && Names(nodes, place, dp, k, name, c, nodes')
    requires place.Keys <= place'.Keys && forall d | d in place :: place'[d] == place[d]
    ensures forall d | d in place :: DirOk(nodes', place', d)
  {
    forall d | d in place
      ensures DirOk(nodes', place', d)
    {
      assert DirOk(nodes, place, d) && DirOk(nodes, place, dp);
    }
  }

  lemma NamedDiffer(nodes: seq<Node>, place: map<nat, Place>, dp: nat, k: nat, name: Name, c: nat, nodes': seq<Node>)
    requires Shape(nodes, place) && Names(nodes, place, dp, k, name, c, nodes')
    ensures forall d | d in place && d < |nodes'| :: NamesDiffer(nodes'[d].ents)
  {
    NewNameDiffers(nodes, place, dp, name);
    forall d | d in place && d < |nodes|
      ensures NamesDiffer(nodes'[d].ents)
    {
      assert NamesDiffer(nodes[d].ents);
    }
  }

  lemma NameFileLinks(nodes: seq<Node>, place: map<nat, Place>, dp: nat, k: nat, name: Name, c: nat, nodes': seq<Node>,
                      i: nat)
    requires Names(nodes, place, dp, k, name, c, nodes') && i != 0
    ensures Links(nodes', place.Keys, i) == Links(nodes, place.Keys, i) + if i == c then 1 else 0
  {
    CountAllUpdate(nodes, place.Keys, dp, nodes'[dp], i, |nodes|);
    CountPut(nodes[dp].ents, k, Dirent(c, name), i);
  }

  lemma NewNameDiffers(nodes: seq<Node>, place: map<nat, Place>, dp: nat, name: Name)
    requires Shape(nodes, place) && dp in place && dp < |nodes|
    requires Lookup(nodes[dp].ents, name, 0) == |nodes[dp].ents|
    ensures name != "." && name != ".."
    ensures forall l | 0 <= l < |nodes[dp].ents| && nodes[dp].ents[l].inum != 0 :: nodes[dp].ents[l].name != name
  {
    assert DirOk(nodes, place, dp);
    assert nodes[dp].ents[1].inum != 0 by {
      if dp != ROOT { assert DirOk(nodes, place, nodes[dp].ents[1].inum); }
    }
  }

  /** A new entry for a new directory c, which until now nobody names. */
  lemma NameDir(nodes: seq<Node>, place: map<nat, Place>, dp: nat, k: nat, name: Name, c: nat, nodes': seq<Node>,
                place': map<nat, Place>)
    requires Shape(nodes, place) && Names(nodes, place, dp, k, name, c, nodes')
    requires c !in place && Unnamed(nodes, place, c)
    requires nodes[c].typ == T_DIR && nodes[c].ents == [Dirent(c, "."), Dirent(dp, "..")]
    requires place' == place[c := Place(place[dp].depth + 1, k)]
    ensures Shape(nodes', place')
  {
    hide EntryOk, Lookup;
    NamedDirs(nodes, place, dp, k, name, c, nodes', place');
    NamedDiffer(nodes, place, dp, k, name, c, nodes');
    NameDirEntries(nodes, place, dp, k, name, c, nodes', place');
    NameDirPlaced(nodes, place, dp, k, name, c, nodes', place');
  }

  lemma NameDirPlaced(nodes: seq<Node>, place: map<nat, Place>, dp: nat, k: nat, name: Name, c: nat, nodes': seq<Node>,
                      place': map<nat, Place>)
    requires Shape(nodes, place) && Names(nodes, place, dp, k, name, c, nodes')
    requires c !in place && Unnamed(nodes, place, c)
    requires nodes[c].typ == T_DIR && nodes[c].ents == [Dirent(c, "."), Dirent(dp, "..")]
    requires place' == place[c := Place(place[dp].depth + 1, k)]
    ensures DirOk(nodes', place', c) && NamesDiffer(nodes'[c].ents)
  {
    hide EntryOk, Lookup;
  }

  lemma NameDirEntries(nodes: seq<Node>, place: map<nat, Place>, dp: nat, k: nat, name: Name, c: nat,
                       nodes': seq<Node>, place': map<nat, Place>)
    requires Shape(nodes, place) && Names(nodes, place, dp, k, name, c, nodes')
    requires c !in place && Unnamed(nodes, place, c)
    requires nodes[c].typ == T_DIR && nodes[c].ents == [Dirent(c, "."), Dirent(dp, "..")]
    requires place' == place[c := Place(place[dp].depth + 1, k)]
    ensures forall d, l {:trigger EntryOk(nodes', place', d, l)} | d in place' && d < |nodes'|
              && 2 <= l < |nodes'[d].ents| ::
              EntryOk(nodes', place', d, l)
  {
    NewNameDiffers(nodes, place, dp, name);
    forall d, l | d in place' && d < |nodes| && 2 <= l < |nodes'[d].ents|
      ensures EntryOk(nodes', place', d, l)
    {
      if d == dp && l == k {
      } else {
        assert d != c;
        assert EntryOk(nodes, place, d, l) && nodes[d].ents[l].inum != c;
      }
    }
  }

  lemma NameDirLinks(nodes: seq<Node>, place: map<nat, Place>, dp: nat, k: nat, name: Name, c: nat, nodes': seq<Node>,
                     i: nat)
    requires Names(nodes, place, dp, k, name, c, nodes')
    requires c !in place && nodes[c].ents == [Dirent(c, "."), Dirent(dp, "..")]
    requires i != 0
    ensures Links(nodes', place.Keys + {c}, i) ==
            Links(nodes, place.Keys, i) + (if i == c then 1 else 0) + if i == dp then 1 else 0
  {
    CountAllUpdate(nodes, place.Keys, dp, nodes'[dp], i, |nodes|);
    CountPut(nodes[dp].ents, k, Dirent(c, name), i);
    CountAllLink(nodes', place.Keys, c, i, |nodes|);
    CountEmptyDir(nodes'[c].ents, i);
  }

  predicate EmptyDir(ents: seq<Dirent>) {
    forall l | 2 <= l < |ents| :: ents[l].inum == 0
  }

  /** Slot k of dp, an ordinary entry in use, is cleared. */
  ghost predicate Clears(nodes: seq<Node>, place: map<nat, Place>, dp: nat, k: nat, nodes': seq<Node>) {
    && dp in place && dp < |nodes| && 2 <= k < |nodes[dp].ents| && 0 != nodes[dp].ents[k].inum < |nodes|
    && nodes' == nodes[dp := nodes[dp].(ents := nodes[dp].ents[k := Dirent(0, "")])]
  }

  lemma ClearedDiffer(nodes: seq<Node>, place: map<nat, Place>, dp: nat, k: nat, nodes': seq<Node>)
    requires Shape(nodes, place) && Clears(nodes, place, dp, k, nodes')
    ensures forall d | d in place && d < |nodes'| :: NamesDiffer(nodes'[d].ents)
  {
    forall d | d in place && d < |nodes|
      ensures NamesDiffer(nodes'[d].ents)
    {
      assert NamesDiffer(nodes[d].ents);
    }
  }

  /** Clearing the entry of a file. */
  lemma UnnameFile(nodes: seq<Node>, place: map<nat, Place>, dp: nat, k: nat, nodes': seq<Node>)
    requires Shape(nodes, place) && Clears(nodes, place, dp, k, nodes') && nodes[nodes[dp].ents[k].inum].typ != T_DIR
    ensures Shape(nodes', place)
  {
    ClearedDiffer(nodes, place, dp, k, nodes');
    forall d | d in place
      ensures DirOk(nodes', place, d)
    {
      assert DirOk(nodes, place, d) && DirOk(nodes, place, dp);
    }
    forall d, l | d in place && d < |nodes| && 2 <= l < |nodes'[d].ents|
      ensures EntryOk(nodes', place, d, l)
    {
      if d != dp || l != k { assert EntryOk(nodes, place, d, l); }
    }
  }

  lemma UnnameFileLinks(nodes: seq<Node>, place: map<nat, Place>, dp: nat, k: nat, nodes': seq<Node>, i: nat)
    requires Clears(nodes, place, dp, k, nodes') && i != 0
    ensures Links(nodes', place.Keys, i) + (if i == nodes[dp].ents[k].inum then 1 else 0) == Links(nodes, place.Keys, i)
  {
    CountAllUpdate(nodes, place.Keys, dp, nodes'[dp], i, |nodes|);
    CountUpdate(nodes[dp].ents, k, Dirent(0, ""), i);
  }

  /** Entry k of dp names an empty directory, which leaves the tree. */
  ghost predicate Drops(nodes: seq<Node>, place: map<nat, Place>, dp: nat, k: nat, nodes': seq<Node>, place': map<nat,
                        Place>) {
    && Clears(nodes, place, dp, k, nodes')
    && var c := nodes[dp].ents[k].inum;
       && nodes[c].typ == T_DIR && EmptyDir(nodes[c].ents) && place' == place - {c}
  }

  /** Clearing the entry of an empty directory takes it out of the tree. */
  lemma UnnameDir(nodes: seq<Node>, place: map<nat, Place>, dp: nat, k: nat, nodes': seq<Node>, place': map<nat, Place>)
    requires Shape(nodes, place) && Drops(nodes, place, dp, k, nodes', place')
    ensures nodes[dp].ents[k].inum != dp && nodes[dp].ents[k].inum in place
    ensures |nodes[nodes[dp].ents[k].inum].ents| >= 2 && nodes[nodes[dp].ents[k].inum].ents[1].inum == dp
    ensures Shape(nodes', place')
  {
    DroppedDir(nodes, place, dp, k, nodes', place');
    DroppedDirs(nodes, place, dp, k, nodes', place');
    ClearedDiffer(nodes, place, dp, k, nodes');
    DroppedEntries(nodes, place, dp, k, nodes', place');
  }

  lemma DroppedEntries(nodes: seq<Node>, place: map<nat, Place>, dp: nat, k: nat, nodes': seq<Node>, place': map<nat,
                       Place>)
    requires Shape(nodes, place) && Drops(nodes, place, dp, k, nodes', place')
    ensures forall d, l {:trigger EntryOk(nodes', place', d, l)} | d in place' && d < |nodes'|
              && 2 <= l < |nodes'[d].ents| ::
              EntryOk(nodes', place', d, l)
  {
    DroppedDir(nodes, place, dp, k, nodes', place');
    forall d, l | d in place' && d < |nodes| && 2 <= l < |nodes'[d].ents|
      ensures EntryOk(nodes', place', d, l)
    {
      if d != dp || l != k { assert EntryOk(nodes, place, d, l); }
    }
  }

  lemma DroppedDir(nodes: seq<Node>, place: map<nat, Place>, dp: nat, k: nat, nodes': seq<Node>, place': map<nat,
                   Place>)
    requires Shape(nodes, place) && Drops(nodes, place, dp, k, nodes', place')
    ensures var c := nodes[dp].ents[k].inum;
            && c != dp && c != ROOT && c in place && |nodes[c].ents| >= 2 && nodes[c].ents[1].inum == dp
                 && place[c].slot == k
  {
    assert EntryOk(nodes, place, dp, k);
    Parent(nodes, place, nodes[dp].ents[k].inum);
  }

  lemma DroppedDirs(nodes: seq<Node>, place: map<nat, Place>, dp: nat, k: nat, nodes': seq<Node>, place': map<nat,
                    Place>)
    requires Shape(nodes, place) && Drops(nodes, place, dp, k, nodes', place')
    ensures forall d | d in place' :: DirOk(nodes', place', d)
  {
    DroppedDir(nodes, place, dp, k, nodes', place');
    forall d | d in place'
      ensures DirOk(nodes', place', d)
    {
      assert DirOk(nodes, place, d) && DirOk(nodes, place, dp);
      if d != ROOT { assert nodes[nodes[d].ents[1].inum].ents[place[d].slot].inum == d; }
    }
  }

  lemma UnnameDirLinks(nodes: seq<Node>, linked: set<nat>, dp: nat, k: nat, nodes': seq<Node>, i: nat)
    requires dp in linked && dp < |nodes| && 2 <= k < |nodes[dp].ents| && i != 0
    requires var c := nodes[dp].ents[k].inum;
             && c != dp && c != 0 && c in linked && c < |nodes| && |nodes[c].ents| >= 2 && nodes[c].ents[1].inum == dp
             && (forall l | 2 <= l < |nodes[c].ents| :: nodes[c].ents[l].inum == 0)
    requires nodes' == nodes[dp := nodes[dp].(ents := nodes[dp].ents[k := Dirent(0, "")])]
    ensures Links(nodes', linked - {nodes[dp].ents[k].inum}, i) + (if i == nodes[dp].ents[k].inum then 1 else 0)
              + (if i == dp then 1 else 0)
         == Links(nodes, linked, i)
  {
    var c := nodes[dp].ents[k].inum;
    assert linked - {c} + {c} == linked;
    CountAllUpdate(nodes, linked, dp, nodes'[dp], i, |nodes|);
    CountUpdate(nodes[dp].ents, k, Dirent(0, ""), i);
    CountAllLink(nodes', linked - {c}, c, i, |nodes|);
    CountEmptyDir(nodes'[c].ents, i);
  }

  // ---------- what each system call leaves behind ----------

  /** Who is free or unlinked is named by nobody. */
  lemma FreeIsUnnamed(nodes: seq<Node>, place: map<nat, Place>, c: nat)
    requires Shape(nodes, place) && 1 <= c < |nodes| && nodes[c].typ == 0
    ensures c !in place && Unnamed(nodes, place, c)
  {
    assert c in place ==> DirOk(nodes, place, c);
    forall d, k | d in place && d < |nodes| && 1 <= k < |nodes[d].ents|
      ensures nodes[d].ents[k].inum != c
    {
      if nodes[d].ents[k].inum == c { EntryLeads(nodes, place, d, k); }
    }
  }

  lemma LinkedHasLink(nodes: seq<Node>, place: map<nat, Place>, c: nat)
    requires Shape(nodes, place) && c in place
    ensures Links(nodes, place.Keys, c) >= 1
  {
    assert DirOk(nodes, place, c);
    if c == ROOT {
      CountAllSome(nodes, place.Keys, c, 1, c, |nodes|);
    } else {
      var p := nodes[c].ents[1].inum;
      assert DirOk(nodes, place, p);
      CountAllSome(nodes, place.Keys, p, place[c].slot, c, |nodes|);
    }
  }

  lemma ZeroIsUnnamed(nodes: seq<Node>, place: map<nat, Place>, c: nat)
    requires Inv(nodes, place) && 1 <= c < |nodes| && nodes[c].typ != 0 && nodes[c].nlink == 0
    ensures c !in place && Unnamed(nodes, place, c)
  {
    forall d, k | d in place && d < |nodes| && 1 <= k < |nodes[d].ents|
      ensures nodes[d].ents[k].inum != c
    {
      if nodes[d].ents[k].inum == c { CountAllSome(nodes, place.Keys, d, k, c, |nodes|); }
    }
    if c in place { LinkedHasLink(nodes, place, c); }
  }

  lemma UnnamedHasNoLinks(nodes: seq<Node>, place: map<nat, Place>, c: nat)
    requires Unnamed(nodes, place, c)
    ensures Links(nodes, place.Keys, c) == 0
  {
    CountAllNone(nodes, place.Keys, c, |nodes|);
  }

  /** create, of a file or device. */
  lemma CreatedFile(nodes: seq<Node>, place: map<nat, Place>, dp: nat, k: nat, name: Name, c: nat, typ: int,
                    nodes': seq<Node>)
    requires Inv(nodes, place) && dp in place && dp < |nodes|
    requires k == FreeSlot(nodes[dp].ents, 0) && Lookup(nodes[dp].ents, name, 0) == |nodes[dp].ents|
    requires 1 <= c < |nodes| && nodes[c].typ == 0 && typ != 0 && typ != T_DIR
    requires nodes' == nodes[c := Node(typ, 1, [])][dp := nodes[dp].(ents := PutAt(nodes[dp].ents, k, Dirent(c, name)))]
    ensures Inv(nodes', place)
  {
    hide Shape;
    FreeIsUnnamed(nodes, place, c);
    UnnamedHasNoLinks(nodes, place, c);
    SlotAfterDots(nodes, place, dp);
    var mid := nodes[c := Node(typ, 1, [])];
    Replace(nodes, place, c, Node(typ, 1, []));
    NameFile(mid, place, dp, k, name, c, nodes');
    forall i | 1 <= i < |nodes'| && nodes'[i].typ != 0
      ensures nodes'[i].nlink == Links(nodes', place.Keys, i)
    {
      NameFileLinks(mid, place, dp, k, name, c, nodes', i);
    }
  }

  lemma SlotAfterDots(nodes: seq<Node>, place: map<nat, Place>, dp: nat)
    requires Shape(nodes, place) && dp in place && dp < |nodes|
    ensures FreeSlot(nodes[dp].ents, 0) >= 2
    ensures nodes[dp].typ == T_DIR && |nodes[dp].ents| >= 2
  {
    assert DirOk(nodes, place, dp);
    EntryLeads(nodes, place, dp, 0);
    if dp != ROOT { assert DirOk(nodes, place, nodes[dp].ents[1].inum); }
  }

  /** create, of a directory: "." and "..", and one more link for the parent. */
  lemma CreatedDir(nodes: seq<Node>, place: map<nat, Place>, dp: nat, k: nat, name: Name, c: nat, nodes': seq<Node>)
      returns (place': map<nat, Place>)
    requires Inv(nodes, place) && dp in place && dp < |nodes|
    requires k == FreeSlot(nodes[dp].ents, 0) && Lookup(nodes[dp].ents, name, 0) == |nodes[dp].ents|
    requires 1 <= c < |nodes| && nodes[c].typ == 0
    requires nodes' == nodes[c := Node(T_DIR, 1, [Dirent(c, "."), Dirent(dp, "..")])]
                            [dp := Node(T_DIR, nodes[dp].nlink + 1, PutAt(nodes[dp].ents, k, Dirent(c, name)))]
    ensures place' == place[c := Place(place[dp].depth + 1, k)]
    ensures Inv(nodes', place')
  {
    hide Shape;
    place' := place[c := Place(place[dp].depth + 1, k)];
    FreeIsUnnamed(nodes, place, c);
    UnnamedHasNoLinks(nodes, place, c);
    SlotAfterDots(nodes, place, dp);
    var node := Node(T_DIR, 1, [Dirent(c, "."), Dirent(dp, "..")]);
    Replace(nodes, place, c, node);
    var mid := nodes[c := node];
    var end := mid[dp := mid[dp].(ents := PutAt(mid[dp].ents, k, Dirent(c, name)))];
    NameDir(mid, place, dp, k, name, c, end, place');
    ShapeAside(end, nodes', place');
    assert place'.Keys == place.Keys + {c};
    forall i | 1 <= i < |nodes'| && nodes'[i].typ != 0
      ensures nodes'[i].nlink == Links(nodes', place'.Keys, i)
    {
      NameDirLinks(mid, place, dp, k, name, c, end, i);
    }
  }

  lemma NewInodeApart(nodes: seq<Node>, place: map<nat, Place>, dp: nat, c: nat)
    requires Inv(nodes, place) && dp in place && dp < |nodes| && 1 <= c < |nodes| && nodes[c].typ == 0
    ensures c != dp && nodes[dp].typ == T_DIR
  {
    assert DirOk(nodes, place, dp);
  }

  /** link: one more count, one more entry. */
  lemma Linked(nodes: seq<Node>, place: map<nat, Place>, dp: nat, k: nat, name: Name, c: nat, nodes': seq<Node>)
    requires Inv(nodes, place) && dp in place && dp < |nodes|
    requires k == FreeSlot(nodes[dp].ents, 0) && Lookup(nodes[dp].ents, name, 0) == |nodes[dp].ents|
    requires 1 <= c < |nodes| && nodes[c].typ != 0 && nodes[c].typ != T_DIR
    requires nodes' == nodes[c := nodes[c].(nlink := nodes[c].nlink + 1)]
                            [dp := nodes[dp].(ents := PutAt(nodes[dp].ents, k, Dirent(c, name)))]
    ensures Inv(nodes', place)
  {
    hide Shape;
    SlotAfterDots(nodes, place, dp);
    var mid := nodes[dp := nodes[dp].(ents := PutAt(nodes[dp].ents, k, Dirent(c, name)))];
    NameFile(nodes, place, dp, k, name, c, mid);
    ShapeAside(mid, nodes', place);
    forall i | 1 <= i < |nodes'| && nodes'[i].typ != 0
      ensures nodes'[i].nlink == Links(nodes', place.Keys, i)
    {
      NameFileLinks(nodes, place, dp, k, name, c, mid, i);
    }
  }

  /** unlink of a file: one entry and one count less. */
  lemma UnlinkedFile(nodes: seq<Node>, place: map<nat, Place>, dp: nat, k: nat, nodes': seq<Node>)
    requires Inv(nodes, place) && dp in place && dp < |nodes|
    requires 2 <= k < |nodes[dp].ents| && nodes[dp].ents[k].inum != 0
    requires nodes[dp].ents[k].inum < |nodes| && nodes[nodes[dp].ents[k].inum].typ != T_DIR
    requires var c := nodes[dp].ents[k].inum;
             nodes' == nodes[dp := nodes[dp].(ents := nodes[dp].ents[k := Dirent(0, "")])]
                            [c := nodes[c].(nlink := nodes[c].nlink - 1)]
    ensures Inv(nodes', place)
  {
    hide Shape;
    SlotAfterDots(nodes, place, dp);
    var mid := nodes[dp := nodes[dp].(ents := nodes[dp].ents[k := Dirent(0, "")])];
    UnnameFile(nodes, place, dp, k, mid);
    ShapeAside(mid, nodes', place);
    forall i | 1 <= i < |nodes'| && nodes'[i].typ != 0
      ensures nodes'[i].nlink == Links(nodes', place.Keys, i)
    {
      UnnameFileLinks(nodes, place, dp, k, mid, i);
    }
  }

  /** unlink of an empty directory. */
  lemma UnlinkedDir(nodes: seq<Node>, place: map<nat, Place>, dp: nat, k: nat, nodes': seq<Node>)
      returns (place': map<nat, Place>)
    requires Inv(nodes, place) && dp in place && dp < |nodes|
    requires 2 <= k < |nodes[dp].ents| && nodes[dp].ents[k].inum != 0
    requires var c := nodes[dp].ents[k].inum;
             && c < |nodes| && nodes[c].typ == T_DIR && c != dp
             && (forall l | 2 <= l < |nodes[c].ents| :: nodes[c].ents[l].inum == 0)
             && nodes' == nodes[dp := Node(T_DIR, nodes[dp].nlink - 1, nodes[dp].ents[k := Dirent(0, "")])]
                               [c := nodes[c].(nlink := nodes[c].nlink - 1)]
    ensures place' == place - {nodes[dp].ents[k].inum}
    ensures Inv(nodes', place')
  {
    hide Shape;
    var c := nodes[dp].ents[k].inum;
    place' := place - {c};
    SlotAfterDots(nodes, place, dp);
    var mid := nodes[dp := nodes[dp].(ents := nodes[dp].ents[k := Dirent(0, "")])];
    UnnameDir(nodes, place, dp, k, mid, place');
    ShapeAside(mid, nodes', place');
    assert place'.Keys == place.Keys - {c};
    forall i | 1 <= i < |nodes'| && nodes'[i].typ != 0
      ensures nodes'[i].nlink == Links(nodes', place'.Keys, i)
    {
      UnnameDirLinks(nodes, place.Keys, dp, k, mid, i);
    }
  }

  /** iput of an inode without links frees it. */
  lemma Released(nodes: seq<Node>, place: map<nat, Place>, c: nat)
    requires Inv(nodes, place) && 1 <= c < |nodes| && nodes[c].typ != 0 && nodes[c].nlink == 0
    ensures Inv(nodes[c := Node(0, 0, [])], place)
  {
    hide Shape;
    ZeroIsUnnamed(nodes, place, c);
    Replace(nodes, place, c, Node(0, 0, []));
  }

  // ---------- paths after a change ----------

  /** nodes' has the same directories with the same names as nodes, but for name in dp. */
  ghost predicate SameWalk(nodes: seq<Node>, nodes': seq<Node>, dp: nat, name: Name) {
    && |nodes'| == |nodes| && dp < |nodes|
    && forall d | 0 <= d < |nodes| && nodes[d].typ == T_DIR ::
         && nodes'[d].typ == T_DIR
         && forall n {:trigger Lookup(nodes[d].ents, n, 0)} ::
              (d != dp || n != name) && Lookup(nodes[d].ents, n, 0) < |nodes[d].ents| ==>
                && Lookup(nodes'[d].ents, n, 0) < |nodes'[d].ents|
                && nodes'[d].ents[Lookup(nodes'[d].ents, n, 0)].inum == nodes[d].ents[Lookup(nodes[d].ents, n, 0)].inum
  }

  /** A name that was not there before does not change where the path to its directory leads. */
  lemma {:induction false} ParentWalkKept(nodes: seq<Node>, nodes': seq<Node>, ip: nat, path: seq<Name>, dp: nat,
                                          name: Name)
    requires SameWalk(nodes, nodes', dp, name) && Lookup(nodes[dp].ents, name, 0) == |nodes[dp].ents|
    requires NameiParent(nodes, ip, path).Some?
    ensures NameiParent(nodes', ip, path) == NameiParent(nodes, ip, path)
    decreases |path|
  {
    if |path| > 1 {
      var k := Lookup(nodes[ip].ents, path[0], 0);
      assert k < |nodes[ip].ents|;
      ParentWalkKept(nodes, nodes', nodes[ip].ents[k].inum, path[1..], dp, name);
    }
  }

  lemma {:induction false} NameiByParent(nodes: seq<Node>, ip: nat, path: seq<Name>)
    requires path != []
    ensures Namei(nodes, ip, path) ==
            match NameiParent(nodes, ip, path)
            case None => None
            case Some(dp) =>
              var k := Lookup(nodes[dp].ents, path[|path| - 1], 0);
              if k == |nodes[dp].ents| then None else Some(nodes[dp].ents[k].inum)
    decreases |path|
  {
    if ip < |nodes| && nodes[ip].typ == T_DIR {
      var k := Lookup(nodes[ip].ents, path[0], 0);
      if |path| > 1 && k < |nodes[ip].ents| {
        NameiByParent(nodes, nodes[ip].ents[k].inum, path[1..]);
      }
    }
  }

  lemma {:induction false} LookupFrom(ents: seq<Dirent>, name: Name, k: nat, l: nat)
    requires k <= l < |ents| && ents[l].inum != 0 && ents[l].name == name
    requires forall m | k <= m < l :: ents[m].inum == 0 || ents[m].name != name
    ensures Lookup(ents, name, k) == l
    decreases l - k
  {
    if k < l { LookupFrom(ents, name, k + 1, l); }
  }

  lemma LookupPut(ents: seq<Dirent>, name: Name, k: nat, e: Dirent)
    requires k <= |ents| && (k < |ents| ==> ents[k].inum == 0) && e.inum != 0
    requires Lookup(ents, e.name, 0) == |ents|
    ensures Lookup(PutAt(ents, k, e), e.name, 0) == k
    ensures name != e.name && Lookup(ents, name, 0) < |ents| ==>
              Lookup(PutAt(ents, k, e), name, 0) == Lookup(ents, name, 0)
  {
    LookupFrom(PutAt(ents, k, e), e.name, 0, k);
    if name != e.name && Lookup(ents, name, 0) < |ents| {
      LookupFrom(PutAt(ents, k, e), name, 0, Lookup(ents, name, 0));
    }
  }

  /** The nodes after a new inode c has been named in dp. */
  function NewNodes(nodes: seq<Node>, dp: nat, name: Name, c: nat, typ: int): seq<Node>
    requires dp < |nodes| && c < |nodes|
  {
    var ents := PutAt(nodes[dp].ents, FreeSlot(nodes[dp].ents, 0), Dirent(c, name));
    if typ == T_DIR then
      nodes[c := Node(T_DIR, 1, [Dirent(c, "."), Dirent(dp, "..")])][dp := Node(T_DIR, nodes[dp].nlink + 1, ents)]
    else
      nodes[c := Node(typ, 1, [])][dp := nodes[dp].(ents := ents)]
  }

  function LinkNodes(nodes: seq<Node>, dp: nat, name: Name, c: nat): seq<Node>
    requires dp < |nodes| && c < |nodes|
  {
    nodes[c := nodes[c].(nlink := nodes[c].nlink + 1)]
         [dp := nodes[dp].(ents := PutAt(nodes[dp].ents, FreeSlot(nodes[dp].ents, 0), Dirent(c, name)))]
  }

  /** create and link make the path lead to the inode. */
  lemma NewNameResolves(nodes: seq<Node>, nodes': seq<Node>, start: nat, path: seq<Name>, dp: nat, c: nat)
    requires path != [] && NameiParent(nodes, start, path) == Some(dp) && dp < |nodes| == |nodes'|
    requires Lookup(nodes[dp].ents, path[|path| - 1], 0) == |nodes[dp].ents| && c != 0
    requires nodes'[dp].typ == nodes[dp].typ == T_DIR
    requires nodes'[dp].ents == PutAt(nodes[dp].ents, FreeSlot(nodes[dp].ents, 0), Dirent(c, path[|path| - 1]))
    requires forall d | 0 <= d < |nodes| && d != dp && nodes[d].typ == T_DIR ::
               nodes'[d].ents == nodes[d].ents && nodes'[d].typ == T_DIR
    ensures Namei(nodes', start, path) == Some(c)
    ensures SameWalk(nodes, nodes', dp, path[|path| - 1])
  {
    var name := path[|path| - 1];
    var k := FreeSlot(nodes[dp].ents, 0);
    forall n
      ensures n != name && Lookup(nodes[dp].ents, n, 0) < |nodes[dp].ents| ==>
                Lookup(nodes'[dp].ents, n, 0) == Lookup(nodes[dp].ents, n, 0)
    {
      LookupPut(nodes[dp].ents, n, k, Dirent(c, name));
    }
    LookupPut(nodes[dp].ents, name, k, Dirent(c, name));
    ParentWalkKept(nodes, nodes', start, path, dp, name);
    NameiByParent(nodes', start, path);
  }

  lemma CreatedResolves(nodes: seq<Node>, start: nat, path: seq<Name>, dp: nat, c: nat, typ: int)
    requires NameiParent(nodes, start, path) == Some(dp) && 1 <= c < |nodes| && nodes[c].typ == 0
    requires Lookup(nodes[dp].ents, path[|path| - 1], 0) == |nodes[dp].ents|
    ensures Namei(NewNodes(nodes, dp, path[|path| - 1], c, typ), start, path) == Some(c)
  {
    hide SameWalk, Lookup, FreeSlot, PutAt, Namei, NameiParent;
    NewNameResolves(nodes, NewNodes(nodes, dp, path[|path| - 1], c, typ), start, path, dp, c);
  }

  lemma LinkedResolves(nodes: seq<Node>, start: nat, path: seq<Name>, dp: nat, c: nat)
    requires NameiParent(nodes, start, path) == Some(dp) && 1 <= c < |nodes| && nodes[c].typ != T_DIR
    requires Lookup(nodes[dp].ents, path[|path| - 1], 0) == |nodes[dp].ents|
    ensures Namei(LinkNodes(nodes, dp, path[|path| - 1], c), start, path) == Some(c)
  {
    hide SameWalk, Lookup, FreeSlot, PutAt, Namei, NameiParent;
    NewNameResolves(nodes, LinkNodes(nodes, dp, path[|path| - 1], c), start, path, dp, c);
  }

  /** create keeps the tree, and the path leads to the new inode. */
  lemma Created(nodes: seq<Node>, place: map<nat, Place>, start: nat, path: seq<Name>, dp: nat, c: nat, typ: int)
      returns (place': map<nat, Place>)
    requires Inv(nodes, place) && NameiParent(nodes, start, path) == Some(dp) && dp in place
    requires Lookup(nodes[dp].ents, path[|path| - 1], 0) == |nodes[dp].ents|
    requires 1 <= c < |nodes| && nodes[c].typ == 0 && typ != 0
    ensures Inv(NewNodes(nodes, dp, path[|path| - 1], c, typ), place') && place'.Keys >= place.Keys
    ensures Namei(NewNodes(nodes, dp, path[|path| - 1], c, typ), start, path) == Some(c)
  {
    hide Inv, SameWalk, Lookup, FreeSlot, PutAt;
    var name, k := path[|path| - 1], FreeSlot(nodes[dp].ents, 0);
    var nodes' := NewNodes(nodes, dp, name, c, typ);
    NewInodeApart(nodes, place, dp, c);
    place' := place;
    if typ == T_DIR {
      place' := CreatedDir(nodes, place, dp, k, name, c, nodes');
    } else {
      CreatedFile(nodes, place, dp, k, name, c, typ, nodes');
    }
    NewNameResolves(nodes, nodes', start, path, dp, c);
  }

  /** link keeps the tree, and the path leads to the linked inode. */
  lemma LinkedPath(nodes: seq<Node>, place: map<nat, Place>, start: nat, path: seq<Name>, dp: nat, c: nat)
    requires Inv(nodes, place) && NameiParent(nodes, start, path) == Some(dp) && dp in place
    requires Lookup(nodes[dp].ents, path[|path| - 1], 0) == |nodes[dp].ents|
    requires 1 <= c < |nodes| && nodes[c].typ != 0 && nodes[c].typ != T_DIR
    ensures Inv(LinkNodes(nodes, dp, path[|path| - 1], c), place)
    ensures Namei(LinkNodes(nodes, dp, path[|path| - 1], c), start, path) == Some(c)
  {
    hide Inv, SameWalk, Lookup, FreeSlot, PutAt;
    var name, k := path[|path| - 1], FreeSlot(nodes[dp].ents, 0);
    var nodes' := LinkNodes(nodes, dp, name, c);
    Linked(nodes, place, dp, k, name, c, nodes');
    NewNameResolves(nodes, nodes', start, path, dp, c);
  }

  /** Once the entry is cleared the path leads nowhere, even if it passes through what was removed. */
  lemma {:induction false} ClearedNameFails(nodes: seq<Node>, nodes': seq<Node>, ip: nat, path: seq<Name>, dp: nat,
                                            k: nat)
    requires |nodes'| == |nodes| && NameiParent(nodes, ip, path) == Some(dp)
    requires NamesDiffer(nodes[dp].ents) && k == Lookup(nodes[dp].ents, path[|path| - 1], 0) < |nodes[dp].ents|
    requires nodes'[dp].ents == nodes[dp].ents[k := Dirent(0, "")]
    requires forall d | 0 <= d < |nodes| && d != dp && nodes'[d].typ == T_DIR :: nodes'[d].ents == nodes[d].ents
    ensures Namei(nodes', ip, path) == None
    decreases |path|
  {
    var name := path[|path| - 1];
    LookupCleared(nodes[dp].ents, name, k);
    if |path| > 1 && nodes'[ip].typ == T_DIR && Lookup(nodes'[ip].ents, path[0], 0) < |nodes'[ip].ents| {
      var l := Lookup(nodes[ip].ents, path[0], 0);
      if ip == dp { LookupCleared(nodes[dp].ents, path[0], k); }
      ClearedNameFails(nodes, nodes', nodes[ip].ents[l].inum, path[1..], dp, k);
    }
  }

  lemma LookupCleared(ents: seq<Dirent>, name: Name, k: nat)
    requires NamesDiffer(ents) && k < |ents| && ents[k].inum != 0
    ensures Lookup(ents[k := Dirent(0, "")], name, 0) ==
            if name == ents[k].name then |ents| else Lookup(ents, name, 0)
  {
    var cleared := ents[k := Dirent(0, "")];
    if name != ents[k].name && Lookup(ents, name, 0) < |ents| {
      LookupFrom(cleared, name, 0, Lookup(ents, name, 0));
    }
  }

  /** Link counts play no part in walking a path. */
  lemma {:induction false} WalksAside(nodes: seq<Node>, nodes': seq<Node>, ip: nat, path: seq<Name>)
    requires SameButCounts(nodes, nodes')
    ensures Namei(nodes', ip, path) == Namei(nodes, ip, path)
              && NameiParent(nodes', ip, path) == NameiParent(nodes, ip, path)
    decreases |path|
  {
    if path != [] && ip < |nodes| && nodes[ip].typ == T_DIR {
      var k := Lookup(nodes[ip].ents, path[0], 0);
      if k < |nodes[ip].ents| { WalksAside(nodes, nodes', nodes[ip].ents[k].inum, path[1..]); }
    }
  }

  /** Inode 0 is named by no path. */
  lemma {:induction false} NotNobody(nodes: seq<Node>, place: map<nat, Place>, ip: nat, path: seq<Name>)
    requires Shape(nodes, place) && ip in place
    ensures Namei(nodes, ip, path).Some? ==> Namei(nodes, ip, path).value >= 1
    decreases |path|
  {
    hide Shape;
    Parent(nodes, place, ip);
    if path != [] {
      var k := Lookup(nodes[ip].ents, path[0], 0);
      if k < |nodes[ip].ents| {
        EntryLeads(nodes, place, ip, k);
        var next := nodes[ip].ents[k].inum;
        if nodes[next].typ == T_DIR { NotNobody(nodes, place, next, path[1..]); }
      }
    }
  }

  /** The nodes after entry k of dp has been cleared and the counts it stood for taken off. */
  function ClearNodes(nodes: seq<Node>, dp: nat, k: nat): (r: seq<Node>)
    requires dp < |nodes| && k < |nodes[dp].ents| && nodes[dp].ents[k].inum < |nodes|
    ensures |r| == |nodes|
  {
    var c := nodes[dp].ents[k].inum;
    var parent := Node(nodes[dp].typ, nodes[dp].nlink - (if nodes[c].typ == T_DIR then 1 else 0),
                       nodes[dp].ents[k := Dirent(0, "")]);
    nodes[dp := parent][c := nodes[c].(nlink := nodes[c].nlink - 1)]
  }

  /** The same once its inode has been freed, if it has no links and is not busy. */
  function UnlinkNodes(nodes: seq<Node>, dp: nat, k: nat, busy: bool): seq<Node>
    requires dp < |nodes| && k < |nodes[dp].ents| && nodes[dp].ents[k].inum < |nodes|
  {
    var c := nodes[dp].ents[k].inum;
    var left := ClearNodes(nodes, dp, k);
    if left[c].nlink == 0 && !busy then left[c := Node(0, 0, [])] else left
  }

  /** An entry found by its name, other than the dots, is an ordinary one, and its inode has a link. */
  lemma UnlinkFacts(nodes: seq<Node>, place: map<nat, Place>, dp: nat, name: Name)
    requires Inv(nodes, place) && dp in place && dp < |nodes| && name != "." && name != ".."
    requires Lookup(nodes[dp].ents, name, 0) < |nodes[dp].ents|
    ensures var k := Lookup(nodes[dp].ents, name, 0); var c := nodes[dp].ents[k].inum;
            && k >= 2 && 1 <= c < |nodes| && nodes[c].typ != 0 && c != dp && nodes[c].nlink >= 1
    ensures NamesDiffer(nodes[dp].ents) && nodes[dp].typ == T_DIR
  {
    var k := Lookup(nodes[dp].ents, name, 0);
    var c := nodes[dp].ents[k].inum;
    assert DirOk(nodes, place, dp);
    assert EntryOk(nodes, place, dp, k);
    assert NamesDiffer(nodes[dp].ents);
    CountAllSome(nodes, place.Keys, dp, k, c, |nodes|);
    if nodes[c].typ == T_DIR { Parent(nodes, place, c); }
  }

  // ---------- where a run may start ----------

  /** The root is the only directory: its entries are the dots and then free ones or ones that name a file in
      use, under a name that is no dot, and every link count is the number of entries that name the inode. */
  ghost predicate RootOnly(nodes: seq<Node>) {
    && |nodes| >= 2 && nodes[ROOT].typ == T_DIR && |nodes[ROOT].ents| >= 2
    && nodes[ROOT].ents[0] == Dirent(ROOT, ".") && nodes[ROOT].ents[1] == Dirent(ROOT, "..")
    && (forall i | 0 <= i < |nodes| && i != ROOT :: nodes[i].typ != T_DIR)
    && (forall k | 2 <= k < |nodes[ROOT].ents| && nodes[ROOT].ents[k].inum != 0 ::
          && nodes[ROOT].ents[k].inum < |nodes| && nodes[nodes[ROOT].ents[k].inum].typ !in {0, T_DIR}
          && nodes[ROOT].ents[k].name != "." && nodes[ROOT].ents[k].name != "..")
    && forall i | 1 <= i < |nodes| && nodes[i].typ != 0 :: nodes[i].nlink == Count(nodes[ROOT].ents, i)
  }

  lemma {:induction false} OnlyRootCounts(nodes: seq<Node>, i: nat, n: nat)
    requires n <= |nodes|
    ensures CountAll(nodes, {ROOT}, i, n) == if ROOT < n then Count(nodes[ROOT].ents, i) else 0
  {
    if n > 0 { OnlyRootCounts(nodes, i, n - 1); }
  }

  lemma RootShape(nodes: seq<Node>)
    requires RootOnly(nodes) && NamesDiffer(nodes[ROOT].ents)
    ensures Inv(nodes, map[ROOT := Place(0, 0)])
  {
    var place := map[ROOT := Place(0, 0)];
    assert DirOk(nodes, place, ROOT);
    forall k | 2 <= k < |nodes[ROOT].ents|
      ensures EntryOk(nodes, place, ROOT, k)
    {
    }
    assert place.Keys == {ROOT};
    forall i | 1 <= i < |nodes| && nodes[i].typ != 0
      ensures nodes[i].nlink == Links(nodes, place.Keys, i)
    {
      OnlyRootCounts(nodes, i, |nodes|);
    }
  }

  /** Such nodes are a tree with right counts exactly if the names in the root differ. */
  lemma RootOnlyIsTree(nodes: seq<Node>)
    requires RootOnly(nodes)
    ensures (exists place :: Inv(nodes, place)) <==> NamesDiffer(nodes[ROOT].ents)
  {
    if NamesDiffer(nodes[ROOT].ents) { RootShape(nodes); }
    forall place | Inv(nodes, place)
      ensures NamesDiffer(nodes[ROOT].ents)
    {
      assert ROOT in place;
    }
  }

  lemma RootLinked(nodes: seq<Node>, place: map<nat, Place>)
    requires Inv(nodes, place)
    ensures ROOT in place
  {
  }

  /** unlink keeps the tree, and the path leads nowhere. */
  lemma UnlinkedPath(nodes: seq<Node>, place: map<nat, Place>, start: nat, path: seq<Name>, dp: nat, k: nat)
      returns (place': map<nat, Place>)
    requires Inv(nodes, place) && NameiParent(nodes, start, path) == Some(dp) && dp in place
    requires path[|path| - 1] != "." && path[|path| - 1] != ".."
    requires k == Lookup(nodes[dp].ents, path[|path| - 1], 0) < |nodes[dp].ents|
    ensures var c := nodes[dp].ents[k].inum; 1 <= c < |nodes| && nodes[c].typ != 0 && c != dp && nodes[c].nlink >= 1
    ensures var c := nodes[dp].ents[k].inum; nodes[c].typ != T_DIR || EmptyDir(nodes[c].ents) ==>
              && Inv(ClearNodes(nodes, dp, k), place') && place'.Keys >= place.Keys - {c}
              && forall busy :: Namei(UnlinkNodes(nodes, dp, k, busy), start, path) == None
  {
    hide Inv, Lookup;
    place' := place;
    UnlinkFacts(nodes, place, dp, path[|path| - 1]);
    var c := nodes[dp].ents[k].inum;
    if nodes[c].typ != T_DIR || EmptyDir(nodes[c].ents) {
      if nodes[c].typ == T_DIR {
        place' := UnlinkedDir(nodes, place, dp, k, ClearNodes(nodes, dp, k));
      } else {
        UnlinkedFile(nodes, place, dp, k, ClearNodes(nodes, dp, k));
      }
      forall busy
        ensures Namei(UnlinkNodes(nodes, dp, k, busy), start, path) == None
      {
        ClearedNameFails(nodes, UnlinkNodes(nodes, dp, k, busy), start, path, dp, k);
      }
    }
  }

  lemma StartOk(nodes: seq<Node>, place: map<nat, Place>, d: nat)
    requires Inv(nodes, place) && d in place
    ensures Shape(nodes, place) && d < |nodes| && nodes[d].typ == T_DIR
  {
    assert DirOk(nodes, place, d);
  }

  datatype Ret = Stopped | Fail | Ok(inum: nat)

  // ---------- the calls as steps ----------

  /** ialloc's search. */
  function FirstFree(nodes: seq<Node>, i: nat): (r: nat)
    requires i <= |nodes|
    ensures i <= r <= |nodes|
    ensures r < |nodes| ==> nodes[r].typ == 0
    ensures forall l | i <= l < r :: nodes[l].typ != 0
    decreases |nodes| - i
  {
    if i == |nodes| || nodes[i].typ == 0 then i else FirstFree(nodes, i + 1)
  }

  lemma {:induction false} FirstFreeIs(nodes: seq<Node>, i: nat, c: nat)
    requires i <= c <= |nodes| && (c < |nodes| ==> nodes[c].typ == 0) && forall l | i <= l < c :: nodes[l].typ != 0
    ensures FirstFree(nodes, i) == c
    decreases c - i
  {
    if i < c { FirstFreeIs(nodes, i + 1, c); }
  }

  /** create; None is a panic: no inode is free, or the directory is full. */
  function MakeNodes(nodes: seq<Node>, start: nat, path: seq<Name>, typ: int): Option<seq<Node>> {
    var parent := NameiParent(nodes, start, path);
    if parent.None? then Some(nodes)
    else
      var dp, name := parent.value, path[|path| - 1];
      if Lookup(nodes[dp].ents, name, 0) < |nodes[dp].ents| then Some(nodes)
      else
        var c := FirstFree(nodes, 1);
        if c == |nodes| || FreeSlot(nodes[dp].ents, 0) >= MAXENTS then None
        else Some(NewNodes(nodes, dp, name, c, typ))
  }

  /** sys_link; None is the panic on a full directory. */
  function JoinNodes(nodes: seq<Node>, oldStart: nat, oldPath: seq<Name>, start: nat,
                     path: seq<Name>): Option<seq<Node>> {
    var found, parent := Namei(nodes, oldStart, oldPath), NameiParent(nodes, start, path);
    if found.None? || found.value >= |nodes| || nodes[found.value].typ == T_DIR then Some(nodes)
    else if parent.None? || Namei(nodes, start, path).Some? then Some(nodes)
    else if FreeSlot(nodes[parent.value].ents, 0) >= MAXENTS then None
    else Some(LinkNodes(nodes, parent.value, path[|path| - 1], found.value))
  }

  /** sys_unlink. */
  function RemoveNodes(nodes: seq<Node>, start: nat, path: seq<Name>, busy: bool): seq<Node> {
    var parent := NameiParent(nodes, start, path);
    if parent.None? || path[|path| - 1] == "." || path[|path| - 1] == ".." then nodes
    else
      var dp := parent.value;
      var k := Lookup(nodes[dp].ents, path[|path| - 1], 0);
      if k == |nodes[dp].ents| || nodes[dp].ents[k].inum >= |nodes| then nodes
      else
        var node := nodes[nodes[dp].ents[k].inum];
        if node.typ == T_DIR && !EmptyDir(node.ents) then nodes else UnlinkNodes(nodes, dp, k, busy)
  }

  /** The last reference to an inode dropped. */
  function DropNodes(nodes: seq<Node>, ip: nat): seq<Node> {
    if 1 <= ip < |nodes| && nodes[ip].typ != 0 && nodes[ip].nlink == 0 then nodes[ip := Node(0, 0, [])] else nodes
  }

  /** A path as a process gives it: from the root, or from its current directory. */
  datatype Path = Path(rooted: bool, names: seq<Name>)

  datatype Op =
    | Make(who: nat, path: Path, typ: int)
    | Join(who: nat, oldPath: Path, path: Path)
    | Remove(who: nat, path: Path, busy: bool)
    | Chdir(who: nat, path: Path, busy: bool)
    | Drop(ip: nat)

  /** Current directories are directories in use, whether or not they are still linked. */
  ghost predicate Housed(nodes: seq<Node>, cwds: seq<nat>) {
    forall d | d in cwds :: 1 <= d < |nodes| && nodes[d].typ == T_DIR
  }

  /** The inodes, and the current directory of each process. */
  datatype World = World(nodes: seq<Node>, cwds: seq<nat>) {
    function Start(who: nat, path: Path): nat {
      if path.rooted || who >= |cwds| then ROOT else cwds[who]
    }

    function Found(who: nat, path: Path): Option<nat> {
      Namei(nodes, Start(who, path), path.names)
    }

    /** The path is relative and the directory it starts in has been removed. */
    predicate Lost(who: nat, path: Path) {
      !path.rooted && who < |cwds| && cwds[who] < |nodes| && nodes[cwds[who]].nlink == 0
    }

    predicate StartsLost(op: Op) {
      match op
      case Make(who, path, typ) => Lost(who, path)
      case Join(who, oldPath, path) => Lost(who, oldPath) || Lost(who, path)
      case Remove(who, path, busy) => Lost(who, path)
      case Chdir(who, path, busy) => Lost(who, path)
      case Drop(ip) => false
    }

    /** What a call leaves behind, or a panic. Who sits in a directory keeps its inode in use. Calls that start in a
        removed directory do not occur. */
    function Stepped(op: Op): Option<World> {
      if StartsLost(op) then Some(this) else
      match op
      case Make(who, path, typ) =>
        if typ == 0 then Some(this) else WithNodes(MakeNodes(nodes, Start(who, path), path.names, typ))
      case Join(who, oldPath, path) =>
        WithNodes(JoinNodes(nodes, Start(who, oldPath), oldPath.names, Start(who, path), path.names))
      case Remove(who, path, busy) =>
        var found := Found(who, path);
        var held := busy || (found.Some? && found.value in cwds);
        Some(this.(nodes := RemoveNodes(nodes, Start(who, path), path.names, held)))
      case Chdir(who, path, busy) =>
        var found := Found(who, path);
        if who >= |cwds| || found.None? || found.value >= |nodes| || nodes[found.value].typ != T_DIR then Some(this)
        else
          var moved := cwds[who := found.value];
          Some(World(if busy || cwds[who] in moved then nodes else DropNodes(nodes, cwds[who]), moved))
      case Drop(ip) => Some(if ip in cwds then this else this.(nodes := DropNodes(nodes, ip)))
    }

    function WithNodes(nodes': Option<seq<Node>>): Option<World> {
      if nodes'.None? then None else Some(this.(nodes := nodes'.value))
    }

    function Ran(ops: seq<Op>): Option<World> {
      if ops == [] then Some(this)
      else
        var mid := Ran(ops[..|ops| - 1]);
        if mid.None? then None else mid.value.Stepped(ops[|ops| - 1])
    }
  }

  /** unlink keeps the tree, all but what it removed stays linked, and the path leads nowhere. */
  lemma RemovedPath(nodes: seq<Node>, place: map<nat, Place>, start: nat, path: seq<Name>, busy: bool)
      returns (place': map<nat, Place>)
    requires Inv(nodes, place) && start in place
    ensures Inv(RemoveNodes(nodes, start, path, busy), place')
    ensures place'.Keys >= place.Keys - (if Namei(nodes, start, path).Some? then {Namei(nodes, start, path).value}
                                         else {})
  {
    hide Inv, Lookup, UnlinkNodes, ClearNodes;
    place' := place;
    StartOk(nodes, place, start);
    var parent := NameiParent(nodes, start, path);
    if parent.Some? && path[|path| - 1] != "." && path[|path| - 1] != ".." {
      var dp, k := parent.value, Lookup(nodes[parent.value].ents, path[|path| - 1], 0);
      PathStaysLinked(nodes, place, start, path);
      NameiByParent(nodes, start, path);
      if k < |nodes[dp].ents| {
        place' := UnlinkedPath(nodes, place, start, path, dp, k);
        var c := nodes[dp].ents[k].inum;
        if nodes[c].typ != T_DIR || EmptyDir(nodes[c].ents) {
          UnlinkedThenFreed(nodes, place', dp, k, busy);
        } else {
          place' := place;
        }
      }
    }
  }

  lemma UnlinkedThenFreed(nodes: seq<Node>, place': map<nat, Place>, dp: nat, k: nat, busy: bool)
    requires dp < |nodes| && k < |nodes[dp].ents| && 1 <= nodes[dp].ents[k].inum < |nodes|
    requires nodes[nodes[dp].ents[k].inum].typ != 0 && nodes[dp].ents[k].inum != dp
    requires Inv(ClearNodes(nodes, dp, k), place')
    ensures Inv(UnlinkNodes(nodes, dp, k, busy), place')
  {
    hide Inv;
    var c, left := nodes[dp].ents[k].inum, ClearNodes(nodes, dp, k);
    if left[c].nlink == 0 && !busy { Released(left, place', c); }
  }

  /** create and link keep the tree and everything linked. */
  lemma MadePath(nodes: seq<Node>, place: map<nat, Place>, start: nat, path: seq<Name>, typ: int)
      returns (place': map<nat, Place>)
    requires Inv(nodes, place) && start in place && typ != 0 && MakeNodes(nodes, start, path, typ).Some?
    ensures Inv(MakeNodes(nodes, start, path, typ).value, place') && place'.Keys >= place.Keys
  {
    hide Inv, Lookup, NewNodes, FreeSlot;
    place' := place;
    StartOk(nodes, place, start);
    var parent := NameiParent(nodes, start, path);
    if parent.Some? && Lookup(nodes[parent.value].ents, path[|path| - 1], 0) == |nodes[parent.value].ents| {
      PathStaysLinked(nodes, place, start, path);
      place' := Created(nodes, place, start, path, parent.value, FirstFree(nodes, 1), typ);
    }
  }

  lemma JoinedPath(nodes: seq<Node>, place: map<nat, Place>, oldStart: nat, oldPath: seq<Name>, start: nat,
                   path: seq<Name>)
    requires Inv(nodes, place) && oldStart in place && start in place
    requires JoinNodes(nodes, oldStart, oldPath, start, path).Some?
    ensures Inv(JoinNodes(nodes, oldStart, oldPath, start, path).value, place)
  {
    hide Inv, Lookup, LinkNodes, FreeSlot;
    StartOk(nodes, place, oldStart);
    StartOk(nodes, place, start);
    PathStaysLinked(nodes, place, oldStart, oldPath);
    PathStaysLinked(nodes, place, start, path);
    NotNobody(nodes, place, oldStart, oldPath);
    if path != [] { NameiByParent(nodes, start, path); }
    var found, parent := Namei(nodes, oldStart, oldPath), NameiParent(nodes, start, path);
    if found.Some? && nodes[found.value].typ != T_DIR && parent.Some? && Namei(nodes, start, path).None? {
      LinkedPath(nodes, place, start, path, parent.value, found.value);
    }
  }

  /** A directory is linked exactly if it has a link count. */
  lemma LinkedIffCounted(nodes: seq<Node>, place: map<nat, Place>, d: nat)
    requires Inv(nodes, place) && 1 <= d < |nodes| && nodes[d].typ != 0
    ensures d in place ==> nodes[d].nlink >= 1
    ensures nodes[d].typ == T_DIR && nodes[d].nlink != 0 ==> d in place
  {
    if d in place { LinkedHasLink(nodes, place, d); }
    if nodes[d].typ == T_DIR && d !in place {
      forall e, k | e in place && e < |nodes| && 1 <= k < |nodes[e].ents|
        ensures nodes[e].ents[k].inum != d
      {
        if nodes[e].ents[k].inum == d { EntryLeads(nodes, place, e, k); }
      }
      UnnamedHasNoLinks(nodes, place, d);
    }
  }

  /** Where a call starts is in the tree, unless it starts in a removed directory. */
  lemma StartLinked(w: World, place: map<nat, Place>, who: nat, path: Path)
    requires Inv(w.nodes, place) && Housed(w.nodes, w.cwds) && !w.Lost(who, path)
    ensures w.Start(who, path) in place
  {
    hide Inv;
    RootLinked(w.nodes, place);
    if !path.rooted && who < |w.cwds| {
      assert w.cwds[who] in w.cwds;
      LinkedIffCounted(w.nodes, place, w.cwds[who]);
    }
  }

  /** Only what unlink frees changes its type. */
  lemma RemovedTypes(nodes: seq<Node>, place: map<nat, Place>, start: nat, path: seq<Name>, busy: bool)
    requires Inv(nodes, place) && start in place
    ensures |RemoveNodes(nodes, start, path, busy)| == |nodes|
    ensures forall d | 0 <= d < |nodes| :: RemoveNodes(nodes, start, path, busy)[d].typ == nodes[d].typ
                                           || (!busy && Namei(nodes, start, path) == Some(d))
  {
    hide Inv, Lookup, EmptyDir;
    StartOk(nodes, place, start);
    PathStaysLinked(nodes, place, start, path);
    if path != [] { NameiByParent(nodes, start, path); }
  }

  lemma MadeTypes(nodes: seq<Node>, start: nat, path: seq<Name>, typ: int)
    requires |nodes| >= 1 && MakeNodes(nodes, start, path, typ).Some?
    ensures var nodes' := MakeNodes(nodes, start, path, typ).value;
            && |nodes'| == |nodes|
            && forall d | 0 <= d < |nodes| && nodes[d].typ != 0 :: nodes'[d].typ == nodes[d].typ
  {
    hide Lookup, NameiParent, FreeSlot, PutAt;
  }

  lemma JoinedTypes(nodes: seq<Node>, oldStart: nat, oldPath: seq<Name>, start: nat, path: seq<Name>)
    requires JoinNodes(nodes, oldStart, oldPath, start, path).Some?
    ensures var nodes' := JoinNodes(nodes, oldStart, oldPath, start, path).value;
            |nodes'| == |nodes| && forall d | 0 <= d < |nodes| :: nodes'[d].typ == nodes[d].typ
  {
    hide Lookup, NameiParent, Namei, FreeSlot, PutAt;
  }

  /** Every call keeps the tree and the link counts, and each process in a directory. */
  lemma StepKeepsTree(w: World, place: map<nat, Place>, op: Op) returns (place': map<nat, Place>)
    requires Inv(w.nodes, place) && Housed(w.nodes, w.cwds) && w.Stepped(op).Some?
    ensures Inv(w.Stepped(op).value.nodes, place') && Housed(w.Stepped(op).value.nodes, w.Stepped(op).value.cwds)
  {
    hide Inv, MakeNodes, JoinNodes, RemoveNodes, Namei;
    RootLinked(w.nodes, place);
    place' := place;
    if w.StartsLost(op) { return; }
    match op
    case Make(who, path, typ) =>
      StartLinked(w, place, who, path);
      if typ != 0 {
        StartOk(w.nodes, place, w.Start(who, path));
        place' := MadePath(w.nodes, place, w.Start(who, path), path.names, typ);
        MadeTypes(w.nodes, w.Start(who, path), path.names, typ);
      }
    case Join(who, oldPath, path) =>
      StartLinked(w, place, who, oldPath);
      StartLinked(w, place, who, path);
      JoinedPath(w.nodes, place, w.Start(who, oldPath), oldPath.names, w.Start(who, path), path.names);
      JoinedTypes(w.nodes, w.Start(who, oldPath), oldPath.names, w.Start(who, path), path.names);
    case Remove(who, path, busy) =>
      StartLinked(w, place, who, path);
      var found := w.Found(who, path);
      var held := busy || (found.Some? && found.value in w.cwds);
      place' := RemovedPath(w.nodes, place, w.Start(who, path), path.names, held);
      RemovedTypes(w.nodes, place, w.Start(who, path), path.names, held);
    case Chdir(who, path, busy) =>
      StartLinked(w, place, who, path);
      StartOk(w.nodes, place, w.Start(who, path));
      NotNobody(w.nodes, place, w.Start(who, path), path.names);
      if who < |w.cwds| {
        DroppedTree(w.nodes, place, w.cwds[who]);
        var found := w.Found(who, path);
        if found.Some? && found.value < |w.nodes| && w.nodes[found.value].typ == T_DIR {
          MovedHoused(w.nodes, w.cwds, who, found.value, busy);
        }
      }
    case Drop(ip) => DroppedTree(w.nodes, place, ip);
  }

  lemma MovedHoused(nodes: seq<Node>, cwds: seq<nat>, who: nat, d: nat, busy: bool)
    requires Housed(nodes, cwds) && who < |cwds| && 1 <= d < |nodes| && nodes[d].typ == T_DIR
    ensures var moved := cwds[who := d];
            Housed(if busy || cwds[who] in moved then nodes else DropNodes(nodes, cwds[who]), moved)
  {
    var moved := cwds[who := d];
    forall e | e in moved
      ensures 1 <= e < |nodes| && nodes[e].typ == T_DIR
    {
      assert e in cwds || e == d;
    }
  }

  lemma DroppedTree(nodes: seq<Node>, place: map<nat, Place>, ip: nat)
    requires Inv(nodes, place)
    ensures Inv(DropNodes(nodes, ip), place) && |DropNodes(nodes, ip)| == |nodes|
    ensures forall d | 0 <= d < |nodes| && d != ip :: DropNodes(nodes, ip)[d] == nodes[d]
  {
    hide Inv;
    if 1 <= ip < |nodes| && nodes[ip].typ != 0 && nodes[ip].nlink == 0 { Released(nodes, place, ip); }
  }

  /** The tree that could be seen after a new inode in a removed directory would be one of before. */
  lemma {:induction false} LinkedBefore(nodes: seq<Node>, place: map<nat, Place>, dp: nat, name: Name, c: nat, typ: int,
                                        place': map<nat, Place>, d: nat)
    requires Shape(nodes, place) && dp < |nodes| && dp !in place && dp != c && nodes[dp].typ == T_DIR
    requires 1 <= c < |nodes| && nodes[c].typ == 0 && c !in place
    requires Shape(NewNodes(nodes, dp, name, c, typ), place') && d in place'
    ensures d in place && d != dp && d != c
    decreases place'[d].depth
  {
    var nodes' := NewNodes(nodes, dp, name, c, typ);
    assert DirOk(nodes', place', d);
    if d != ROOT {
      hide Shape;
      var p := nodes'[d].ents[1].inum;
      LinkedBefore(nodes, place, dp, name, c, typ, place', p);
      EntryLeads(nodes, place, p, place'[d].slot);
    }
  }

  /** Whatever a process makes in a removed directory has a link count of 1 and no linked directory that names it. */
  lemma MadeInRemoved(nodes: seq<Node>, place: map<nat, Place>, dp: nat, name: Name, c: nat, typ: int)
    requires Inv(nodes, place) && 1 <= dp < |nodes| && nodes[dp].typ == T_DIR && nodes[dp].nlink == 0
    requires 1 <= c < |nodes| && nodes[c].typ == 0 && typ != 0
    ensures !exists place' :: Inv(NewNodes(nodes, dp, name, c, typ), place')
  {
    ZeroIsUnnamed(nodes, place, dp);
    FreeIsUnnamed(nodes, place, c);
    var nodes' := NewNodes(nodes, dp, name, c, typ);
    assert nodes'[c].nlink == 1 && nodes'[c].typ != 0;
    hide Shape;
    forall place' | Inv(nodes', place')
      ensures false
    {
      forall d, k | d in place' && d < |nodes'| && 1 <= k < |nodes'[d].ents|
        ensures nodes'[d].ents[k].inum != c
      {
        LinkedBefore(nodes, place, dp, name, c, typ, place', d);
        assert nodes'[d] == nodes[d];
      }
      UnnamedHasNoLinks(nodes', place', c);
    }
  }

  // ---------- where a path starts, and what the calls come to ----------

  /** A path is walked in one go or in two. */
  lemma {:induction false} WalkOn(nodes: seq<Node>, ip: nat, p: seq<Name>, q: seq<Name>)
    ensures Namei(nodes, ip, p).None? && q != [] ==> Namei(nodes, ip, p + q).None?
    ensures Namei(nodes, ip, p).Some? ==> Namei(nodes, ip, p + q) == Namei(nodes, Namei(nodes, ip, p).value, q)
    ensures Namei(nodes, ip, p).Some? && q != [] ==>
              NameiParent(nodes, ip, p + q) == NameiParent(nodes, Namei(nodes, ip, p).value, q)
    decreases |p|
  {
    if p == [] {
      assert p + q == q;
    } else {
      assert (p + q)[0] == p[0] && (p + q)[1..] == p[1..] + q;
      if ip < |nodes| && nodes[ip].typ == T_DIR {
        var k := Lookup(nodes[ip].ents, p[0], 0);
        if k < |nodes[ip].ents| { WalkOn(nodes, nodes[ip].ents[k].inum, p[1..], q); }
      }
    }
  }

  /** The directory in which a call of process who starts, if it is still linked. */
  ghost predicate StartsAt(w: World, place: map<nat, Place>, who: nat, path: Path, d: nat) {
    && Inv(w.nodes, place) && Housed(w.nodes, w.cwds) && who < |w.cwds|
    && d == (if path.rooted then ROOT else w.cwds[who])
    && w.cwds[who] < |w.nodes| && d < |w.nodes| && w.nodes[d].nlink != 0
  }

  /** create by any path: nothing changes if the path leads somewhere or its directory nowhere, it panics exactly if the
      inodes or the directory are full, and else the path leads to the first free inode, now of that type and with one
      link, while every other inode but the directory is as it was. */
  lemma MakeLands(w: World, place: map<nat, Place>, who: nat, path: Path, typ: int, d: nat)
    requires StartsAt(w, place, who, path, d) && typ != 0
    ensures var parent, r := NameiParent(w.nodes, d, path.names), w.Stepped(Make(who, path, typ));
            if parent.None? || Namei(w.nodes, d, path.names).Some? then r == Some(w)
            else if FreeSlot(w.nodes[parent.value].ents, 0) >= MAXENTS
                    || forall i | 1 <= i < |w.nodes| :: w.nodes[i].typ != 0 then r == None
            else
              && r.Some? && r.value.cwds == w.cwds && |r.value.nodes| == |w.nodes|
              && var nodes', c := r.value.nodes, Namei(r.value.nodes, d, path.names);
                 && c.Some? && 1 <= c.value < |w.nodes|
                 && w.nodes[c.value].typ == 0 && (forall i | 1 <= i < c.value :: w.nodes[i].typ != 0)
                 && nodes'[c.value].typ == typ && nodes'[c.value].nlink == 1
                 && nodes'[parent.value].typ == T_DIR
                 && nodes'[parent.value].nlink == w.nodes[parent.value].nlink + (if typ == T_DIR then 1 else 0)
                 && (forall n :: Namei(nodes', c.value, [n]) ==
                       if typ != T_DIR then None else if n == "." then c else if n == ".." then parent else None)
                 && (forall i | 0 <= i < |w.nodes| && i != c.value && i != parent.value :: nodes'[i] == w.nodes[i])
                 && forall n | n != path.names[|path.names| - 1] ::
                      Namei(nodes', parent.value, [n]) == Namei(w.nodes, parent.value, [n])
  {
    hide Inv, Lookup, FreeSlot, NewNodes, FirstFree;
    var nodes, names := w.nodes, path.names;
    StartLinked(w, place, who, path);
    RootLinked(nodes, place);
    StartOk(nodes, place, d);
    assert w.Start(who, path) == d;
    var parent := NameiParent(nodes, d, names);
    if parent.Some? {
      PathStaysLinked(nodes, place, d, names);
      NameiByParent(nodes, d, names);
      var dp, c := parent.value, FirstFree(nodes, 1);
      if Namei(nodes, d, names).None? && c < |nodes| && FreeSlot(nodes[dp].ents, 0) < MAXENTS {
        var place' := Created(nodes, place, d, names, dp, c, typ);
        StartOk(nodes, place, dp);
        Parent(nodes, place, dp);
        NewIs(nodes, dp, names[|names| - 1], c, typ);
        EntryIs(nodes, NewNodes(nodes, dp, names[|names| - 1], c, typ), dp, names[|names| - 1], c);
      }
    }
  }

  /** A new entry hides no other. */
  lemma EntryIs(nodes: seq<Node>, nodes': seq<Node>, dp: nat, name: Name, c: nat)
    requires dp < |nodes| == |nodes'| && nodes'[dp].typ == nodes[dp].typ && c != 0
    requires nodes'[dp].ents == PutAt(nodes[dp].ents, FreeSlot(nodes[dp].ents, 0), Dirent(c, name))
    requires Lookup(nodes[dp].ents, name, 0) == |nodes[dp].ents|
    ensures forall n | n != name :: Namei(nodes', dp, [n]) == Namei(nodes, dp, [n])
  {
    forall n | n != name
      ensures Namei(nodes', dp, [n]) == Namei(nodes, dp, [n])
    {
      LookupPut(nodes[dp].ents, n, FreeSlot(nodes[dp].ents, 0), Dirent(c, name));
      var l := Lookup(nodes'[dp].ents, n, 0);
      if l < |nodes'[dp].ents| && l < |nodes[dp].ents| { assert nodes'[dp].ents[l] == nodes[dp].ents[l]; }
    }
  }

  /** The new inode, and what else it changes. */
  lemma NewIs(nodes: seq<Node>, dp: nat, name: Name, c: nat, typ: int)
    requires dp < |nodes| && c < |nodes| && c != dp && c != 0 && nodes[dp].typ == T_DIR
    ensures var nodes' := NewNodes(nodes, dp, name, c, typ);
            && nodes'[dp].typ == T_DIR && nodes'[dp].nlink == nodes[dp].nlink + (if typ == T_DIR then 1 else 0)
            && nodes'[dp].ents == PutAt(nodes[dp].ents, FreeSlot(nodes[dp].ents, 0), Dirent(c, name))
            && |nodes'| == |nodes| && nodes'[c].typ == typ && nodes'[c].nlink == 1
            && (forall i | 0 <= i < |nodes| && i != c && i != dp :: nodes'[i] == nodes[i])
            && forall n :: Namei(nodes', c, [n]) ==
                 if typ != T_DIR then None else if n == "." then Some(c)
                 else if n == ".." && dp != 0 then Some(dp) else None
  {
    hide PutAt, FreeSlot;
    var nodes' := NewNodes(nodes, dp, name, c, typ);
    forall n
      ensures Namei(nodes', c, [n]) == if typ != T_DIR then None else if n == "." then Some(c)
                                       else if n == ".." && dp != 0 then Some(dp) else None
    {
      if typ == T_DIR {
        var ents := [Dirent(c, "."), Dirent(dp, "..")];
        assert nodes'[c].ents == ents;
        assert Lookup(ents, n, 2) == 2;
        assert Lookup(ents, n, 1) == if n == ".." && dp != 0 then 1 else 2;
        assert Lookup(ents, n, 0) == if n == "." then 0 else Lookup(ents, n, 1);
      }
    }
  }

  /** link by any two paths: nothing changes if the first leads to no file, or the second somewhere or its directory
      nowhere; it panics exactly if that directory is full, and else the second path too leads to the file, which has
      one link more, while every other inode but the directory is as it was. */
  lemma JoinLands(w: World, place: map<nat, Place>, who: nat, oldPath: Path, path: Path, from: nat, d: nat)
    requires StartsAt(w, place, who, oldPath, from) && StartsAt(w, place, who, path, d)
    ensures var parent, r := NameiParent(w.nodes, d, path.names), w.Stepped(Join(who, oldPath, path));
            var found := Namei(w.nodes, from, oldPath.names);
            if found.None? || found.value >= |w.nodes| || w.nodes[found.value].typ == T_DIR || parent.None?
               || Namei(w.nodes, d, path.names).Some? then r == Some(w)
            else if FreeSlot(w.nodes[parent.value].ents, 0) >= MAXENTS then r == None
            else
              && r.Some? && r.value.cwds == w.cwds && |r.value.nodes| == |w.nodes|
              && var nodes', i := r.value.nodes, found.value;
                 && Namei(nodes', d, path.names) == found
                 && nodes'[i] == w.nodes[i].(nlink := w.nodes[i].nlink + 1)
                 && (forall j | 0 <= j < |w.nodes| && j != i && j != parent.value :: nodes'[j] == w.nodes[j])
                 && forall n | n != path.names[|path.names| - 1] ::
                      Namei(nodes', parent.value, [n]) == Namei(w.nodes, parent.value, [n])
  {
    hide Inv, Namei, NameiParent, FreeSlot, JoinNodes;
    StartLinked(w, place, who, oldPath);
    StartLinked(w, place, who, path);
    RootLinked(w.nodes, place);
    assert w.Start(who, path) == d && w.Start(who, oldPath) == from;
    JoinedIs(w.nodes, place, from, oldPath.names, d, path.names);
  }

  lemma JoinedIs(nodes: seq<Node>, place: map<nat, Place>, from: nat, oldPath: seq<Name>, d: nat, names: seq<Name>)
    requires Inv(nodes, place) && from in place && d in place
    ensures var found, parent := Namei(nodes, from, oldPath), NameiParent(nodes, d, names);
            var r := JoinNodes(nodes, from, oldPath, d, names);
            if found.None? || found.value >= |nodes| || nodes[found.value].typ == T_DIR || parent.None?
               || Namei(nodes, d, names).Some? then r == Some(nodes)
            else if FreeSlot(nodes[parent.value].ents, 0) >= MAXENTS then r == None
            else
              && r.Some? && |r.value| == |nodes| && Namei(r.value, d, names) == found
              && r.value[found.value] == nodes[found.value].(nlink := nodes[found.value].nlink + 1)
              && (forall j | 0 <= j < |nodes| && j != found.value && j != parent.value :: r.value[j] == nodes[j])
              && forall n | n != names[|names| - 1] ::
                   Namei(r.value, parent.value, [n]) == Namei(nodes, parent.value, [n])
  {
    hide Inv, Lookup, FreeSlot, PutAt, Namei, NameiParent;
    StartOk(nodes, place, d);
    StartOk(nodes, place, from);
    PathStaysLinked(nodes, place, from, oldPath);
    PathStaysLinked(nodes, place, d, names);
    NotNobody(nodes, place, from, oldPath);
    var found, parent := Namei(nodes, from, oldPath), NameiParent(nodes, d, names);
    if parent.Some? {
      NameiByParent(nodes, d, names);
      if found.Some? && nodes[found.value].typ != T_DIR && Namei(nodes, d, names).None? {
        var dp, c := parent.value, found.value;
        LinkedPath(nodes, place, d, names, dp, c);
        EntryIs(nodes, LinkNodes(nodes, dp, names[|names| - 1], c), dp, names[|names| - 1], c);
      }
    }
  }

  /** unlink by any path: nothing changes if it ends in a dot name or leads nowhere, or to a directory that names more
      than itself and its parent. Else it leads nowhere afterwards, and what it led to has one link less and is freed
      if that was the last and nobody holds it or sits in it. */
  lemma RemoveLands(w: World, place: map<nat, Place>, who: nat, path: Path, busy: bool, d: nat)
    requires StartsAt(w, place, who, path, d) && path.names != []
    ensures var found, r := Namei(w.nodes, d, path.names), w.Stepped(Remove(who, path, busy));
            var last := path.names[|path.names| - 1];
            if last == "." || last == ".." || found.None? then r == Some(w)
            else if found.value >= |w.nodes| then r == Some(w)
            else
              var i, node := found.value, w.nodes[found.value];
              if node.typ == T_DIR && exists k :: 2 <= k < |node.ents| && node.ents[k].inum != 0 then r == Some(w)
              else
                && r.Some? && r.value.cwds == w.cwds && |r.value.nodes| == |w.nodes|
                && var nodes', dp := r.value.nodes, NameiParent(w.nodes, d, path.names);
                   && Namei(nodes', d, path.names) == None && dp.Some?
                   && (nodes'[i] == if node.nlink == 1 && !busy && i !in w.cwds then Node(0, 0, [])
                                    else node.(nlink := node.nlink - 1))
                   && (forall j | 0 <= j < |w.nodes| && j != i && j != dp.value :: nodes'[j] == w.nodes[j])
                   && forall n | n != last :: Namei(nodes', dp.value, [n]) == Namei(w.nodes, dp.value, [n])
  {
    hide Inv, Namei, NameiParent, RemoveNodes;
    StartLinked(w, place, who, path);
    RootLinked(w.nodes, place);
    assert w.Start(who, path) == d;
    var found := Namei(w.nodes, d, path.names);
    RemovedIs(w.nodes, place, d, path.names, busy || (found.Some? && found.value in w.cwds));
  }

  lemma RemovedIs(nodes: seq<Node>, place: map<nat, Place>, d: nat, names: seq<Name>, held: bool)
    requires Inv(nodes, place) && d in place && names != []
    ensures var found, r := Namei(nodes, d, names), RemoveNodes(nodes, d, names, held);
            var last := names[|names| - 1];
            if last == "." || last == ".." || found.None? || found.value >= |nodes| then r == nodes
            else
              var i, node := found.value, nodes[found.value];
              if node.typ == T_DIR && exists k :: 2 <= k < |node.ents| && node.ents[k].inum != 0 then r == nodes
              else
                var dp := NameiParent(nodes, d, names);
                && |r| == |nodes| && Namei(r, d, names) == None && dp.Some?
                && (r[i] == if node.nlink == 1 && !held then Node(0, 0, []) else node.(nlink := node.nlink - 1))
                && (forall j | 0 <= j < |nodes| && j != i && j != dp.value :: r[j] == nodes[j])
                && forall n | n != last :: Namei(r, dp.value, [n]) == Namei(nodes, dp.value, [n])
  {
    hide Inv, Lookup, Namei, NameiParent, UnlinkNodes;
    StartOk(nodes, place, d);
    PathStaysLinked(nodes, place, d, names);
    NameiByParent(nodes, d, names);
    var parent, last := NameiParent(nodes, d, names), names[|names| - 1];
    if parent.Some? && last != "." && last != ".." {
      var dp := parent.value;
      var k := Lookup(nodes[dp].ents, last, 0);
      if k < |nodes[dp].ents| {
        UnlinkFacts(nodes, place, dp, last);
        var place' := UnlinkedPath(nodes, place, d, names, dp, k);
        UnlinkedIs(nodes, dp, k, held);
        if nodes[nodes[dp].ents[k].inum].typ != T_DIR || EmptyDir(nodes[nodes[dp].ents[k].inum].ents) {
          ClearedEntryIs(nodes, UnlinkNodes(nodes, dp, k, held), dp, last, k);
        }
      }
    }
  }

  lemma UnlinkedIs(nodes: seq<Node>, dp: nat, k: nat, held: bool)
    requires dp < |nodes| && k < |nodes[dp].ents| && nodes[dp].ents[k].inum < |nodes| && nodes[dp].ents[k].inum != dp
    ensures var r, i := UnlinkNodes(nodes, dp, k, held), nodes[dp].ents[k].inum;
            && |r| == |nodes| && r[dp].typ == nodes[dp].typ && r[dp].ents == nodes[dp].ents[k := Dirent(0, "")]
            && (r[i] == if nodes[i].nlink == 1 && !held then Node(0, 0, [])
                        else nodes[i].(nlink := nodes[i].nlink - 1))
            && forall j | 0 <= j < |nodes| && j != i && j != dp :: r[j] == nodes[j]
  {
  }

  lemma ClearedEntryIs(nodes: seq<Node>, nodes': seq<Node>, dp: nat, name: Name, k: nat)
    requires dp < |nodes| == |nodes'| && nodes'[dp].typ == nodes[dp].typ && NamesDiffer(nodes[dp].ents)
    requires k == Lookup(nodes[dp].ents, name, 0) < |nodes[dp].ents|
    requires nodes'[dp].ents == nodes[dp].ents[k := Dirent(0, "")]
    ensures forall n | n != name :: Namei(nodes', dp, [n]) == Namei(nodes, dp, [n])
  {
    forall n | n != name
      ensures Namei(nodes', dp, [n]) == Namei(nodes, dp, [n])
    {
      LookupCleared(nodes[dp].ents, n, k);
      var l := Lookup(nodes[dp].ents, n, 0);
      if l < |nodes[dp].ents| { assert l != k; }
    }
  }

  /** Unlinking a file that is open and then closing it comes to unlinking it closed. */
  lemma UnlinkThenClose(w: World, place: map<nat, Place>, who: nat, path: Path, i: nat, d: nat)
    requires StartsAt(w, place, who, path, d) && path.names != []
    requires Namei(w.nodes, d, path.names) == Some(i) && i !in w.cwds
    ensures var open := w.Stepped(Remove(who, path, true));
            open.Some? && open.value.Stepped(Drop(i)) == w.Stepped(Remove(who, path, false))
  {
    hide Inv, Lookup, Namei, NameiParent, ClearNodes;
    var nodes, names := w.nodes, path.names;
    StartLinked(w, place, who, path);
    RootLinked(nodes, place);
    StartOk(nodes, place, d);
    assert w.Start(who, path) == d;
    PathStaysLinked(nodes, place, d, names);
    NotNobody(nodes, place, d, names);
    NameiByParent(nodes, d, names);
    var last, dp := names[|names| - 1], NameiParent(nodes, d, names).value;
    if last != "." && last != ".." {
      UnlinkFacts(nodes, place, dp, last);
      ClearedLast(nodes, dp, Lookup(nodes[dp].ents, last, 0));
    } else {
      DotsLead(nodes, place, dp, last);
      LinkedIffCounted(nodes, place, i);
    }
  }

  /** A dot name leads to a directory. */
  lemma DotsLead(nodes: seq<Node>, place: map<nat, Place>, dp: nat, name: Name)
    requires Inv(nodes, place) && dp in place && dp < |nodes| && (name == "." || name == "..")
    requires Lookup(nodes[dp].ents, name, 0) < |nodes[dp].ents|
    ensures nodes[dp].ents[Lookup(nodes[dp].ents, name, 0)].inum in place
  {
    assert DirOk(nodes, place, dp);
    assert DirOk(nodes, place, nodes[dp].ents[1].inum);
    assert Lookup(nodes[dp].ents, name, 0) < 2;
  }

  lemma ClearedLast(nodes: seq<Node>, dp: nat, k: nat)
    requires dp < |nodes| && k < |nodes[dp].ents| && 1 <= nodes[dp].ents[k].inum < |nodes|
    requires nodes[dp].ents[k].inum != dp && nodes[nodes[dp].ents[k].inum].typ != 0
    ensures DropNodes(UnlinkNodes(nodes, dp, k, true), nodes[dp].ents[k].inum) == UnlinkNodes(nodes, dp, k, false)
  {
  }

  /** chdir by any path: nothing changes if it does not lead to a directory; else that is the process's directory, and
      the one it leaves is freed if it was removed and nobody holds it or sits in it. */
  lemma ChdirLands(w: World, place: map<nat, Place>, who: nat, path: Path, busy: bool, d: nat)
    requires StartsAt(w, place, who, path, d)
    ensures var found, r := Namei(w.nodes, d, path.names), w.Stepped(Chdir(who, path, busy));
            if found.None? || found.value >= |w.nodes| || w.nodes[found.value].typ != T_DIR then r == Some(w)
            else
              && r.Some? && r.value.cwds == w.cwds[who := found.value] && |r.value.nodes| == |w.nodes|
              && (r.value.nodes[w.cwds[who]] ==
                    if w.nodes[w.cwds[who]].nlink == 0 && !busy && w.cwds[who] !in r.value.cwds then Node(0, 0, [])
                    else w.nodes[w.cwds[who]])
              && forall i | 0 <= i < |w.nodes| && i != w.cwds[who] :: r.value.nodes[i] == w.nodes[i]
  {
    hide Inv, Namei;
    assert w.Start(who, path) == d && w.cwds[who] in w.cwds;
  }

  /** Freeing what has been removed changes no walk from a linked directory. */
  lemma {:induction false} WalkKeptByDrop(nodes: seq<Node>, place: map<nat, Place>, x: nat, ip: nat, path: seq<Name>)
    requires Shape(nodes, place) && x < |nodes| && x !in place
    requires ip < |nodes| && nodes[ip].typ != 0 && (nodes[ip].typ == T_DIR ==> ip in place)
    ensures Namei(nodes[x := Node(0, 0, [])], ip, path) == Namei(nodes, ip, path)
    decreases |path|
  {
    hide Shape;
    if path != [] && nodes[ip].typ == T_DIR {
      var k := Lookup(nodes[ip].ents, path[0], 0);
      if k < |nodes[ip].ents| {
        EntryLeads(nodes, place, ip, k);
        WalkKeptByDrop(nodes, place, x, nodes[ip].ents[k].inum, path[1..]);
      }
    }
  }

  /** After a chdir to where /p leads, /p still leads to the directory the process then sits in, and that is linked. */
  lemma ChdirStays(w: World, place: map<nat, Place>, who: nat, p: seq<Name>, d: nat, busy: bool)
    requires StartsAt(w, place, who, Path(true, p), ROOT)
    requires Namei(w.nodes, ROOT, p) == Some(d) && d < |w.nodes| && w.nodes[d].typ == T_DIR
    ensures var moved := w.Stepped(Chdir(who, Path(true, p), busy));
            && moved.Some? && moved.value.cwds == w.cwds[who := d] && |moved.value.nodes| == |w.nodes|
            && Namei(moved.value.nodes, ROOT, p) == Some(d) && moved.value.nodes[d].nlink != 0
            && (busy || w.nodes[w.cwds[who]].nlink != 0 ==> moved.value.nodes == w.nodes)
  {
    hide Inv, Namei;
    var nodes, last := w.nodes, w.cwds[who];
    ChdirLands(w, place, who, Path(true, p), busy, ROOT);
    RootLinked(nodes, place);
    StartOk(nodes, place, ROOT);
    PathStaysLinked(nodes, place, ROOT, p);
    NotNobody(nodes, place, ROOT, p);
    LinkedIffCounted(nodes, place, d);
    assert last in w.cwds;
    LinkedIffCounted(nodes, place, last);
    if nodes[last].nlink == 0 { WalkKeptByDrop(nodes, place, last, ROOT, p); }
    var nodes' := w.Stepped(Chdir(who, Path(true, p), busy)).value.nodes;
    assert nodes' == nodes || (nodes[last].nlink == 0 && nodes' == nodes[last := Node(0, 0, [])]);
  }

  /** A process that has changed to where /p leads: its calls by relative paths q are those by /p/q. */
  lemma RelativeIsJoined(w: World, place: map<nat, Place>, who: nat, p: seq<Name>, q: seq<Name>, more: seq<Name>,
                         d: nat, typ: int, busy: bool, held: bool)
    requires StartsAt(w, place, who, Path(true, p), ROOT) && q != []
    requires Namei(w.nodes, ROOT, p) == Some(d) && d < |w.nodes| && w.nodes[d].typ == T_DIR
    ensures var moved := w.Stepped(Chdir(who, Path(true, p), busy));
            && moved.Some?
            && var m := moved.value;
               && m.Stepped(Make(who, Path(false, q), typ)) == m.Stepped(Make(who, Path(true, p + q), typ))
               && m.Stepped(Join(who, Path(false, more), Path(false, q)))
                  == m.Stepped(Join(who, Path(true, p + more), Path(true, p + q)))
               && m.Stepped(Remove(who, Path(false, q), held)) == m.Stepped(Remove(who, Path(true, p + q), held))
               && m.Stepped(Chdir(who, Path(false, q), held)) == m.Stepped(Chdir(who, Path(true, p + q), held))
  {
    hide Inv, MakeNodes, JoinNodes, RemoveNodes, DropNodes, Namei, NameiParent;
    ChdirStays(w, place, who, p, d, busy);
    var m := w.Stepped(Chdir(who, Path(true, p), busy)).value;
    WalkOn(m.nodes, ROOT, p, q);
    WalkOn(m.nodes, ROOT, p, more);
    var again := StepKeepsTree(w, place, Chdir(who, Path(true, p), busy));
    RootCounted(m.nodes, again);
    var found := Namei(m.nodes, d, q);
    ByRelative(m.nodes, d, p, q, more, typ, held || (found.Some? && found.value in m.cwds));
  }

  /** create, link and unlink ask of a path only where it leads, where its directory is, and its last name. */
  lemma ByRelative(nodes: seq<Node>, d: nat, p: seq<Name>, q: seq<Name>, more: seq<Name>, typ: int, held: bool)
    requires q != [] && NameiParent(nodes, ROOT, p + q) == NameiParent(nodes, d, q)
    requires Namei(nodes, ROOT, p + q) == Namei(nodes, d, q) && Namei(nodes, ROOT, p + more) == Namei(nodes, d, more)
    ensures MakeNodes(nodes, ROOT, p + q, typ) == MakeNodes(nodes, d, q, typ)
    ensures JoinNodes(nodes, ROOT, p + more, ROOT, p + q) == JoinNodes(nodes, d, more, d, q)
    ensures RemoveNodes(nodes, ROOT, p + q, held) == RemoveNodes(nodes, d, q, held)
  {
    hide Namei, NameiParent, Lookup, FreeSlot, NewNodes, LinkNodes, UnlinkNodes;
    assert (p + q)[|p + q| - 1] == q[|q| - 1];
  }

  lemma RootCounted(nodes: seq<Node>, place: map<nat, Place>)
    requires Inv(nodes, place)
    ensures ROOT < |nodes| && nodes[ROOT].typ == T_DIR && nodes[ROOT].nlink >= 1
  {
    assert DirOk(nodes, place, ROOT);
    LinkedIffCounted(nodes, place, ROOT);
  }

  /** Where nothing is freed by it, the chdir and then the call by q leave the inodes that the call by /p/q leaves. */
  lemma ChdirThenCall(w: World, place: map<nat, Place>, who: nat, p: seq<Name>, q: seq<Name>, more: seq<Name>, d: nat,
                      typ: int)
    requires StartsAt(w, place, who, Path(true, p), ROOT) && q != [] && w.nodes[w.cwds[who]].nlink != 0
    requires Namei(w.nodes, ROOT, p) == Some(d) && d < |w.nodes| && w.nodes[d].typ == T_DIR
    ensures var moved := w.Stepped(Chdir(who, Path(true, p), false));
            && moved.Some?
            && SameNodes(moved.value.Stepped(Make(who, Path(false, q), typ)),
                         w.Stepped(Make(who, Path(true, p + q), typ)))
            && SameNodes(moved.value.Stepped(Join(who, Path(false, more), Path(false, q))),
                         w.Stepped(Join(who, Path(true, p + more), Path(true, p + q))))
            && SameNodes(moved.value.Stepped(Remove(who, Path(false, q), true)),
                         w.Stepped(Remove(who, Path(true, p + q), true)))
  {
    hide Inv, MakeNodes, JoinNodes, RemoveNodes, DropNodes, Namei, NameiParent;
    ChdirStays(w, place, who, p, d, false);
    RelativeIsJoined(w, place, who, p, q, more, d, typ, false, true);
  }

  /** Both calls panic, or both leave the same inodes. */
  ghost predicate SameNodes(a: Option<World>, b: Option<World>) {
    (a.Some? <==> b.Some?) && (a.Some? ==> a.value.nodes == b.value.nodes)
  }

  lemma {:induction false} StopsForGood(w: World, ops: seq<Op>, n: nat)
    requires n <= |ops| && w.Ran(ops[..n]).None?
    ensures w.Ran(ops).None?
    decreases |ops|
  {
    if n < |ops| {
      assert ops[..|ops| - 1][..n] == ops[..n];
      StopsForGood(w, ops[..|ops| - 1], n);
    } else {
      assert ops[..n] == ops;
    }
  }

  /** No inode is free, or some directory cannot take another entry. */
  ghost predicate Exhausted(nodes: seq<Node>) {
    || (forall i | 1 <= i < |nodes| :: nodes[i].typ != 0)
    || exists d | 0 <= d < |nodes| :: FreeSlot(nodes[d].ents, 0) >= MAXENTS
  }

  class NameSpace {
    /** The inodes, in memory and on disk alike. */
    const nodes: array<Node>
    /** proc->cwd of each process. */
    var cwds: seq<nat>
    ghost var place: map<nat, Place>

    ghost predicate Valid()
      reads this, nodes
    {
      Inv(nodes[..], place)
    }

    /** Between two calls: a tree with right link counts, and each process in a directory. */
    ghost predicate Settled()
      reads this, nodes
    {
      Valid() && Housed(nodes[..], cwds)
    }

    function View(): World
      reads this, nodes
    {
      World(nodes[..], cwds)
    }

    /** dirlookup (kernel/fs.c:464-493): the slot of the entry, or the number of slots. */
    method Dirlookup(dp: nat, name: Name) returns (k: nat)
      requires dp < nodes.Length
      ensures k == Lookup(nodes[dp].ents, name, 0)
    {
      k := 0;
      while k < |nodes[dp].ents|
        invariant k <= |nodes[dp].ents|
        invariant Lookup(nodes[dp].ents, name, 0) == Lookup(nodes[dp].ents, name, k)
      {
        if nodes[dp].ents[k].inum != 0 && nodes[dp].ents[k].name == name { return; }
        k := k + 1;
      }
    }

    /** namex with nameiparent 0 (kernel/fs.c:567-600). */
    method Walk(start: nat, path: seq<Name>) returns (r: Option<nat>)
      ensures r == Namei(nodes[..], start, path)
    {
      var ip: nat, i: nat := start, 0;
      while i < |path|
        invariant i <= |path|
        invariant Namei(nodes[..], start, path) == Namei(nodes[..], ip, path[i..])
      {
        if ip >= nodes.Length || nodes[ip].typ != T_DIR { return None; }
        var k := Dirlookup(ip, path[i]);
        if k == |nodes[ip].ents| { return None; }
        assert path[i..][1..] == path[i + 1..];
        ip, i := nodes[ip].ents[k].inum, i + 1;
      }
      r := Some(ip);
    }

    /** namex with nameiparent 1: stop one level early. */
    method WalkParent(start: nat, path: seq<Name>) returns (r: Option<nat>)
      ensures r == NameiParent(nodes[..], start, path)
    {
      var ip: nat, i: nat := start, 0;
      while i < |path|
        invariant i <= |path|
        invariant NameiParent(nodes[..], start, path) == NameiParent(nodes[..], ip, path[i..])
      {
        if ip >= nodes.Length || nodes[ip].typ != T_DIR { return None; }
        if i + 1 == |path| { return Some(ip); }
        var k := Dirlookup(ip, path[i]);
        if k == |nodes[ip].ents| { return None; }
        assert path[i..][1..] == path[i + 1..];
        ip, i := nodes[ip].ents[k].inum, i + 1;
      }
      r := None;
    }

    /** dirlink (kernel/fs.c:496-523). Stopped is the panic when the directory file cannot grow. */
    method Dirlink(dp: nat, name: Name, inum: nat) returns (r: Ret)
      requires dp < nodes.Length
      modifies nodes
      ensures r.Fail? <==> Lookup(old(nodes[dp].ents), name, 0) < |old(nodes[dp].ents)|
      ensures r.Stopped? ==> FreeSlot(old(nodes[dp].ents), 0) >= MAXENTS
      ensures !r.Ok? ==> unchanged(nodes)
      ensures r.Ok? ==> r.inum == inum && FreeSlot(old(nodes[dp].ents), 0) < MAXENTS
      ensures r.Ok? ==>
                nodes[..] == old(nodes[..])[dp := old(nodes[dp]).(ents :=
                  PutAt(old(nodes[dp].ents), FreeSlot(old(nodes[dp].ents), 0), Dirent(inum, name)))]
    {
      var k := Dirlookup(dp, name);
      if k < |nodes[dp].ents| { return Fail; }
      k := 0;
      while k < |nodes[dp].ents| && nodes[dp].ents[k].inum != 0
        modifies {}
        invariant k <= |nodes[dp].ents|
        invariant FreeSlot(nodes[dp].ents, 0) == FreeSlot(nodes[dp].ents, k)
      {
        k := k + 1;
      }
      if k >= MAXENTS { return Stopped; }
      var e := Dirent(inum, name);
      nodes[dp] := nodes[dp].(ents := PutAt(nodes[dp].ents, k, e));
      r := Ok(inum);
    }

    /** ialloc (kernel/fs.c:145-168): the first free inode from 1 on. */
    method Ialloc() returns (c: nat)
      ensures 1 <= c && forall i | 1 <= i < c && i < nodes.Length :: nodes[i].typ != 0
      ensures c < nodes.Length ==> nodes[c].typ == 0
    {
      c := 1;
      while c < nodes.Length && nodes[c].typ != 0
        invariant 1 <= c && forall i | 1 <= i < c && i < nodes.Length :: nodes[i].typ != 0
      {
        c := c + 1;
      }
    }

    /** create (kernel/sysfile.c:213-255), from a linked directory start. */
    method Create(start: nat, path: seq<Name>, typ: int) returns (r: Ret)
      requires Valid() && start in place && typ != 0
      modifies nodes, `place
      ensures r.Fail? || r.Stopped? ==> r.Stopped? || (unchanged(nodes) && Valid())
      ensures NameiParent(old(nodes[..]), start, path).None? ==> r.Fail?
      ensures var dp := NameiParent(old(nodes[..]), start, path); dp.Some? ==>
                var ents := old(nodes[..])[dp.value].ents;
                var k := Lookup(ents, path[|path| - 1], 0);
                if k < |ents| then
                  && ents[k].inum < nodes.Length
                  && r == (if typ == T_FILE && old(nodes[..])[ents[k].inum].typ == T_FILE then Ok(ents[k].inum)
                           else Fail)
                  && unchanged(nodes)
                else if r.Ok? then
                  && 1 <= r.inum < nodes.Length
                  && old(nodes[..])[r.inum].typ == 0 && (forall i | 1 <= i < r.inum :: old(nodes[..])[i].typ != 0)
                  && nodes[..] == NewNodes(old(nodes[..]), dp.value, path[|path| - 1], r.inum, typ)
                  && FreeSlot(ents, 0) < MAXENTS
                else
                  && r.Stopped?
                  && ((forall i | 1 <= i < nodes.Length :: old(nodes[..])[i].typ != 0) || FreeSlot(ents, 0) >= MAXENTS)
      ensures r.Ok? ==> Valid() && Namei(nodes[..], start, path) == Some(r.inum)
      ensures place.Keys >= old(place.Keys)
    {
      hide Shape, Counted, Lookup, FreeSlot;
      ghost var nodes0 := nodes[..];
      StartOk(nodes0, place, start);
      PathStaysLinked(nodes0, place, start, path);
      var parent := WalkParent(start, path);
      if parent.None? { return Fail; }
      NameiByParent(nodes0, start, path);
      var dp, name := parent.value, path[|path| - 1];
      var k := Dirlookup(dp, name);
      if k < |nodes[dp].ents| {
        EntryLeads(nodes0, place, dp, k);
        var ip := nodes[dp].ents[k].inum;
        if typ == T_FILE && nodes[ip].typ == T_FILE { return Ok(ip); }
        return Fail;
      }
      var c := Ialloc();
      if c >= nodes.Length { return Stopped; }
      NewInodeApart(nodes0, place, dp, c);
      NewInode(dp, c, typ);
      r := Dirlink(dp, name, c);
      if !r.Ok? { return Stopped; }
      assert nodes[..] == NewNodes(nodes0, dp, name, c, typ);
      place := Created(nodes0, place, start, path, dp, c, typ);
    }

    /** The part of create that fills in the new inode (kernel/sysfile.c:236-248). */
    method NewInode(dp: nat, c: nat, typ: int)
      requires dp < nodes.Length && 1 <= c < nodes.Length && c != dp && typ != 0
      modifies nodes
      ensures nodes[..] == if typ == T_DIR
                           then old(nodes[..])[c := Node(T_DIR, 1, [Dirent(c, "."), Dirent(dp, "..")])]
                                              [dp := old(nodes[dp]).(nlink := old(nodes[dp].nlink) + 1)]
                           else old(nodes[..])[c := Node(typ, 1, [])]
    {
      nodes[c] := Node(typ, 1, []);
      if typ == T_DIR {
        nodes[dp] := nodes[dp].(nlink := nodes[dp].nlink + 1);
        var r := Dirlink(c, ".", c);
        assert nodes[c] == Node(typ, 1, [Dirent(c, ".")]);
        r := Dirlink(c, "..", dp);
        assert nodes[c] == Node(T_DIR, 1, [Dirent(c, "."), Dirent(dp, "..")]);
      }
    }

    /** sys_link (kernel/sysfile.c:111-146): old names the file, new the entry to make. */
    method Link(oldStart: nat, oldPath: seq<Name>, start: nat, path: seq<Name>) returns (r: Ret)
      requires Valid() && oldStart in place && start in place
      modifies nodes
      ensures !r.Stopped? ==> Valid()
      ensures r.Stopped? ==>
                && NameiParent(old(nodes[..]), start, path).Some?
                && FreeSlot(old(nodes[..])[NameiParent(old(nodes[..]), start, path).value].ents, 0) >= MAXENTS
      ensures r.Fail? ==> nodes[..] == old(nodes[..])
      ensures r.Fail? <==>
                || Namei(old(nodes[..]), oldStart, oldPath).None?
                || (Namei(old(nodes[..]), oldStart, oldPath).value < nodes.Length
                    && old(nodes[..])[Namei(old(nodes[..]), oldStart, oldPath).value].typ == T_DIR)
                || NameiParent(old(nodes[..]), start, path).None?
                || Namei(old(nodes[..]), start, path).Some?
      ensures r.Ok? ==>
                && Namei(old(nodes[..]), oldStart, oldPath) == Some(r.inum) && r.inum < nodes.Length
                && NameiParent(old(nodes[..]), start, path).Some?
                && nodes[..] == LinkNodes(old(nodes[..]), NameiParent(old(nodes[..]), start, path).value,
                                          path[|path| - 1], r.inum)
                && Namei(nodes[..], start, path) == Some(r.inum)
                && FreeSlot(old(nodes[..])[NameiParent(old(nodes[..]), start, path).value].ents, 0) < MAXENTS
    {
      hide Shape, Counted, Lookup, FreeSlot;
      ghost var nodes0 := nodes[..];
      StartOk(nodes0, place, oldStart);
      StartOk(nodes0, place, start);
      PathStaysLinked(nodes0, place, oldStart, oldPath);
      PathStaysLinked(nodes0, place, start, path);
      if path != [] { NameiByParent(nodes0, start, path); }
      var found := Walk(oldStart, oldPath);
      if found.None? { return Fail; }
      var ip := found.value;
      if nodes[ip].typ == T_DIR { return Fail; }
      nodes[ip] := nodes[ip].(nlink := nodes[ip].nlink + 1);
      ghost var mid := nodes[..];
      WalksAside(nodes0, mid, start, path);
      var parent := WalkParent(start, path);
      if parent.Some? {
        r := Dirlink(parent.value, path[|path| - 1], ip);
        if r.Stopped? { return; }
        if r.Ok? {
          NotNobody(nodes0, place, oldStart, oldPath);
          assert nodes[..] == LinkNodes(nodes0, parent.value, path[|path| - 1], ip);
          LinkedPath(nodes0, place, start, path, parent.value, ip);
          return;
        }
      }
      nodes[ip] := nodes[ip].(nlink := nodes[ip].nlink - 1);
      assert nodes[..] == nodes0;
      r := Fail;
    }

    /** isdirempty (kernel/sysfile.c:149-162). */
    method Isdirempty(dp: nat) returns (b: bool)
      requires dp < nodes.Length
      ensures b == EmptyDir(nodes[dp].ents)
    {
      var k := 2;
      while k < |nodes[dp].ents|
        invariant k >= 2 && forall l | 2 <= l < k && l < |nodes[dp].ents| :: nodes[dp].ents[l].inum == 0
      {
        if nodes[dp].ents[k].inum != 0 { return false; }
        k := k + 1;
      }
      b := true;
    }

    /** sys_unlink (kernel/sysfile.c:164-211). When busy, other references keep the inode in use for now.
        The "nlink < 1" panic is never reached. */
    method Unlink(start: nat, path: seq<Name>, busy: bool) returns (r: Ret)
      requires Valid() && start in place
      modifies nodes, `place
      ensures !r.Stopped? && Valid()
      ensures r.Fail? ==> nodes[..] == old(nodes[..])
      ensures var dp := NameiParent(old(nodes[..]), start, path);
              if dp.None? || path[|path| - 1] == "." || path[|path| - 1] == ".." then r.Fail?
              else
                var ents := old(nodes[..])[dp.value].ents;
                var k := Lookup(ents, path[|path| - 1], 0);
                if k == |ents| then r.Fail?
                else
                  && ents[k].inum < nodes.Length
                  && var node := old(nodes[..])[ents[k].inum];
                     if node.typ == T_DIR && !EmptyDir(node.ents) then r.Fail?
                     else r == Ok(ents[k].inum) && nodes[..] == UnlinkNodes(old(nodes[..]), dp.value, k, busy)
      ensures r.Ok? ==> Namei(nodes[..], start, path) == None
      ensures r.Ok? ==> Namei(old(nodes[..]), start, path) == Some(r.inum)
      ensures place.Keys >= old(place.Keys) - (if r.Ok? then {r.inum} else {})
    {
      hide Shape, Counted, Lookup;
      ghost var nodes0 := nodes[..];
      StartOk(nodes0, place, start);
      PathStaysLinked(nodes0, place, start, path);
      var parent := WalkParent(start, path);
      if parent.None? { return Fail; }
      var dp, name := parent.value, path[|path| - 1];
      if name == "." || name == ".." { return Fail; }
      var k := Dirlookup(dp, name);
      if k == |nodes[dp].ents| { return Fail; }
      NameiByParent(nodes0, start, path);
      ghost var place' := UnlinkedPath(nodes0, place, start, path, dp, k);
      var ip := nodes[dp].ents[k].inum;
      if nodes[ip].nlink < 1 { return Stopped; }
      if nodes[ip].typ == T_DIR {
        var empty := Isdirempty(ip);
        if !empty { return Fail; }
      }
      nodes[dp] := nodes[dp].(ents := nodes[dp].ents[k := Dirent(0, "")]);
      if nodes[ip].typ == T_DIR { nodes[dp] := nodes[dp].(nlink := nodes[dp].nlink - 1); }
      nodes[ip] := nodes[ip].(nlink := nodes[ip].nlink - 1);
      assert nodes[..] == ClearNodes(nodes0, dp, k);
      place := place';
      Iput(ip, busy);
      r := Ok(ip);
    }

    /** iput (kernel/fs.c:281-300): the last reference to an inode without links frees it. */
    method Iput(ip: nat, busy: bool)
      requires Valid() && 1 <= ip < nodes.Length && nodes[ip].typ != 0
      modifies nodes
      ensures Valid()
      ensures nodes[..] == if !busy && old(nodes[ip].nlink) == 0 then old(nodes[..])[ip := Node(0, 0, [])]
                           else old(nodes[..])
    {
      hide Shape, Counted;
      if !busy && nodes[ip].nlink == 0 {
        Released(nodes[..], place, ip);
        nodes[ip] := Node(0, 0, []);
        assert nodes[..] == old(nodes[..])[ip := Node(0, 0, [])];
      }
    }

    /** A disk whose only directory is the root, on which names differ, and processes that start there. */
    constructor (table: seq<Node>, nproc: nat)
      requires RootOnly(table) && NamesDiffer(table[ROOT].ents)
      ensures Settled() && fresh(nodes) && nodes[..] == table && place.Keys == {ROOT} && cwds == seq(nproc, _ => ROOT)
    {
      nodes := new Node[|table|](i requires 0 <= i < |table| => table[i]);
      cwds := seq(nproc, _ => ROOT);
      place := map[ROOT := Place(0, 0)];
      new;
      assert nodes[..] == table;
      RootShape(table);
    }

    method PerformMake(start: nat, path: seq<Name>, typ: int) returns (stopped: bool)
      requires Settled() && start in place && typ != 0
      modifies nodes, `place
      ensures stopped <==> MakeNodes(old(nodes[..]), start, path, typ).None?
      ensures stopped ==> Exhausted(old(nodes[..]))
      ensures !stopped ==> Settled() && Some(nodes[..]) == MakeNodes(old(nodes[..]), start, path, typ)
    {
      hide Shape, Counted, Lookup, FreeSlot, NewNodes, Namei, NameiParent;
      ghost var nodes0 := nodes[..];
      StartOk(nodes0, place, start);
      var r := Create(start, path, typ);
      stopped := r.Stopped?;
      if MakeNodes(nodes0, start, path, typ).Some? { MadeTypes(nodes0, start, path, typ); }
      ghost var parent := NameiParent(nodes0, start, path);
      if parent.Some? {
        ghost var ents := nodes0[parent.value].ents;
        if Lookup(ents, path[|path| - 1], 0) < |ents| {
          assert nodes[..] == nodes0;
        } else if r.Ok? {
          FirstFreeIs(nodes0, 1, r.inum);
          assert nodes[..] == NewNodes(nodes0, parent.value, path[|path| - 1], r.inum, typ);
        } else {
          assert r.Stopped?;
        }
      } else {
        assert nodes[..] == nodes0;
      }
    }

    method PerformJoin(oldStart: nat, oldPath: seq<Name>, start: nat, path: seq<Name>) returns (stopped: bool)
      requires Settled() && oldStart in place && start in place
      modifies nodes
      ensures stopped <==> JoinNodes(old(nodes[..]), oldStart, oldPath, start, path).None?
      ensures stopped ==> Exhausted(old(nodes[..]))
      ensures !stopped ==> Settled() && Some(nodes[..]) == JoinNodes(old(nodes[..]), oldStart, oldPath, start, path)
    {
      hide Shape, Counted, Lookup, FreeSlot, LinkNodes, Namei, NameiParent;
      StartOk(nodes[..], place, oldStart);
      PathStaysLinked(nodes[..], place, oldStart, oldPath);
      if JoinNodes(nodes[..], oldStart, oldPath, start, path).Some? {
        JoinedTypes(nodes[..], oldStart, oldPath, start, path);
      }
      var r := Link(oldStart, oldPath, start, path);
      stopped := r.Stopped?;
    }

    method PerformRemove(start: nat, path: seq<Name>, busy: bool)
      requires Settled() && start in place
      modifies nodes, `place
      ensures var found := Namei(old(nodes[..]), start, path);
              nodes[..] == RemoveNodes(old(nodes[..]), start, path, busy || (found.Some? && found.value in cwds))
      ensures Settled()
    {
      hide Shape, Counted, Lookup, UnlinkNodes, Namei, NameiParent;
      StartOk(nodes[..], place, start);
      var target := Walk(start, path);
      var held := busy || (target.Some? && target.value in cwds);
      RemovedTypes(nodes[..], place, start, path, held);
      var r := Unlink(start, path, held);
    }

    /** One system call, or the last reference to an unlinked inode dropped. */
    method Perform(op: Op) returns (stopped: bool)
      requires Settled()
      modifies this, nodes
      ensures stopped <==> old(View()).Stepped(op).None?
      ensures stopped ==> Exhausted(old(nodes[..]))
      ensures !stopped ==> Settled() && Some(View()) == old(View()).Stepped(op)
    {
      hide Shape, Counted, FreeSlot, MakeNodes, JoinNodes, RemoveNodes, Exhausted;
      if View().StartsLost(op) { return false; }
      stopped := false;
      match op
      case Make(who, path, typ) =>
        StartLinked(View(), place, who, path);
        if typ != 0 { stopped := PerformMake(View().Start(who, path), path.names, typ); }
      case Join(who, oldPath, path) =>
        StartLinked(View(), place, who, oldPath);
        StartLinked(View(), place, who, path);
        stopped := PerformJoin(View().Start(who, oldPath), oldPath.names, View().Start(who, path), path.names);
      case Remove(who, path, busy) =>
        StartLinked(View(), place, who, path);
        PerformRemove(View().Start(who, path), path.names, busy);
      case Chdir(who, path, busy) => PerformChdir(who, path, busy);
      case Drop(ip) => PerformDrop(ip);
    }

    /** The last reference to an inode dropped, if it is nobody's current directory. */
    method PerformDrop(ip: nat)
      requires Settled()
      modifies nodes
      ensures nodes[..] == if ip in cwds then old(nodes[..]) else DropNodes(old(nodes[..]), ip)
      ensures Settled()
    {
      hide Shape, Counted;
      if 1 <= ip < nodes.Length && nodes[ip].typ != 0 && ip !in cwds { Iput(ip, false); }
    }

    /** sys_chdir (kernel/sysfile.c:326-342): the path has to lead to a directory; the last one is given up. */
    method PerformChdir(who: nat, path: Path, busy: bool)
      requires Settled() && !View().Lost(who, path)
      modifies `cwds, nodes
      ensures Settled() && Some(View()) == old(View()).Stepped(Chdir(who, path, busy))
    {
      hide Shape, Counted;
      if who >= |cwds| { return; }
      StartLinked(View(), place, who, path);
      var start := View().Start(who, path);
      StartOk(nodes[..], place, start);
      PathStaysLinked(nodes[..], place, start, path.names);
      NotNobody(nodes[..], place, start, path.names);
      var ip := Walk(start, path.names);
      if ip.None? || nodes[ip.value].typ != T_DIR { return; }
      var last := cwds[who];
      assert last in cwds;
      MovedHoused(nodes[..], cwds, who, ip.value, true);
      cwds := cwds[who := ip.value];
      if !busy { PerformDrop(last); }
    }

    /** Any run of system calls keeps the directories a tree and every link count right, and the inodes are those
        of the run on values. It stops only where a call panics: at nodes with no free inode or with a full
        directory. */
    method Run(ops: seq<Op>) returns (stopped: bool, done: nat)
      requires Settled()
      modifies this, nodes
      ensures done <= |ops| && old(View()).Ran(ops[..done]).Some?
      ensures stopped <==> old(View()).Ran(ops).None?
      ensures !stopped ==> Settled() && Some(View()) == old(View()).Ran(ops)
      ensures stopped ==> done < |ops| && Exhausted(old(View()).Ran(ops[..done]).value.nodes)
    {
      hide Exhausted, Inv;
      stopped, done := false, 0;
      while done < |ops|
        invariant done <= |ops| && Settled() && Some(View()) == old(View()).Ran(ops[..done])
      {
        assert ops[..done + 1][..done] == ops[..done];
        stopped := Perform(ops[done]);
        if stopped {
          StopsForGood(old(View()), ops, done + 1);
          return;
        }
        done := done + 1;
      }
      assert ops[..done] == ops;
    }
  }
}

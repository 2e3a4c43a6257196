/** Path names: skipelem and namex of kernel/fs.c on the characters of a path. A path is a C string without
    its NUL. */
module Path {
  import opened Common
  import opened NameTree

  const DIRSIZ: nat := 14

  /** The length of the element a path starts with. */
  function ElemLength(s: string): (n: nat)
    ensures n <= |s| && (forall i | 0 <= i < n :: s[i] != '/') && (n < |s| ==> s[n] == '/')
  {
    if s == "" || s[0] == '/' then 0 else 1 + ElemLength(s[1..])
  }

  /** What a directory entry can hold of a name. */
  function Cut(s: string): (name: string)
    ensures name <= s && |name| == if |s| < 14 then |s| else 14
  {
    if |s| >= DIRSIZ then s[..DIRSIZ] else s
  }

  /** The names on a path. */
  function Elements(path: string): seq<Name>
    decreases |path|
  {
    if path == "" then []
    else if path[0] == '/' then Elements(path[1..])
    else
      var n := ElemLength(path);
      assert n > 0;
      [Cut(path[..n])] + Elements(path[n..])
  }

  lemma {:induction false} ElemLengthIs(a: string, rest: string)
    requires '/' !in a && (rest == "" || rest[0] == '/')
    ensures ElemLength(a + rest) == |a|
  {
    if a != "" {
      assert a[0] in a && (a + rest)[1..] == a[1..] + rest;
      ElemLengthIs(a[1..], rest);
    }
  }

  /** A path that starts with the element a. */
  lemma ElementFirst(a: string, rest: string)
    requires a != "" && '/' !in a && (rest == "" || rest[0] == '/')
    ensures Elements(a + rest) == [Cut(a)] + Elements(rest)
  {
    var path := a + rest;
    ElemLengthIs(a, rest);
    assert path[0] == a[0] && a[0] in a;
    assert path[..|a|] == a && path[|a|..] == rest;
  }

  lemma SlashFirst(rest: string)
    ensures Elements("/" + rest) == Elements(rest)
  {
    assert ("/" + rest)[1..] == rest;
  }

  /** A slash between two paths puts their names one after another. */
  lemma {:induction false} Joined(a: string, b: string)
    ensures Elements(a + "/" + b) == Elements(a) + Elements(b)
    decreases |a|
  {
    hide Elements, Cut;
    if a == "" {
      SlashFirst(b);
      NoElements();
      assert a + "/" + b == "/" + b;
    } else if a[0] == '/' {
      Joined(a[1..], b);
      SlashFirst(a[1..]);
      SlashFirst(a[1..] + "/" + b);
      assert a == "/" + a[1..] && a + "/" + b == "/" + (a[1..] + "/" + b);
    } else {
      var n := ElemLength(a);
      var first, rest := a[..n], a[n..];
      Joined(rest, b);
      ElementFirst(first, rest);
      ElementFirst(first, rest + "/" + b);
      assert a == first + rest && a + "/" + b == first + (rest + "/" + b);
    }
  }

  lemma NoElements()
    ensures Elements("") == []
  {
  }

  /** The path that spells the names. */
  function Spell(names: seq<Name>): string {
    if names == [] then "" else "/" + names[0] + Spell(names[1..])
  }

  predicate IsName(name: Name) {
    name != "" && |name| <= DIRSIZ && '/' !in name
  }

  /** Spelling names and taking the path apart again gives the names. */
  lemma {:induction false} Spelled(names: seq<Name>)
    requires forall i | 0 <= i < |names| :: IsName(names[i])
    ensures Elements(Spell(names)) == names
  {
    hide Elements;
    NoElements();
    if names != [] {
      var rest := Spell(names[1..]);
      Spelled(names[1..]);
      ElementFirst(names[0], rest);
      SlashFirst(names[0] + rest);
      assert Spell(names) == "/" + (names[0] + rest) && Cut(names[0]) == names[0];
    }
  }

  /** skipelem from place i of the path: None at the end, else the next name and the place after it and any
      slashes, which is the end exactly when no name is left. */
  method Skipelem(path: string, i: nat) returns (next: Option<nat>, name: Name)
    requires i <= |path|
    ensures next.None? <==> Elements(path[i..]) == []
    ensures next.Some? ==>
              && i < next.value <= |path| && Elements(path[i..]) == [name] + Elements(path[next.value..])
              && (next.value == |path| <==> Elements(path[next.value..]) == [])
  {
    hide Elements;
    name := "";
    var p := SkipSlashes(path, i);
    if p == |path| { return None, name; }
    var s := p;
    while p < |path| && path[p] != '/'
      invariant s <= p <= |path| && forall k | s <= k < p :: path[k] != '/'
    {
      p := p + 1;
    }
    var len := p - s;
    if len >= DIRSIZ { name := path[s..s + DIRSIZ]; } else { name := path[s..p]; }
    assert path[s..] == path[s..p] + path[p..] && '/' !in path[s..p] && name == Cut(path[s..p]);
    ElementFirst(path[s..p], path[p..]);
    p := SkipSlashes(path, p);
    return Some(p), name;
  }

  method SkipSlashes(path: string, i: nat) returns (p: nat)
    requires i <= |path|
    ensures i <= p <= |path| && Elements(path[p..]) == Elements(path[i..]) && (p < |path| ==> path[p] != '/')
    ensures p == |path| <==> Elements(path[i..]) == []
  {
    p := i;
    while p < |path| && path[p] == '/'
      invariant i <= p <= |path| && Elements(path[p..]) == Elements(path[i..])
    {
      assert path[p..][1..] == path[p + 1..];
      p := p + 1;
    }
    assert p < |path| ==> path[p..][0] == path[p];
  }

  /** namex, with nameiparent 0 or 1. */
  method Namex(ns: NameSpace, cwd: nat, path: string, nameiparent: bool) returns (ip: Option<nat>, name: Name)
    ensures var start := if path != "" && path[0] == '/' then ROOT else cwd;
            && ip == (if nameiparent then NameiParent(ns.nodes[..], start, Elements(path))
                      else Namei(ns.nodes[..], start, Elements(path)))
            && (nameiparent && ip.Some? ==> Elements(path) != [] && name == Elements(path)[|Elements(path)| - 1])
  {
    hide Elements, Lookup;
    ghost var start := if path != "" && path[0] == '/' then ROOT else cwd;
    var here: nat, p: nat := if path != "" && path[0] == '/' then ROOT else cwd, 0;
    name := "";
    assert path[0..] == path;
    while true
      invariant p <= |path|
      invariant Namei(ns.nodes[..], start, Elements(path)) == Namei(ns.nodes[..], here, Elements(path[p..]))
      invariant nameiparent ==>
                  NameiParent(ns.nodes[..], start, Elements(path)) ==
                      NameiParent(ns.nodes[..], here, Elements(path[p..]))
      invariant Elements(path[p..]) != [] ==>
                  Elements(path) != []
                      && Elements(path)[|Elements(path)| - 1] == Elements(path[p..])[|Elements(path[p..])| - 1]
      decreases |path| - p
    {
      var next, elem := Skipelem(path, p);
      if next.None? { break; }
      name := elem;
      if here >= ns.nodes.Length || ns.nodes[here].typ != T_DIR { return None, name; }
      if nameiparent && next.value == |path| { return Some(here), name; }
      var k := ns.Dirlookup(here, name);
      if k == |ns.nodes[here].ents| { return None, name; }
      assert Elements(path[p..])[1..] == Elements(path[next.value..]);
      here, p := ns.nodes[here].ents[k].inum, next.value;
    }
    return if nameiparent then None else Some(here), name;
  }
}

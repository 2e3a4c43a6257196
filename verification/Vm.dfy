/** Page tables and the page allocator of kernel/vm.c and kernel/kalloc.c. Physical memory is its pages, each
    of 1024 32-bit words; pages and frames go by number, and page v of an address space is bytes 4096v on. */
module Vm {

  const PGSIZE: nat := 4096
  const WORDS: nat := 1024
  const PHYS: nat := 4096         // PHYSTOP / PGSIZE
  const USERPAGES: nat := 160     // USERTOP / PGSIZE
  const VPAGES: nat := 0x10_0000
  const PTE_W: nat := 2
  const PTE_WU: nat := 6          // PTE_W | PTE_U

  type Page = seq<nat>
  type Mem = seq<Page>

  predicate MemOk(mem: Mem) {
    |mem| == PHYS && forall p | 0 <= p < PHYS :: |mem[p]| == WORDS
  }

  function Zeros(): (z: Page)
    ensures |z| == WORDS && forall i | 0 <= i < WORDS :: z[i] == 0
  {
    seq(WORDS, i => 0)
  }

  function SetWord(mem: Mem, p: nat, i: nat, w: nat): (r: Mem)
    requires MemOk(mem) && p < PHYS && i < WORDS
    ensures MemOk(r)
  {
    var page: Page := mem[p][i := w];
    mem[p := page]
  }

  // ---------- entries ----------

  /** pa | perm | PTE_P for an aligned pa. */
  function Entry(frame: nat, perm: nat): nat {
    frame * PGSIZE + perm + 1
  }

  predicate Present(w: nat) { w % 2 == 1 }

  function Frame(w: nat): nat { w / PGSIZE }

  lemma EntryIs(frame: nat, perm: nat)
    requires perm % 2 == 0 && perm + 1 < PGSIZE
    ensures Present(Entry(frame, perm)) && Frame(Entry(frame, perm)) == frame
  {
    assert Entry(frame, perm) == 2 * (frame * 2048 + perm / 2) + 1;
  }

  /** An entry's bits: 0 present, 1 writable, 2 for user mode. */
  predicate UserBits(w: nat) { w % 2 == 1 && w / 2 % 2 == 1 && w / 4 % 2 == 1 }

  lemma LowBits(n: nat)
    ensures (8 * n + 7) % 2 == 1 && (8 * n + 7) / 2 % 2 == 1 && (8 * n + 7) / 4 % 2 == 1
    ensures (8 * n + 3) % 2 == 1 && (8 * n + 3) / 2 % 2 == 1 && (8 * n + 3) / 4 % 2 == 0
    ensures (8 * n + 1) % 2 == 1 && (8 * n + 1) / 2 % 2 == 0 && (8 * n + 1) / 4 % 2 == 0
  {
    assert (8 * n + 7) / 2 == 4 * n + 3 && (8 * n + 7) / 4 == 2 * n + 1;
    assert (8 * n + 3) / 2 == 4 * n + 1 && (8 * n + 3) / 4 == 2 * n;
    assert (8 * n + 1) / 2 == 4 * n && (8 * n + 1) / 4 == 2 * n;
  }

  /** What the perms of kernel/vm.c are on the entry itself. */
  lemma EntryBits(frame: nat)
    ensures Entry(frame, PTE_WU) % 2 == 1 && Entry(frame, PTE_WU) / 2 % 2 == 1 && Entry(frame, PTE_WU) / 4 % 2 == 1
    ensures Entry(frame, PTE_W) % 2 == 1 && Entry(frame, PTE_W) / 2 % 2 == 1 && Entry(frame, PTE_W) / 4 % 2 == 0
    ensures Entry(frame, 0) % 2 == 1 && Entry(frame, 0) / 2 % 2 == 0 && Entry(frame, 0) / 4 % 2 == 0
    ensures Entry(frame, PTE_WU) / PGSIZE == Entry(frame, PTE_W) / PGSIZE == Entry(frame, 0) / PGSIZE == frame
  {
    LowBits(512 * frame);
    assert Entry(frame, PTE_WU) == 8 * (512 * frame) + 7;
    assert Entry(frame, PTE_W) == 8 * (512 * frame) + 3;
    assert Entry(frame, 0) == 8 * (512 * frame) + 1;
    EntryIs(frame, PTE_WU);
    EntryIs(frame, PTE_W);
    EntryIs(frame, 0);
  }

  // ---------- a directory and its tables ----------

  predicate InRange(end: nat, p: nat) { 1 <= end <= p < PHYS }

  predicate HasTable(mem: Mem, d: nat, i: nat)
    requires MemOk(mem) && d < PHYS && i < WORDS
  {
    Present(mem[d][i])
  }

  function Table(mem: Mem, d: nat, i: nat): nat
    requires MemOk(mem) && d < PHYS && i < WORDS
  {
    Frame(mem[d][i])
  }

  ghost predicate IsTable(mem: Mem, d: nat, p: nat)
    requires MemOk(mem) && d < PHYS
  {
    exists i: nat :: i < WORDS && HasTable(mem, d, i) && Table(mem, d, i) == p
  }

  /** A directory's tables are pages of its own, one each, that its entries let user mode read and write. */
  ghost predicate Dir(mem: Mem, d: nat, end: nat) {
    && MemOk(mem) && InRange(end, d)
    && (forall i: nat {:trigger HasTable(mem, d, i)} | i < WORDS && HasTable(mem, d, i) ::
          InRange(end, Table(mem, d, i)) && Table(mem, d, i) != d && UserBits(mem[d][i]))
    && forall i: nat, j: nat {:trigger HasTable(mem, d, i), HasTable(mem, d, j)} | i < j < WORDS && HasTable(mem, d, i)
         && HasTable(mem, d, j) ::
         Table(mem, d, i) != Table(mem, d, j)
  }

  /** The entry for page v; 0 where there is no table. */
  function Pte(mem: Mem, d: nat, v: nat): nat
    requires MemOk(mem) && d < PHYS && v < VPAGES
  {
    if HasTable(mem, d, v / WORDS)
        && Table(mem, d, v / WORDS) < PHYS then mem[Table(mem, d, v / WORDS)][v % WORDS] else 0
  }

  /** *pte = w */
  lemma PteSet(mem: Mem, d: nat, end: nat, v: nat, w: nat)
    requires Dir(mem, d, end) && v < VPAGES && HasTable(mem, d, v / WORDS)
    ensures Table(mem, d, v / WORDS) < PHYS && Table(mem, d, v / WORDS) != d
              && IsTable(mem, d, Table(mem, d, v / WORDS))
    ensures var t := Table(mem, d, v / WORDS);
            var mem' := SetWord(mem, t, v % WORDS, w);
            && Dir(mem', d, end) && mem'[d] == mem[d]
            && (forall p: nat {:trigger IsTable(mem', d, p)} :: IsTable(mem', d, p) == IsTable(mem, d, p))
            && forall x: nat {:trigger Pte(mem', d, x)} | x < VPAGES ::
                 Pte(mem', d, x) == if x == v then w else Pte(mem, d, x)
  {
    var t := Table(mem, d, v / WORDS);
    var mem' := SetWord(mem, t, v % WORDS, w);
    assert forall i: nat | i < WORDS ::
             HasTable(mem', d, i) == HasTable(mem, d, i) && Table(mem', d, i) == Table(mem, d, i);
    forall p: nat
      ensures IsTable(mem', d, p) == IsTable(mem, d, p)
    {
      SameTables(mem, mem', d, p);
    }
    forall x: nat | x < VPAGES
      ensures Pte(mem', d, x) == if x == v then w else Pte(mem, d, x)
    {
      Split(x, v);
      assert HasTable(mem, d, x / WORDS) == HasTable(mem', d, x / WORDS);
    }
  }

  lemma SameTables(mem: Mem, mem': Mem, d: nat, p: nat)
    requires MemOk(mem) && MemOk(mem') && d < PHYS && mem'[d] == mem[d]
    ensures IsTable(mem', d, p) == IsTable(mem, d, p)
  {
    if IsTable(mem, d, p) {
      var i: nat :| i < WORDS && HasTable(mem, d, i) && Table(mem, d, i) == p;
      assert HasTable(mem', d, i);
    }
    if IsTable(mem', d, p) {
      var i: nat :| i < WORDS && HasTable(mem', d, i) && Table(mem', d, i) == p;
      assert HasTable(mem, d, i);
    }
  }

  lemma Split(x: nat, v: nat)
    ensures x / WORDS == v / WORDS && x % WORDS == v % WORDS ==> x == v
  {
    assert x == WORDS * (x / WORDS) + x % WORDS;
    assert v == WORDS * (v / WORDS) + v % WORDS;
  }

  /** A zeroed page becomes the table of a directory slot that had none. */
  lemma TableMade(mem: Mem, d: nat, end: nat, i: nat, t: nat)
    requires Dir(mem, d, end) && i < WORDS && !HasTable(mem, d, i) && InRange(end, t) && t != d && !IsTable(mem, d, t)
    ensures var mem' := SetWord(mem[t := Zeros()], d, i, Entry(t, PTE_WU));
            && Dir(mem', d, end) && HasTable(mem', d, i) && Table(mem', d, i) == t
            && (forall x: nat {:trigger Pte(mem', d, x)} | x < VPAGES :: Pte(mem', d, x) == Pte(mem, d, x))
            && (forall k: nat {:trigger HasTable(mem', d, k)} | k < WORDS && k != i ::
                  HasTable(mem', d, k) == HasTable(mem, d, k) && Table(mem', d, k) == Table(mem, d, k))
            && (forall p: nat {:trigger IsTable(mem', d, p)} :: IsTable(mem', d, p) <==> IsTable(mem, d, p) || p == t)
  {
    EntryIs(t, PTE_WU);
    EntryBits(t);
    var mem' := SetWord(mem[t := Zeros()], d, i, Entry(t, PTE_WU));
    assert HasTable(mem', d, i) && Table(mem', d, i) == t;
    assert forall k: nat | k < WORDS && k != i ::
             HasTable(mem', d, k) == HasTable(mem, d, k) && Table(mem', d, k) == Table(mem, d, k);
    forall p: nat
      ensures IsTable(mem', d, p) <==> IsTable(mem, d, p) || p == t
    {
      if IsTable(mem, d, p) {
        var k: nat :| k < WORDS && HasTable(mem, d, k) && Table(mem, d, k) == p;
        assert HasTable(mem', d, k) && Table(mem', d, k) == p;
      }
    }
    forall x: nat | x < VPAGES
      ensures Pte(mem', d, x) == Pte(mem, d, x)
    {
      var k := x / WORDS;
      if k != i && HasTable(mem, d, k) { assert IsTable(mem, d, Table(mem, d, k)); }
    }
  }

  /** What happens on pages that are neither the directory nor its tables does not matter to it. */
  lemma DirKept(mem: Mem, mem': Mem, d: nat, end: nat)
    requires Dir(mem, d, end) && MemOk(mem')
    requires mem'[d] == mem[d]
               && forall p: nat {:trigger IsTable(mem, d, p)} | p < PHYS && IsTable(mem, d, p) :: mem'[p] == mem[p]
    ensures Dir(mem', d, end)
    ensures forall x: nat {:trigger Pte(mem', d, x)} | x < VPAGES :: Pte(mem', d, x) == Pte(mem, d, x)
    ensures forall p: nat {:trigger IsTable(mem', d, p)} :: IsTable(mem', d, p) == IsTable(mem, d, p)
  {
    assert forall i: nat | i < WORDS ::
             HasTable(mem', d, i) == HasTable(mem, d, i) && Table(mem', d, i) == Table(mem, d, i);
    forall x: nat | x < VPAGES
      ensures Pte(mem', d, x) == Pte(mem, d, x)
    {
      if HasTable(mem, d, x / WORDS) { assert IsTable(mem, d, Table(mem, d, x / WORDS)); }
    }
    forall p: nat
      ensures IsTable(mem', d, p) == IsTable(mem, d, p)
    {
      SameTables(mem, mem', d, p);
    }
  }

  // ---------- how many tables ----------

  /** Entries present among the first n of a directory. */
  function CountPresent(dir: Page, n: nat): nat
    requires n <= |dir|
  {
    if n == 0 then 0 else CountPresent(dir, n - 1) + if Present(dir[n - 1]) then 1 else 0
  }

  /** One more entry present. */
  lemma {:induction false} CountOneMore(dir: Page, dir': Page, i: nat, n: nat)
    requires n <= |dir| == |dir'| && i < |dir| && !Present(dir[i]) && Present(dir'[i])
    requires forall k: nat | k < |dir| && k != i :: Present(dir'[k]) == Present(dir[k])
    ensures CountPresent(dir', n) == CountPresent(dir, n) + if i < n then 1 else 0
  {
    if n > 0 { CountOneMore(dir, dir', i, n - 1); }
  }

  /** The directory entries that the kernel's map needs: its first 16 Mbytes and the devices. */
  predicate Needed(i: nat) { i < 4 || 1016 <= i < WORDS }

  function CountNeeded(n: nat): (c: nat)
    ensures n <= 1016 ==> c == if n < 4 then n else 4
    ensures 1016 <= n <= WORDS ==> c == 4 + (n - 1016)
  {
    if n == 0 then 0 else CountNeeded(n - 1) + if Needed(n - 1) then 1 else 0
  }

  lemma {:induction false} CountAtMost(dir: Page, n: nat)
    requires n <= |dir| == WORDS && forall i: nat | i < WORDS && Present(dir[i]) :: Needed(i)
    ensures CountPresent(dir, n) <= CountNeeded(n)
    ensures CountPresent(dir, n) == CountNeeded(n) <==> forall i: nat | i < n && Needed(i) :: Present(dir[i])
  {
    if n > 0 { CountAtMost(dir, n - 1); }
  }

  /** Of the entries needed exactly 12 are present once all are. */
  lemma TwelveTables(dir: Page)
    requires |dir| == WORDS && forall i: nat | i < WORDS && Present(dir[i]) :: Needed(i)
    ensures CountPresent(dir, WORDS) <= 12
    ensures CountPresent(dir, WORDS) == 12 <==> forall i: nat | i < WORDS && Needed(i) :: Present(dir[i])
  {
    CountAtMost(dir, WORDS);
  }

  lemma {:induction false} CountNone(dir: Page, n: nat)
    requires n <= |dir| && forall i: nat | i < |dir| :: !Present(dir[i])
    ensures CountPresent(dir, n) == 0
  {
    if n > 0 { CountNone(dir, n - 1); }
  }

  // ---------- an address space ----------

  ghost predicate UserAt(mem: Mem, d: nat, v: nat)
    requires MemOk(mem) && d < PHYS
  {
    v < USERPAGES && Present(Pte(mem, d, v))
  }

  function UserFrame(mem: Mem, d: nat, v: nat): nat
    requires MemOk(mem) && d < PHYS && v < USERPAGES
  {
    Frame(Pte(mem, d, v))
  }

  ghost predicate IsUser(mem: Mem, d: nat, p: nat)
    requires MemOk(mem) && d < PHYS
  {
    exists v: nat :: UserAt(mem, d, v) && UserFrame(mem, d, v) == p
  }

  /** The pages an address space is made of: its directory, its tables and its user pages. */
  ghost predicate Owns(mem: Mem, d: nat, p: nat)
    requires MemOk(mem) && d < PHYS
  {
    p == d || IsTable(mem, d, p) || IsUser(mem, d, p)
  }

  /** A directory whose first table exists, each mapped user page a page of its own. */
  ghost predicate Space(mem: Mem, d: nat, end: nat) {
    && Dir(mem, d, end) && HasTable(mem, d, 0)
    && (forall v: nat {:trigger UserAt(mem, d, v)} | UserAt(mem, d, v) ::
          InRange(end, UserFrame(mem, d, v)) && UserFrame(mem, d, v) != d && !IsTable(mem, d, UserFrame(mem, d, v)))
    && forall v: nat, w: nat {:trigger UserAt(mem, d, v), UserAt(mem, d, w)} | v < w && UserAt(mem, d, v)
         && UserAt(mem, d, w) ::
         UserFrame(mem, d, v) != UserFrame(mem, d, w)
  }

  /** mem' maps what mem maps, but for page v, whose entry is w. */
  ghost predicate Remapped(mem: Mem, mem': Mem, d: nat, end: nat, v: nat, w: nat) {
    && MemOk(mem) && Dir(mem', d, end) && mem'[d] == mem[d]
    && (forall x: nat {:trigger Pte(mem', d, x)} {:trigger Pte(mem, d, x)} | x < VPAGES ::
          Pte(mem', d, x) == if x == v then w else Pte(mem, d, x))
    && forall p: nat {:trigger IsTable(mem', d, p)} :: IsTable(mem', d, p) == IsTable(mem, d, p)
  }

  /** A page of nobody's is mapped at v. */
  lemma MapUser(mem: Mem, mem': Mem, d: nat, end: nat, v: nat, r: nat)
    requires Space(mem, d, end) && Remapped(mem, mem', d, end, v, Entry(r, PTE_WU))
    requires v < USERPAGES && !UserAt(mem, d, v) && InRange(end, r) && !Owns(mem, d, r)
    ensures Space(mem', d, end)
              && forall p: nat {:trigger Owns(mem', d, p)} :: Owns(mem', d, p) <==> Owns(mem, d, p) || p == r
  {
    hide Pte, Dir, IsTable, Entry;
    EntryIs(r, PTE_WU);
    DirMem(mem', d, end);
    assert UserAt(mem', d, v) && UserFrame(mem', d, v) == r;
    assert forall x: nat | x != v :: UserAt(mem', d, x) == UserAt(mem, d, x);
    forall x: nat | x != v && UserAt(mem, d, x)
      ensures UserFrame(mem', d, x) == UserFrame(mem, d, x) && UserFrame(mem, d, x) != r && UserAt(mem', d, x)
    {
      assert IsUser(mem, d, UserFrame(mem, d, x));
    }
    forall p: nat
      ensures IsUser(mem', d, p) <==> IsUser(mem, d, p) || p == r
    {
      if IsUser(mem, d, p) {
        var x: nat :| UserAt(mem, d, x) && UserFrame(mem, d, x) == p;
        assert UserAt(mem', d, x);
      }
    }
  }

  lemma DirMem(mem: Mem, d: nat, end: nat)
    requires Dir(mem, d, end)
    ensures MemOk(mem) && InRange(end, d)
  {
  }

  /** A mapped page v is unmapped. */
  lemma UnmapUser(mem: Mem, mem': Mem, d: nat, end: nat, v: nat)
    requires Space(mem, d, end) && UserAt(mem, d, v) && Remapped(mem, mem', d, end, v, 0)
    ensures Space(mem', d, end)
    ensures forall p: nat {:trigger Owns(mem', d, p)} {:trigger Owns(mem, d, p)} ::
              Owns(mem', d, p) <==> Owns(mem, d, p) && p != UserFrame(mem, d, v)
  {
    hide Pte, Dir, IsTable;
    DirMem(mem', d, end);
    assert !UserAt(mem', d, v);
    assert forall x: nat | x != v :: UserAt(mem', d, x) == UserAt(mem, d, x);
    forall x: nat | x != v && UserAt(mem, d, x)
      ensures UserFrame(mem', d, x) == UserFrame(mem, d, x) && UserAt(mem', d, x)
                && UserFrame(mem, d, x) != UserFrame(mem, d, v)
    {
    }
    forall p: nat
      ensures IsUser(mem', d, p) <==> IsUser(mem, d, p) && p != UserFrame(mem, d, v)
    {
      if IsUser(mem, d, p) {
        var x: nat :| UserAt(mem, d, x) && UserFrame(mem, d, x) == p;
        assert x == v || UserAt(mem', d, x);
      }
    }
    assert !IsTable(mem, d, UserFrame(mem, d, v)) && UserFrame(mem, d, v) != d;
  }

  /** An address space depends on nothing but its directory and tables. */
  lemma SpaceKept(mem: Mem, mem': Mem, d: nat, end: nat)
    requires Space(mem, d, end) && MemOk(mem')
    requires mem'[d] == mem[d]
               && forall p: nat {:trigger IsTable(mem, d, p)} | p < PHYS && IsTable(mem, d, p) :: mem'[p] == mem[p]
    ensures Space(mem', d, end)
    ensures forall x: nat {:trigger Pte(mem', d, x)} | x < VPAGES :: Pte(mem', d, x) == Pte(mem, d, x)
    ensures forall p: nat {:trigger Owns(mem', d, p)} {:trigger Owns(mem, d, p)} :: Owns(mem', d, p) == Owns(mem, d, p)
    ensures forall p: nat {:trigger IsTable(mem', d, p)} :: IsTable(mem', d, p) == IsTable(mem, d, p)
  {
    hide Pte, Dir, IsTable;
    DirMem(mem, d, end);
    DirKept(mem, mem', d, end);
    assert forall v: nat :: UserAt(mem', d, v) == UserAt(mem, d, v);
    forall v: nat | v < USERPAGES
      ensures UserFrame(mem', d, v) == UserFrame(mem, d, v)
    {
    }
    forall p: nat
      ensures IsUser(mem', d, p) == IsUser(mem, d, p)
    {
      if IsUser(mem, d, p) {
        var x: nat :| UserAt(mem, d, x) && UserFrame(mem, d, x) == p;
        assert UserAt(mem', d, x);
      }
      if IsUser(mem', d, p) {
        var x: nat :| UserAt(mem', d, x) && UserFrame(mem', d, x) == p;
        assert UserAt(mem, d, x);
      }
    }
  }

  // ---------- the free list ----------

  function HeadOf(free: seq<nat>, i: nat): nat {
    if i < |free| then free[i] else 0
  }

  /** The free pages, each with the address of the next in its first word. */
  ghost predicate Chain(mem: Mem, end: nat, free: seq<nat>) {
    && MemOk(mem) && end >= 1
    && (forall i | 0 <= i < |free| :: InRange(end, free[i]))
         && (forall i, j | 0 <= i < j < |free| :: free[i] != free[j])
    && forall i: nat {:trigger LinkAt(mem, free, i)} | i < |free| && free[i] < PHYS :: LinkAt(mem, free, i)
  }

  predicate LinkAt(mem: Mem, free: seq<nat>, i: nat)
    requires MemOk(mem) && i < |free| && free[i] < PHYS
  {
    mem[free[i]][0] == HeadOf(free, i + 1) * PGSIZE
  }

  lemma ChainKept(mem: Mem, mem': Mem, end: nat, free: seq<nat>)
    requires Chain(mem, end, free) && MemOk(mem')
               && forall p: nat {:trigger p in free} | p < PHYS && p in free :: mem'[p] == mem[p]
    ensures Chain(mem', end, free)
  {
    forall i: nat | i < |free| && free[i] < PHYS
      ensures LinkAt(mem', free, i)
    {
      assert free[i] in free && LinkAt(mem, free, i);
    }
  }

  lemma ChainPop(mem: Mem, end: nat, free: seq<nat>)
    requires Chain(mem, end, free) && free != []
    ensures Chain(mem, end, free[1..]) && free[0] !in free[1..] && mem[free[0]][0] / PGSIZE == HeadOf(free[1..], 0)
  {
    assert LinkAt(mem, free, 0);
    forall i: nat | i < |free[1..]|
      ensures LinkAt(mem, free[1..], i)
    {
      assert LinkAt(mem, free, i + 1);
    }
  }

  lemma ChainPush(mem: Mem, end: nat, free: seq<nat>, v: nat)
    requires Chain(mem, end, free) && InRange(end, v) && v !in free && mem[v][0] == HeadOf(free, 0) * PGSIZE
    ensures Chain(mem, end, [v] + free)
  {
    var f := [v] + free;
    forall i: nat | i < |f|
      ensures LinkAt(mem, f, i)
    {
      if i > 0 { assert LinkAt(mem, free, i - 1); }
    }
  }

  /** A directory that got one entry. */
  lemma EntryPresent(mem: Mem, mem': Mem, d: nat, i: nat)
    requires MemOk(mem) && MemOk(mem') && d < PHYS && i < WORDS && !HasTable(mem, d, i) && HasTable(mem', d, i)
    requires forall k: nat {:trigger HasTable(mem', d, k)} | k < WORDS && k != i ::
               HasTable(mem', d, k) == HasTable(mem, d, k)
    ensures CountPresent(mem'[d], WORDS) == CountPresent(mem[d], WORDS) + 1
  {
    forall k: nat | k < WORDS && k != i
      ensures Present(mem'[d][k]) == Present(mem[d][k])
    {
      assert HasTable(mem', d, k) == HasTable(mem, d, k);
    }
    CountOneMore(mem[d], mem'[d], i, WORDS);
  }

  /** All pages from v on have their tables. */
  ghost predicate Covered(mem: Mem, d: nat, v: nat, n: nat)
    requires MemOk(mem) && d < PHYS && 1 <= n && v + n <= VPAGES
  {
    forall i: nat {:trigger HasTable(mem, d, i)} | v / WORDS <= i <= (v + n - 1) / WORDS :: HasTable(mem, d, i)
  }

  lemma CoveredAt(mem: Mem, d: nat, v: nat, n: nat, x: nat)
    requires MemOk(mem) && d < PHYS && v + n <= VPAGES && v <= x < v + n
    ensures Covered(mem, d, v, n) ==> HasTable(mem, d, x / WORDS)
  {
  }

  /** A stretch of the kernel's map: n pages from v on, each to the frame of its own number. */
  datatype Kmap = Kmap(v: nat, n: nat, perm: nat)

  /** kmap, with the kernel's data starting at page data. */
  function KernelMap(data: nat): (k: seq<Kmap>)
    requires 256 < data < PHYS
    ensures |k| == 4
  {
    [Kmap(USERPAGES, 96, PTE_W), Kmap(256, data - 256, 0), Kmap(data, PHYS - data, PTE_W),
        Kmap(0xF_E000, 0x2000, PTE_W)]
  }

  /** The entry that the stretches give page x. */
  function Mapped(kmap: seq<Kmap>, x: nat): nat {
    if kmap == [] then 0
    else
      var k := kmap[|kmap| - 1];
      if k.v <= x < k.v + k.n then Entry(x, k.perm) else Mapped(kmap[..|kmap| - 1], x)
  }

  /** The stretches do not overlap. */
  lemma KernelMapApart(data: nat, k: nat, x: nat)
    requires 256 < data < PHYS && k < 4
    ensures var m := KernelMap(data)[k]; m.n >= 1 && m.v + m.n <= VPAGES && m.perm % 2 == 0 && m.perm <= PTE_W
    ensures var m := KernelMap(data)[k]; m.v <= x < m.v + m.n ==> Mapped(KernelMap(data)[..k], x) == 0
  {
    var m := KernelMap(data);
    assert m[..0] == [] && m[..1][..0] == [] && m[..2][..1] == m[..1] && m[..3][..2] == m[..2];
    MappedStep(m, 0, x);
    MappedStep(m, 1, x);
    MappedStep(m, 2, x);
  }

  lemma MappedStep(kmap: seq<Kmap>, k: nat, x: nat)
    requires k < |kmap|
    ensures Mapped(kmap[..k + 1], x) == if kmap[k].v <= x < kmap[k].v + kmap[k].n then Entry(x, kmap[k].perm)
                                        else Mapped(kmap[..k], x)
  {
    assert kmap[..k + 1][..k] == kmap[..k];
  }

  lemma MappedNone(kmap: seq<Kmap>)
    ensures forall x: nat :: Mapped(kmap[..0], x) == 0
  {
  }

  lemma NotPresent0()
    ensures !Present(0)
  {
  }

  lemma KernelSpace(mem: Mem, d: nat, end: nat, data: nat)
    requires 256 < data < PHYS && Dir(mem, d, end)
    requires forall x: nat {:trigger Pte(mem, d, x)} | x < VPAGES :: Pte(mem, d, x) == Mapped(KernelMap(data), x)
    ensures Space(mem, d, end) && (forall x: nat :: !UserAt(mem, d, x))
              && forall p: nat {:trigger Owns(mem, d, p)} :: Owns(mem, d, p) <==> p == d || IsTable(mem, d, p)
  {
    var m := KernelMap(data);
    assert m[..4] == m;
    forall x: nat | x <= USERPAGES
      ensures Mapped(m, x) == if x == USERPAGES then Entry(x, PTE_W) else 0
    {
      MappedStep(m, 0, x);
      MappedStep(m, 1, x);
      MappedStep(m, 2, x);
      MappedStep(m, 3, x);
    }
    assert Pte(mem, d, USERPAGES) != 0;
    assert forall x: nat :: !UserAt(mem, d, x);
  }

  lemma SpaceDir(mem: Mem, d: nat, end: nat)
    requires Space(mem, d, end)
    ensures Dir(mem, d, end) && MemOk(mem) && InRange(end, d) && HasTable(mem, d, 0) && InRange(end, Table(mem, d, 0))
              && IsTable(mem, d, Table(mem, d, 0))
    ensures Table(mem, d, 0) != d && !IsTable(mem, d, d)
    ensures forall p: nat {:trigger IsTable(mem, d, p)} | IsTable(mem, d, p) :: InRange(end, p)
    ensures forall p: nat {:trigger Owns(mem, d, p)} | Owns(mem, d, p) :: InRange(end, p)
  {
  }

  /** Pages, rounded up. */
  function PgUp(sz: nat): nat {
    (sz + PGSIZE - 1) / PGSIZE
  }

  /** MapPages of one user page changes one entry. */
  lemma OneMapped(mem: Mem, mem': Mem, d: nat, end: nat, v: nat, w: nat)
    requires MemOk(mem) && Dir(mem, d, end) && Dir(mem', d, end) && v < VPAGES
    requires mem'[d] == mem[d]
    requires forall x: nat {:trigger Pte(mem', d, x)} | x < VPAGES ::
               Pte(mem', d, x) == if v <= x < v + 1 then w else Pte(mem, d, x)
    requires forall p: nat {:trigger IsTable(mem', d, p)} :: IsTable(mem', d, p) <==> IsTable(mem, d, p)
    ensures Remapped(mem, mem', d, end, v, w)
  {
  }

  lemma PgUps(oldsz: nat, newsz: nat)
    ensures newsz >= oldsz ==> PgUp(newsz) >= PgUp(oldsz)
    ensures newsz <= oldsz ==> PgUp(newsz) <= PgUp(oldsz)
    ensures oldsz <= USERPAGES * PGSIZE ==> PgUp(oldsz) <= USERPAGES
    ensures PgUp(USERPAGES * PGSIZE) == USERPAGES && PgUp(0) == 0
  {
  }

  lemma PgBelow(sz: nat, v: nat)
    ensures v * PGSIZE < sz <==> v < PgUp(sz)
    ensures sz <= USERPAGES * PGSIZE && v < PgUp(sz) ==> v < USERPAGES
  {
  }

  lemma UserOwned(mem: Mem, d: nat, v: nat)
    requires MemOk(mem) && d < PHYS
    ensures UserAt(mem, d, v) ==> Owns(mem, d, UserFrame(mem, d, v))
  {
    if UserAt(mem, d, v) { assert IsUser(mem, d, UserFrame(mem, d, v)); }
  }

  /** With no user page mapped an address space is its directory and tables. */
  lemma NoUsers(mem: Mem, d: nat)
    requires MemOk(mem) && d < PHYS
    ensures (forall v: nat | v < USERPAGES :: !Present(Pte(mem, d, v))) ==>
              forall p: nat {:trigger Owns(mem, d, p)} :: Owns(mem, d, p) <==> p == d || IsTable(mem, d, p)
  {
  }

  ghost predicate TableBelow(mem: Mem, d: nat, i: nat, p: nat)
    requires MemOk(mem) && d < PHYS && i <= WORDS
  {
    exists j: nat :: j < i && HasTable(mem, d, j) && Table(mem, d, j) == p
  }

  lemma TableNext(mem: Mem, d: nat, end: nat, i: nat)
    requires Dir(mem, d, end) && i < WORDS
    ensures forall p: nat {:trigger TableBelow(mem, d, i + 1, p)} {:trigger TableBelow(mem, d, i, p)} ::
              TableBelow(mem, d, i + 1, p) <==>
                  TableBelow(mem, d, i, p) || (HasTable(mem, d, i) && Table(mem, d, i) == p)
    ensures !TableBelow(mem, d, i, d) && !TableBelow(mem, d, i + 1, d)
    ensures HasTable(mem, d, i) ==>
              IsTable(mem, d, Table(mem, d, i)) && InRange(end, Table(mem, d, i)) && Table(mem, d, i) != d
                  && !TableBelow(mem, d, i, Table(mem, d, i))
  {
    forall p: nat | TableBelow(mem, d, i, p)
      ensures TableBelow(mem, d, i + 1, p)
    {
      var j: nat :| j < i && HasTable(mem, d, j) && Table(mem, d, j) == p;
    }
  }

  lemma TableBelowAll(mem: Mem, d: nat)
    requires MemOk(mem) && d < PHYS
    ensures forall p: nat {:trigger TableBelow(mem, d, WORDS, p)} :: TableBelow(mem, d, WORDS, p) == IsTable(mem, d, p)
  {
  }

  lemma OwnsTables(mem: Mem, d: nat)
    requires MemOk(mem) && d < PHYS
    ensures forall p: nat {:trigger IsTable(mem, d, p)} | IsTable(mem, d, p) :: Owns(mem, d, p)
    ensures Owns(mem, d, d)
  {
  }

  /** The same pages are mapped, to the same frames. */
  ghost predicate SameMaps(mem: Mem, mem': Mem, d: nat)
    requires MemOk(mem) && MemOk(mem') && d < PHYS
  {
    forall x: nat {:trigger Pte(mem', d, x)} | x < VPAGES :: Present(Pte(mem', d, x)) == Present(Pte(mem, d, x))
        && (Present(Pte(mem, d, x)) ==> Pte(mem', d, x) == Pte(mem, d, x))
  }

  /** Page x is mapped, user and writable, to a page of was. */
  ghost predicate Fresh(mem: Mem, d: nat, was: seq<nat>, x: nat)
    requires MemOk(mem) && d < PHYS && x < VPAGES
  {
    x < USERPAGES && UserAt(mem, d, x) && Pte(mem, d, x) == Entry(UserFrame(mem, d, x), PTE_WU)
        && UserFrame(mem, d, x) in was
  }

  /** The processor lets user mode read and write page x: both levels say so. */
  predicate UserCan(mem: Mem, d: nat, x: nat)
    requires MemOk(mem) && d < PHYS && x < VPAGES
  {
    var pde, pte := mem[d][x / WORDS], Pte(mem, d, x);
    pde % 2 == 1 && pde / 2 % 2 == 1 && pde / 4 % 2 == 1 && pte % 2 == 1 && pte / 2 % 2 == 1 && pte / 4 % 2 == 1
  }

  lemma FreshBits(mem: Mem, d: nat, end: nat, was: seq<nat>, x: nat)
    requires Dir(mem, d, end) && x < VPAGES && Fresh(mem, d, was, x)
    ensures UserCan(mem, d, x)
  {
    EntryBits(UserFrame(mem, d, x));
    assert HasTable(mem, d, x / WORDS);
  }

  /** What the kernel's map gives a page: nothing below USERTOP or between PHYSTOP and the devices, and elsewhere the
      frame of its own number, not for user mode, and writable but for the kernel's text. */
  lemma KernelBits(data: nat, x: nat)
    requires 256 < data < PHYS && x < VPAGES
    ensures var w := Mapped(KernelMap(data), x);
            && w / 4 % 2 == 0
            && (w % 2 == 1 <==> 160 <= x < 4096 || x >= 0xF_E000)
            && (w % 2 == 1 ==> w / PGSIZE == x && (w / 2 % 2 == 1 <==> !(256 <= x < data)))
  {
    var m := KernelMap(data);
    assert m[..4] == m;
    MappedStep(m, 0, x);
    MappedStep(m, 1, x);
    MappedStep(m, 2, x);
    MappedStep(m, 3, x);
    EntryBits(x);
  }

  /** Pages from lo up to v are fresh pages of zeros, and the others are mapped as in was. */
  ghost predicate Grown(was: Mem, mem: Mem, d: nat, free: seq<nat>, lo: nat, v: nat)
    requires MemOk(was) && MemOk(mem) && d < PHYS
  {
    forall x: nat {:trigger Pte(mem, d, x)} | x < VPAGES ::
      if lo <= x < v then Fresh(mem, d, free, x) && UserFrame(mem, d, x) < PHYS
          && mem[UserFrame(mem, d, x)] == Zeros() else Pte(mem, d, x) == Pte(was, d, x)
  }

  lemma GrownUsable(was: Mem, mem: Mem, d: nat, end: nat, free: seq<nat>, lo: nat, v: nat, x: nat)
    requires MemOk(was) && Dir(mem, d, end) && Grown(was, mem, d, free, lo, v) && v <= USERPAGES && x < USERPAGES
    ensures if lo <= x < v then
              UserCan(mem, d, x) && Pte(mem, d, x) / PGSIZE in free && Pte(mem, d, x) / PGSIZE < PHYS
              && forall i | 0 <= i < WORDS :: mem[Pte(mem, d, x) / PGSIZE][i] == 0
            else Pte(mem, d, x) == Pte(was, d, x)
  {
    hide Pte, Dir;
    DirMem(mem, d, end);
    if lo <= x < v { FreshBits(mem, d, end, free, x); }
  }

  lemma CopiedUsable(was: Mem, mem: Mem, p: nat, d: nat, end: nat, free: seq<nat>, v: nat, x: nat)
    requires MemOk(was) && Dir(mem, d, end) && p < PHYS && Copied(was, mem, p, d, free, v) && v <= USERPAGES
    requires x < USERPAGES
    ensures if x < v then
              UserCan(mem, d, x) && Pte(mem, d, x) / PGSIZE in free && Pte(mem, d, x) / PGSIZE < PHYS
              && Pte(was, p, x) / PGSIZE < PHYS && mem[Pte(mem, d, x) / PGSIZE] == was[Pte(was, p, x) / PGSIZE]
            else Pte(mem, d, x) % 2 == 0
  {
    hide Pte, Dir;
    DirMem(mem, d, end);
    assert UserAt(mem, d, x) || !UserAt(mem, d, x);
    if x < v { FreshBits(mem, d, end, free, x); }
  }

  lemma NotMapped(was: Mem, mem: Mem, d: nat, free: seq<nat>, lo: nat, v: nat)
    requires MemOk(was) && MemOk(mem) && d < PHYS && lo <= v < USERPAGES && Grown(was, mem, d, free, lo, v)
               && !UserAt(was, d, v)
    ensures !UserAt(mem, d, v)
  {
  }

  lemma NothingGrown(mem: Mem, d: nat, free: seq<nat>, lo: nat)
    requires MemOk(mem) && d < PHYS
    ensures Grown(mem, mem, d, free, lo, lo)
  {
  }

  /** One more fresh page. */
  lemma GrownMore(old0: Mem, was: Mem, mem: Mem, d: nat, end: nat, free: seq<nat>, lo: nat, v: nat, page: nat)
    requires MemOk(old0) && Space(was, d, end) && Space(mem, d, end) && lo <= v < USERPAGES && page in free
               && InRange(end, page)
    requires Grown(old0, was, d, free, lo, v) && !Owns(was, d, page) && mem[page] == Zeros()
    requires forall x: nat {:trigger Pte(mem, d, x)} | x < VPAGES ::
               Pte(mem, d, x) == if x == v then Entry(page, PTE_WU) else Pte(was, d, x)
    requires forall p: nat | p < PHYS && p != d && !IsTable(mem, d, p) && p != page :: mem[p] == was[p]
    ensures Grown(old0, mem, d, free, lo, v + 1)
  {
    hide Pte, Dir, IsTable, Entry, Present;
    EntryIs(page, PTE_WU);
    SpaceDir(was, d, end);
    SpaceDir(mem, d, end);
    forall x: nat | x < VPAGES
      ensures if lo <= x < v + 1
                then Fresh(mem, d, free, x) && UserFrame(mem, d, x) < PHYS
                    && mem[UserFrame(mem, d, x)] == Zeros() else Pte(mem, d, x) == Pte(old0, d, x)
    {
      assert Pte(was, d, x) == Pte(was, d, x);
      if lo <= x < v {
        assert Fresh(was, d, free, x) && UserAt(mem, d, x);
        UserOwned(was, d, x);
      }
      if x == v { assert UserAt(mem, d, x); }
    }
  }

  /** Unmapping what was grown gives the old maps back. */
  lemma RolledBack(old0: Mem, was: Mem, mem: Mem, d: nat, free: seq<nat>, lo: nat, v: nat, hi: nat)
    requires MemOk(old0) && MemOk(was) && MemOk(mem) && d < PHYS && lo <= v <= hi <= USERPAGES
               && Grown(old0, was, d, free, lo, v)
    requires forall x: nat | lo <= x < USERPAGES :: !UserAt(old0, d, x)
    requires forall x: nat {:trigger Pte(mem, d, x)} | x < VPAGES ::
               Pte(mem, d, x) == if lo <= x < hi && Present(Pte(was, d, x)) then 0 else Pte(was, d, x)
    requires forall p: nat {:trigger IsTable(mem, d, p)} :: IsTable(mem, d, p) == IsTable(old0, d, p)
    ensures SameMaps(old0, mem, d)
              && forall p: nat {:trigger Owns(mem, d, p)} {:trigger Owns(old0, d, p)} ::
                   Owns(mem, d, p) == Owns(old0, d, p)
  {
    hide Pte, IsTable;
    forall x: nat {:trigger Pte(mem, d, x)} | x < VPAGES
      ensures Present(Pte(mem, d, x)) == Present(Pte(old0, d, x))
                && (Present(Pte(old0, d, x)) ==> Pte(mem, d, x) == Pte(old0, d, x))
    {
      var w := Pte(was, d, x);
      assert lo <= x < hi ==> UserAt(old0, d, x) == Present(Pte(old0, d, x));
    }
    SameOwns(old0, mem, d);
  }

  lemma SameOwns(mem: Mem, mem': Mem, d: nat)
    requires MemOk(mem) && MemOk(mem') && d < PHYS && SameMaps(mem, mem', d)
    requires forall p: nat {:trigger IsTable(mem', d, p)} :: IsTable(mem', d, p) == IsTable(mem, d, p)
    ensures forall p: nat {:trigger Owns(mem', d, p)} {:trigger Owns(mem, d, p)} :: Owns(mem', d, p) == Owns(mem, d, p)
  {
    hide Pte, IsTable, Present, Frame;
    forall p: nat
      ensures IsUser(mem', d, p) == IsUser(mem, d, p)
    {
      if IsUser(mem, d, p) {
        var x: nat :| UserAt(mem, d, x) && UserFrame(mem, d, x) == p;
        assert Present(Pte(mem', d, x)) && UserAt(mem', d, x);
      }
      if IsUser(mem', d, p) {
        var x: nat :| UserAt(mem', d, x) && UserFrame(mem', d, x) == p;
        assert Present(Pte(mem', d, x)) && UserAt(mem, d, x);
      }
    }
  }

  /** The child d has pages 0 up to v, and no others, fresh and with the words that the parent p had in was. */
  ghost predicate Copied(was: Mem, mem: Mem, p: nat, d: nat, free: seq<nat>, v: nat)
    requires MemOk(was) && MemOk(mem) && p < PHYS && d < PHYS
  {
    forall x: nat {:trigger UserAt(mem, d, x)} | x < USERPAGES ::
      if x < v then Fresh(mem, d, free, x) && UserFrame(mem, d, x) < PHYS && UserFrame(was, p, x) < PHYS
          && mem[UserFrame(mem, d, x)] == was[UserFrame(was, p, x)]
      else !UserAt(mem, d, x)
  }

  lemma NotCopied(was: Mem, mem: Mem, p: nat, d: nat, free: seq<nat>, v: nat)
    requires MemOk(was) && MemOk(mem) && p < PHYS && d < PHYS && v < USERPAGES && Copied(was, mem, p, d, free, v)
    ensures !UserAt(mem, d, v)
  {
  }

  /** One more page copied. */
  lemma CopiedMore(old0: Mem, was: Mem, mem: Mem, p: nat, d: nat, end: nat, free: seq<nat>, v: nat, page: nat)
    requires MemOk(old0) && p < PHYS && Space(was, d, end) && Space(mem, d, end) && v < USERPAGES && page in free
               && InRange(end, page)
    requires Copied(old0, was, p, d, free, v) && !Owns(was, d, page) && UserFrame(old0, p, v) < PHYS
               && mem[page] == old0[UserFrame(old0, p, v)]
    requires forall x: nat {:trigger Pte(mem, d, x)} | x < VPAGES ::
               Pte(mem, d, x) == if x == v then Entry(page, PTE_WU) else Pte(was, d, x)
    requires forall q: nat | q < PHYS && q != d && !IsTable(mem, d, q) && q != page :: mem[q] == was[q]
    ensures Copied(old0, mem, p, d, free, v + 1)
  {
    hide Pte, Dir, IsTable, Entry, Present;
    EntryIs(page, PTE_WU);
    SpaceDir(was, d, end);
    SpaceDir(mem, d, end);
    forall x: nat | x < USERPAGES
      ensures if x < v + 1
                then Fresh(mem, d, free, x) && UserFrame(mem, d, x) < PHYS && UserFrame(old0, p, x) < PHYS
                    && mem[UserFrame(mem, d, x)] == old0[UserFrame(old0, p, x)] else !UserAt(mem, d, x)
    {
      assert UserAt(was, d, x) <==> x < v;
      assert UserAt(mem, d, x) <==> x < v + 1;
      UserOwned(was, d, x);
    }
  }

  /** The parent's page has still the words it had. */
  lemma FrameKept(was: Mem, mem: Mem, p: nat, end: nat, free: seq<nat>, v: nat)
    requires Space(was, p, end) && MemOk(mem) && UserAt(was, p, v)
               && forall q: nat {:trigger Owns(was, p, q)} | Owns(was, p, q) :: q !in free
    requires forall q: nat | q < PHYS && q !in free :: mem[q] == was[q]
    requires Pte(mem, p, v) == Pte(was, p, v)
    ensures UserFrame(was, p, v) < PHYS && UserFrame(mem, p, v) == UserFrame(was, p, v)
              && mem[UserFrame(was, p, v)] == was[UserFrame(was, p, v)]
  {
    UserOwned(was, p, v);
  }

  lemma NothingCopied(was: Mem, mem: Mem, p: nat, d: nat, free: seq<nat>)
    requires MemOk(was) && MemOk(mem) && p < PHYS && d < PHYS && forall x: nat :: !UserAt(mem, d, x)
    ensures Copied(was, mem, p, d, free, 0)
  {
  }

  /** One more page has its table. */
  lemma CoveredMore(was: Mem, mem: Mem, d: nat, v: nat, k: nat)
    requires MemOk(was) && MemOk(mem) && d < PHYS && v + k < VPAGES && (k > 0 ==> Covered(was, d, v, k))
    requires forall i: nat {:trigger HasTable(mem, d, i)} | i < WORDS && HasTable(was, d, i) :: HasTable(mem, d, i)
    requires HasTable(mem, d, (v + k) / WORDS)
    ensures Covered(mem, d, v, k + 1)
  {
    forall i: nat {:trigger HasTable(mem, d, i)} | v / WORDS <= i <= (v + k + 1 - 1) / WORDS
      ensures HasTable(mem, d, i)
    {
      if i != (v + k) / WORDS { assert HasTable(was, d, i); }
    }
  }

  lemma DirSame(was: Mem, mem: Mem, d: nat, k: nat)
    requires MemOk(was) && MemOk(mem) && d < PHYS && k < WORDS && HasTable(mem, d, k)
    requires forall i: nat {:trigger HasTable(mem, d, i)} | i < WORDS && i != k ::
               HasTable(mem, d, i) == HasTable(was, d, i)
    ensures forall i: nat {:trigger HasTable(mem, d, i)} | i < WORDS && HasTable(was, d, i) :: HasTable(mem, d, i)
    ensures forall i: nat {:trigger HasTable(mem, d, i)} | i < WORDS && HasTable(mem, d, i) ::
              HasTable(was, d, i) || i == k
  {
  }

  lemma SameEntries(was: Mem, mem: Mem, d: nat)
    requires MemOk(was) && MemOk(mem) && d < PHYS && mem[d] == was[d]
    ensures forall i: nat {:trigger HasTable(mem, d, i)} | i < WORDS :: HasTable(mem, d, i) == HasTable(was, d, i)
  {
  }

  lemma DividesUp(v: nat, n: nat, a: nat)
    requires v <= a < v + n
    ensures v / WORDS <= a / WORDS <= (v + n - 1) / WORDS
  {
  }

  /** The pages setupkvm takes: a directory and 12 tables. */
  const KVMPAGES: nat := 13

  ghost predicate CoveredBy(mem: Mem, d: nat, m: Kmap)
    requires MemOk(mem) && d < PHYS
  {
    m.n >= 1 && m.v + m.n <= VPAGES && Covered(mem, d, m.v, m.n)
  }

  /** A stretch of the kernel's map lies under needed entries, all of it. */
  lemma NeededRange(data: nat, k: nat)
    requires 256 < data < PHYS && k < 4
    ensures var m := KernelMap(data)[k];
            m.n >= 1 && forall i: nat | m.v / WORDS <= i <= (m.v + m.n - 1) / WORDS :: Needed(i)
  {
  }

  /** Together the stretches need every needed entry. */
  lemma NeededSome(data: nat, i: nat) returns (k: nat)
    requires 256 < data < PHYS && Needed(i)
    ensures k < 4 && var m := KernelMap(data)[k]; m.n >= 1 && m.v / WORDS <= i <= (m.v + m.n - 1) / WORDS
  {
    k := if i >= 1016 then 3 else if i == 0 then 0 else if i <= (data - 1) / WORDS then 1 else 2;
  }

  lemma StillCovered(was: Mem, mem: Mem, d: nat, data: nat, k: nat)
    requires 256 < data < PHYS && k < 4 && MemOk(was) && MemOk(mem) && d < PHYS && CoveredBy(mem, d, KernelMap(data)[k])
    requires forall j: nat {:trigger KernelMap(data)[j]} | j < k :: CoveredBy(was, d, KernelMap(data)[j])
    requires forall i: nat {:trigger HasTable(mem, d, i)} | i < WORDS && HasTable(was, d, i) :: HasTable(mem, d, i)
    ensures forall j: nat {:trigger KernelMap(data)[j]} | j < k + 1 :: CoveredBy(mem, d, KernelMap(data)[j])
  {
    hide KernelMap;
    forall j: nat | j < k
      ensures CoveredBy(mem, d, KernelMap(data)[j])
    {
      var m := KernelMap(data)[j];
      assert CoveredBy(was, d, m);
      forall i: nat | m.v / WORDS <= i <= (m.v + m.n - 1) / WORDS
        ensures HasTable(mem, d, i)
      {
        assert HasTable(was, d, i);
      }
    }
  }

  lemma AllCovered(mem: Mem, d: nat, data: nat)
    requires 256 < data < PHYS && MemOk(mem) && d < PHYS
    requires forall j: nat {:trigger KernelMap(data)[j]} | j < 4 :: CoveredBy(mem, d, KernelMap(data)[j])
    requires forall i: nat {:trigger HasTable(mem, d, i)} | i < WORDS && HasTable(mem, d, i) :: Needed(i)
    ensures CountPresent(mem[d], WORDS) == 12
  {
    hide KernelMap, Needed;
    forall i: nat | i < WORDS
      ensures Needed(i) <==> Present(mem[d][i])
    {
      if Needed(i) {
        var k := NeededSome(data, i);
        assert CoveredBy(mem, d, KernelMap(data)[k]) && HasTable(mem, d, i);
      }
      assert HasTable(mem, d, i) == Present(mem[d][i]);
    }
    TwelveTables(mem[d]);
  }

  lemma StillMissing(mem: Mem, d: nat, data: nat, k: nat)
    requires 256 < data < PHYS && k < 4 && MemOk(mem) && d < PHYS
    requires var m := KernelMap(data)[k]; m.n >= 1 && m.v + m.n <= VPAGES && !Covered(mem, d, m.v, m.n)
    requires forall i: nat {:trigger HasTable(mem, d, i)} | i < WORDS && HasTable(mem, d, i) :: Needed(i)
    ensures CountPresent(mem[d], WORDS) < 12
  {
    hide KernelMap, Needed;
    NeededRange(data, k);
    var m := KernelMap(data)[k];
    var i: nat :| m.v / WORDS <= i <= (m.v + m.n - 1) / WORDS && !HasTable(mem, d, i);
    assert Needed(i) && !Present(mem[d][i]);
    forall i: nat | i < WORDS
      ensures Present(mem[d][i]) ==> Needed(i)
    {
      assert HasTable(mem, d, i) == Present(mem[d][i]);
    }
    TwelveTables(mem[d]);
  }

  /** A directory with the first k stretches of the kernel's map, made of the pages took. */
  ghost predicate KernelSoFar(mem: Mem, d: nat, end: nat, data: nat, k: nat, took: seq<nat>) {
    && 256 < data < PHYS && k <= 4 && Dir(mem, d, end)
    && (forall x: nat {:trigger Pte(mem, d, x)} | x < VPAGES :: Pte(mem, d, x) == Mapped(KernelMap(data)[..k], x))
    && (forall p: nat {:trigger IsTable(mem, d, p)} :: p == d || IsTable(mem, d, p) <==> p in took)
    && |took| == 1 + CountPresent(mem[d], WORDS)
    && (forall i: nat {:trigger HasTable(mem, d, i)} | i < WORDS && HasTable(mem, d, i) :: Needed(i))
    && forall j: nat {:trigger KernelMap(data)[j]} | j < k :: CoveredBy(mem, d, KernelMap(data)[j])
  }

  lemma Regroup(a: seq<nat>, b: seq<nat>, c: seq<nat>)
    ensures a + b + c == a + (b + c)
  {
  }

  lemma NoneSoFar(mem: Mem, d: nat, end: nat, data: nat)
    requires 256 < data < PHYS && Dir(mem, d, end) && CountPresent(mem[d], WORDS) == 0
               && forall p: nat :: !IsTable(mem, d, p)
    requires forall x: nat {:trigger Pte(mem, d, x)} | x < VPAGES :: Pte(mem, d, x) == 0
    requires forall i: nat | i < WORDS :: !HasTable(mem, d, i)
    ensures KernelSoFar(mem, d, end, data, 0, [d])
  {
    MappedNone(KernelMap(data));
  }

  lemma AllSoFar(mem: Mem, d: nat, end: nat, data: nat, took: seq<nat>, free: seq<nat>)
    requires d < PHYS && KernelSoFar(mem, d, end, data, 4, took)
    ensures Space(mem, d, end) && |took| == KVMPAGES
    ensures forall x: nat {:trigger Pte(mem, d, x)} | x < VPAGES :: Pte(mem, d, x) == Mapped(KernelMap(data), x)
    ensures forall x: nat :: !UserAt(mem, d, x)
    ensures forall p: nat {:trigger Owns(mem, d, p)} :: Owns(mem, d, p) <==> p in took
    ensures forall p: nat {:trigger p in took} :: p in took <==> p == d || IsTable(mem, d, p)
  {
    hide Mapped, KernelMap, Pte, Dir, HasTable;
    DirMem(mem, d, end);
    assert KernelMap(data)[..4] == KernelMap(data);
    AllCovered(mem, d, data);
    KernelSpace(mem, d, end, data);
  }

  class Machine {
    /** The first page after the kernel. */
    const end: nat
    var mem: Mem
    var freelist: nat
    ghost var free: seq<nat>

    ghost predicate Valid()
      reads this
    {
      MemOk(mem) && Chain(mem, end, free) && freelist == HeadOf(free, 0)
    }

    /** kinit: every page from the kernel's end up is free. */
    constructor (end: nat, mem: Mem)
      requires 1 <= end <= PHYS && MemOk(mem)
      ensures Valid() && this.end == end && forall p: nat {:trigger p in free} :: p in free <==> end <= p < PHYS
    {
      this.end, this.mem, freelist, free := end, mem, 0, [];
      new;
      for p := end to PHYS
        invariant Valid() && forall q: nat {:trigger q in free} :: q in free <==> end <= q < p
      {
        Kfree(p);
      }
    }

    /** None of the directory's pages is free. */
    ghost predicate Taken(d: nat)
      reads this
      requires MemOk(mem) && d < PHYS
    {
      d !in free && forall p: nat {:trigger IsTable(mem, d, p)} {:trigger p in free} | IsTable(mem, d, p) :: p !in free
    }

    method Kalloc() returns (r: nat)
      requires Valid()
      modifies this`freelist, this`free
      ensures Valid() && (r == 0 <==> old(free) == [])
      ensures free == if r == 0 then [] else old(free)[1..]
      ensures r != 0 ==> old(free) == [r] + free && InRange(end, r) && r !in free
    {
      r := freelist;
      if r != 0 {
        ChainPop(mem, end, free);
        freelist := mem[r][0] / PGSIZE;
        free := free[1..];
      }
    }

    method Kfree(v: nat)
      requires Valid() && InRange(end, v) && v !in free
      modifies this
      ensures Valid() && free == [v] + old(free)
      ensures forall p | 0 <= p < PHYS && p != v :: mem[p] == old(mem)[p]
    {
      var next := freelist * PGSIZE;
      var junk: Page := seq(WORDS, i => if i == 0 then next else 0x01010101);
      ghost var was := mem;
      mem := mem[v := junk];
      ChainKept(was, mem, end, free);
      ChainPush(mem, end, free, v);
      freelist, free := v, [v] + free;
    }

    /** walkpgdir: the table of page v, making one from a free page if asked to; 0 if there is none. */
    method Walk(d: nat, v: nat, create: bool) returns (t: nat)
      requires Valid() && Dir(mem, d, end) && Taken(d) && v < VPAGES
      modifies this
      ensures Valid() && Dir(mem, d, end) && Taken(d)
      ensures t == 0 <==> !HasTable(old(mem), d, v / WORDS) && (!create || old(free) == [])
      ensures t != 0 ==> HasTable(mem, d, v / WORDS) && Table(mem, d, v / WORDS) == t && InRange(end, t)
      ensures t == 0 || HasTable(old(mem), d, v / WORDS) ==> mem == old(mem) && free == old(free)
      ensures t != 0 && !HasTable(old(mem), d, v / WORDS) ==>
                && old(free) == [t] + free && CountPresent(mem[d], WORDS) == CountPresent(old(mem)[d], WORDS) + 1
                && (forall p: nat {:trigger IsTable(mem, d, p)} ::
                      IsTable(mem, d, p) <==> IsTable(old(mem), d, p) || p == t)
                && (forall p | 0 <= p < PHYS && p != t && p != d :: mem[p] == old(mem)[p])
                && (forall k: nat {:trigger HasTable(mem, d, k)} | k < WORDS && k != v / WORDS ::
                      HasTable(mem, d, k) == HasTable(old(mem), d, k) && Table(mem, d, k) == Table(old(mem), d, k))
      ensures forall x: nat {:trigger Pte(mem, d, x)} | x < VPAGES :: Pte(mem, d, x) == Pte(old(mem), d, x)
    {
      hide Chain, Pte, IsTable;
      if Present(mem[d][v / WORDS]) {
        t := Frame(mem[d][v / WORDS]);
        assert HasTable(mem, d, v / WORDS);
      } else {
        if !create { return 0; }
        t := Kalloc();
        if t == 0 { return; }
        TableMade(mem, d, end, v / WORDS, t);
        ghost var was := mem;
        mem := mem[t := Zeros()];
        mem := SetWord(mem, d, v / WORDS, Entry(t, PTE_WU));
        ChainKept(was, mem, end, free);
        EntryPresent(was, mem, d, v / WORDS);
      }
    }

    /** *pte = w, for the entry of page v in table t. */
    method StorePte(d: nat, t: nat, v: nat, w: nat)
      requires Valid() && Dir(mem, d, end) && Taken(d) && v < VPAGES && HasTable(mem, d, v / WORDS)
                 && Table(mem, d, v / WORDS) == t
      modifies this`mem
      ensures Valid() && Dir(mem, d, end) && Taken(d) && mem[d] == old(mem)[d] && t < PHYS && IsTable(old(mem), d, t)
      ensures forall x: nat {:trigger Pte(mem, d, x)} | x < VPAGES ::
                Pte(mem, d, x) == if x == v then w else Pte(old(mem), d, x)
      ensures forall p: nat {:trigger IsTable(mem, d, p)} :: IsTable(mem, d, p) == IsTable(old(mem), d, p)
      ensures forall p: nat | p < PHYS && p != t :: mem[p] == old(mem)[p]
    {
      hide Chain, Pte, IsTable;
      PteSet(mem, d, end, v, w);
      ghost var was := mem;
      mem := SetWord(mem, t, v % WORDS, w);
      ChainKept(was, mem, end, free);
    }

    /** mappages, for n whole pages from page v on to the frames from pa on. It fails when a table is needed and
        no page is free. None of the pages may be mapped yet. */
    method MapPages(d: nat, v: nat, n: nat, pa: nat, perm: nat) returns (ok: bool, ghost took: seq<nat>)
      requires Valid() && Dir(mem, d, end) && Taken(d) && 1 <= n && v + n <= VPAGES && perm % 2 == 0
                 && perm + 1 < PGSIZE
      requires forall x: nat | v <= x < v + n :: !Present(Pte(mem, d, x))
      modifies this
      ensures Valid() && Dir(mem, d, end) && Taken(d) && old(free) == took + free && (!ok ==> free == [])
      ensures ok ==> forall x: nat {:trigger Pte(mem, d, x)} | x < VPAGES ::
                       Pte(mem, d, x) == if v <= x < v + n then Entry(pa + x - v, perm) else Pte(old(mem), d, x)
      ensures forall p: nat {:trigger IsTable(mem, d, p)} ::
                IsTable(mem, d, p) <==> IsTable(old(mem), d, p) || p in took
      ensures forall p: nat | p < PHYS && p != d && !IsTable(mem, d, p) :: mem[p] == old(mem)[p]
      ensures Covered(old(mem), d, v, n) ==> ok && took == [] && mem[d] == old(mem)[d]
      ensures CountPresent(mem[d], WORDS) == CountPresent(old(mem)[d], WORDS) + |took|
      ensures forall i: nat {:trigger HasTable(mem, d, i)} | i < WORDS && HasTable(mem, d, i) ::
                HasTable(old(mem), d, i) || v / WORDS <= i <= (v + n - 1) / WORDS
      ensures forall i: nat {:trigger HasTable(mem, d, i)} | i < WORDS && HasTable(old(mem), d, i) ::
                HasTable(mem, d, i)
      ensures ok <==> Covered(mem, d, v, n)
    {
      hide Chain, Pte, IsTable, Entry, Present, Covered, CountPresent, HasTable, Table, Dir;
      DirMem(mem, d, end);
      ok, took := true, [];
      var k := 0;
      while k < n
        invariant k <= n && Valid() && Dir(mem, d, end) && Taken(d) && old(free) == took + free
        invariant forall x: nat {:trigger Pte(mem, d, x)} | x < VPAGES ::
                    Pte(mem, d, x) == if v <= x < v + k then Entry(pa + x - v, perm) else Pte(old(mem), d, x)
        invariant forall p: nat {:trigger IsTable(mem, d, p)} ::
                    IsTable(mem, d, p) <==> IsTable(old(mem), d, p) || p in took
        invariant forall p: nat | p < PHYS && p != d && !IsTable(mem, d, p) :: mem[p] == old(mem)[p]
        invariant Covered(old(mem), d, v, n) ==> took == [] && mem[d] == old(mem)[d]
        invariant CountPresent(mem[d], WORDS) == CountPresent(old(mem)[d], WORDS) + |took|
        invariant forall i: nat {:trigger HasTable(mem, d, i)} | i < WORDS && HasTable(mem, d, i) ::
                    HasTable(old(mem), d, i) || v / WORDS <= i <= (v + n - 1) / WORDS
        invariant forall i: nat {:trigger HasTable(mem, d, i)} | i < WORDS && HasTable(old(mem), d, i) ::
                    HasTable(mem, d, i)
        invariant k > 0 ==> Covered(mem, d, v, k)
      {
        var a := v + k;
        ghost var free0 := free;
        CoveredAt(old(mem), d, v, n, a);
        CoveredAt(mem, d, v, n, a);
        ghost var was := mem;
        var t := Walk(d, a, true);
        if t == 0 { return false, took; }
        took := if free == free0 then took else took + [t];
        ghost var mid := mem;
        StorePte(d, t, a, Entry(pa + k, perm));
        SameEntries(mid, mem, d);
        DirSame(was, mem, d, a / WORDS);
        CoveredMore(was, mem, d, v, k);
        DividesUp(v, n, a);
        k := k + 1;
      }
    }

    /** memset(pgdir, 0, PGSIZE) */
    method Blank(d: nat)
      requires Valid() && InRange(end, d) && d !in free
      modifies this`mem
      ensures Valid() && Dir(mem, d, end) && forall p: nat :: !IsTable(mem, d, p)
      ensures (forall i: nat | i < WORDS :: !HasTable(mem, d, i)) && CountPresent(mem[d], WORDS) == 0
      ensures forall x: nat {:trigger Pte(mem, d, x)} | x < VPAGES :: Pte(mem, d, x) == 0
      ensures forall p: nat | p < PHYS && p != d :: mem[p] == old(mem)[p]
    {
      hide Chain;
      ChainKept(mem, mem[d := Zeros()], end, free);
      mem := mem[d := Zeros()];
      assert forall i: nat | i < WORDS :: !HasTable(mem, d, i);
      CountNone(mem[d], WORDS);
    }

    /** setupkvm: a directory with the kernel's map and nothing below USERTOP, made of 13 pages. It fails exactly
        if fewer are free, and then keeps those it took. */
    method Setupkvm(data: nat) returns (d: nat, ghost took: seq<nat>)
      requires Valid() && 256 < data < PHYS
      modifies this
      ensures Valid() && old(free) == took + free && (d == 0 ==> free == [])
      ensures d != 0 <==> |old(free)| >= KVMPAGES
      ensures d != 0 ==>
                && d < PHYS && Space(mem, d, end) && Private(d) && |took| == KVMPAGES
                && (forall x: nat {:trigger Pte(mem, d, x)} | x < VPAGES ::
                      Pte(mem, d, x) == Mapped(KernelMap(data), x))
                && (forall x: nat :: !UserAt(mem, d, x))
                && forall p: nat {:trigger Owns(mem, d, p)} :: Owns(mem, d, p) <==> p in took
      ensures d != 0 ==>
                forall x: nat {:trigger Pte(mem, d, x)} | x < VPAGES ::
                  && Pte(mem, d, x) / 4 % 2 == 0
                  && (Pte(mem, d, x) % 2 == 1 <==> 160 <= x < 4096 || x >= 0xF_E000)
                  && (Pte(mem, d, x) % 2 == 1 ==>
                        Pte(mem, d, x) / PGSIZE == x && (Pte(mem, d, x) / 2 % 2 == 1 <==> !(256 <= x < data)))
      ensures forall p: nat | p < PHYS && p !in took :: mem[p] == old(mem)[p]
    {
      hide Chain, Mapped, KernelMap, Pte, KernelSoFar, Space, Owns, IsTable, HasTable, CountPresent, Dir, UserAt;
      took := [];
      d := Kalloc();
      if d == 0 { return; }
      took := [d];
      Blank(d);
      NoneSoFar(mem, d, end, data);
      for k := 0 to 4
        invariant Valid() && d < PHYS && Taken(d) && KernelSoFar(mem, d, end, data, k, took) && old(free) == took + free
        invariant forall p: nat | p < PHYS && p !in took :: mem[p] == old(mem)[p]
      {
        var ok, more := MapStretch(d, data, k, took);
        Regroup(took, more, free);
        took := took + more;
        if !ok { return 0, took; }
      }
      AllSoFar(mem, d, end, data, took, free);
      forall x: nat | x < VPAGES
        ensures Pte(mem, d, x) == Mapped(KernelMap(data), x)
        ensures Pte(mem, d, x) / 4 % 2 == 0
        ensures Pte(mem, d, x) % 2 == 1 <==> 160 <= x < 4096 || x >= 0xF_E000
        ensures Pte(mem, d, x) % 2 == 1 ==>
                  Pte(mem, d, x) / PGSIZE == x && (Pte(mem, d, x) / 2 % 2 == 1 <==> !(256 <= x < data))
      {
        KernelBits(data, x);
      }
    }

    /** One turn of setupkvm's loop. */
    method MapStretch(d: nat, data: nat, k: nat, ghost took: seq<nat>) returns (ok: bool, ghost more: seq<nat>)
      requires Valid() && 256 < data < PHYS && k < 4 && d < PHYS && Taken(d) && KernelSoFar(mem, d, end, data, k, took)
      modifies this
      ensures Valid() && Taken(d) && old(free) == more + free
      ensures forall p: nat | p < PHYS && p !in took + more :: mem[p] == old(mem)[p]
      ensures if ok then KernelSoFar(mem, d, end, data, k + 1, took + more) else free == [] && |took + more| < KVMPAGES
    {
      hide Chain, Mapped, Entry, KernelMap, Pte, IsTable, Present, Covered, Needed, CountPresent, HasTable, Table,
          HeadOf;
      var m := KernelMap(data)[k];
      forall x: nat | x < VPAGES
        ensures m.v <= x < m.v + m.n ==> !Present(Pte(mem, d, x))
        ensures Mapped(KernelMap(data)[..k + 1], x) == if m.v <= x < m.v + m.n then Entry(x, m.perm)
                                                       else Mapped(KernelMap(data)[..k], x)
      {
        KernelMapApart(data, k, x);
        MappedStep(KernelMap(data), k, x);
        NotPresent0();
      }
      KernelMapApart(data, k, 0);
      ok, more := MapPages(d, m.v, m.n, m.v, m.perm);
      NeededRange(data, k);
      forall p: nat
        ensures p == d || IsTable(mem, d, p) <==> p in took + more
      {
        assert IsTable(mem, d, p) <==> IsTable(old(mem), d, p) || p in more;
      }
      if ok {
        StillCovered(old(mem), mem, d, data, k);
      } else {
        StillMissing(mem, d, data, k);
      }
    }

    /** None of the pages of the address space is free. */
    ghost predicate Private(d: nat)
      reads this
      requires MemOk(mem) && d < PHYS
    {
      forall p: nat {:trigger Owns(mem, d, p)} {:trigger p in free} | Owns(mem, d, p) :: p !in free
    }

    /** One turn of deallocuvm's loop. */
    method Unmap(d: nat, v: nat)
      requires Valid() && Space(mem, d, end) && Private(d) && v < USERPAGES
      modifies this
      ensures Valid() && Space(mem, d, end) && Private(d)
      ensures forall x: nat {:trigger Pte(mem, d, x)} | x < VPAGES ::
                Pte(mem, d, x) == if x == v && Present(Pte(old(mem), d, x)) then 0 else Pte(old(mem), d, x)
      ensures free == if UserAt(old(mem), d, v) then [UserFrame(old(mem), d, v)] + old(free) else old(free)
      ensures forall p: nat {:trigger Owns(mem, d, p)} {:trigger Owns(old(mem), d, p)} ::
                Owns(mem, d, p) <==> Owns(old(mem), d, p) && (UserAt(old(mem), d, v) ==> p != UserFrame(old(mem), d, v))
      ensures forall p: nat {:trigger IsTable(mem, d, p)} :: IsTable(mem, d, p) == IsTable(old(mem), d, p)
      ensures forall p: nat | p < PHYS && !Owns(old(mem), d, p) :: mem[p] == old(mem)[p]
      ensures forall p: nat | p < PHYS && p != d && !IsTable(mem, d, p) && (p in free ==> p in old(free)) ::
                mem[p] == old(mem)[p]
      ensures mem[d] == old(mem)[d]
    {
      hide Chain, IsTable, Dir;
      SpaceDir(mem, d, end);
      var t := Walk(d, v, false);
      var pte := mem[t][v % WORDS];
      assert pte == Pte(mem, d, v);
      if Present(pte) {
        var pa := Frame(pte);
        assert UserAt(mem, d, v) && pa == UserFrame(mem, d, v);
        assert IsUser(mem, d, pa) && Owns(mem, d, pa);
        ghost var was := mem;
        Kfree(pa);
        SpaceKept(was, mem, d, end);
        SpaceDir(mem, d, end);
        ghost var mid := mem;
        StorePte(d, t, v, 0);
        UnmapUser(mid, mem, d, end, v);
      }
    }

    /** deallocuvm: the pages from newsz up to oldsz that are mapped are unmapped and freed, and nothing else. */
    method Deallocuvm(d: nat, oldsz: nat, newsz: nat) returns (r: nat)
      requires Valid() && Space(mem, d, end) && Private(d) && oldsz <= USERPAGES * PGSIZE
      modifies this
      ensures Valid() && Space(mem, d, end) && Private(d) && r == if newsz >= oldsz then oldsz else newsz
      ensures forall x: nat {:trigger Pte(mem, d, x)} | x < VPAGES ::
                Pte(mem, d, x) == if PgUp(newsz) <= x < PgUp(oldsz) && Present(Pte(old(mem), d, x)) then 0
                                  else Pte(old(mem), d, x)
      ensures forall p: nat {:trigger p in free} {:trigger Owns(mem, d, p)} ::
                p in free || Owns(mem, d, p) <==> p in old(free) || Owns(old(mem), d, p)
      ensures forall p: nat {:trigger IsTable(mem, d, p)} :: IsTable(mem, d, p) == IsTable(old(mem), d, p)
      ensures forall p: nat | p < PHYS && !Owns(old(mem), d, p) :: mem[p] == old(mem)[p]
      ensures forall p: nat | p < PHYS && p != d && !IsTable(mem, d, p) && (p in free ==> p in old(free)) ::
                mem[p] == old(mem)[p]
      ensures mem[d] == old(mem)[d]
    {
      hide Chain, IsTable, Dir, Owns, Pte, PgUp;
      PgUps(oldsz, newsz);
      SpaceDir(mem, d, end);
      if newsz >= oldsz { return oldsz; }
      var v := PgUp(newsz);
      while v * PGSIZE < oldsz
        invariant PgUp(newsz) <= v <= PgUp(oldsz)
        invariant Valid() && Space(mem, d, end) && Private(d) && mem[d] == old(mem)[d]
        invariant forall x: nat {:trigger Pte(mem, d, x)} | x < VPAGES ::
                    Pte(mem, d, x) == if PgUp(newsz) <= x < v && Present(Pte(old(mem), d, x)) then 0
                                      else Pte(old(mem), d, x)
        invariant forall p: nat {:trigger p in free} {:trigger Owns(mem, d, p)} ::
                    p in free || Owns(mem, d, p) <==> p in old(free) || Owns(old(mem), d, p)
        invariant forall p: nat {:trigger Owns(mem, d, p)} :: Owns(mem, d, p) ==> Owns(old(mem), d, p)
        invariant forall p: nat {:trigger IsTable(mem, d, p)} :: IsTable(mem, d, p) == IsTable(old(mem), d, p)
        invariant forall p: nat | p < PHYS && !Owns(old(mem), d, p) :: mem[p] == old(mem)[p]
        invariant forall p: nat | p < PHYS && p != d && !IsTable(mem, d, p) && (p in free ==> p in old(free)) ::
                    mem[p] == old(mem)[p]
        invariant forall p: nat | p in old(free) :: p in free
        decreases PgUp(oldsz) - v
      {
        PgBelow(oldsz, v);
        UserOwned(mem, d, v);
        Unmap(d, v);
        v := v + 1;
      }
      PgBelow(oldsz, v);
      return newsz;
    }

    /** freevm: every page of the address space is freed, and no other. */
    method Freevm(d: nat)
      requires Valid() && Space(mem, d, end) && Private(d)
      modifies this
      ensures Valid() && forall p: nat {:trigger p in free} :: p in free <==> p in old(free) || Owns(old(mem), d, p)
      ensures forall p: nat | p < PHYS && !Owns(old(mem), d, p) :: mem[p] == old(mem)[p]
    {
      hide Chain, Pte, Dir, PgUp;
      var r := Deallocuvm(d, USERPAGES * PGSIZE, 0);
      PgUps(USERPAGES * PGSIZE, 0);
      SpaceDir(mem, d, end);
      NoUsers(mem, d);
      ghost var mem1, free1 := mem, free;
      var i := 0;
      while i < WORDS
        invariant i <= WORDS && Valid() && mem[d] == mem1[d] && d !in free
        invariant forall p: nat {:trigger p in free} :: p in free <==> p in free1 || TableBelow(mem1, d, i, p)
        invariant forall p: nat | p < PHYS && !Owns(mem1, d, p) :: mem[p] == mem1[p]
      {
        TableNext(mem1, d, end, i);
        if Present(mem[d][i]) { Kfree(Frame(mem[d][i])); }
        i := i + 1;
      }
      TableBelowAll(mem1, d);
      Kfree(d);
    }

    /** mappages of one user page on a page that nobody has. Its table exists, so it cannot fail. */
    method MapOne(d: nat, v: nat, r: nat)
      requires Valid() && Space(mem, d, end) && Private(d) && v < USERPAGES && !UserAt(mem, d, v)
      requires InRange(end, r) && r !in free && !Owns(mem, d, r)
      modifies this
      ensures Valid() && free == old(free) && Space(mem, d, end) && Private(d) && mem[d] == old(mem)[d]
      ensures forall x: nat {:trigger Pte(mem, d, x)} | x < VPAGES ::
                Pte(mem, d, x) == if x == v then Entry(r, PTE_WU) else Pte(old(mem), d, x)
      ensures forall p: nat {:trigger Owns(mem, d, p)} {:trigger Owns(old(mem), d, p)} ::
                Owns(mem, d, p) <==> Owns(old(mem), d, p) || p == r
      ensures forall p: nat {:trigger IsTable(mem, d, p)} :: IsTable(mem, d, p) == IsTable(old(mem), d, p)
      ensures forall p: nat | p < PHYS && p != d && !IsTable(mem, d, p) :: mem[p] == old(mem)[p]
    {
      hide Chain, IsTable, Dir, Pte, Entry;
      SpaceDir(mem, d, end);
      OwnsTables(mem, d);
      var ok, took := MapPages(d, v, 1, r, PTE_WU);
      OneMapped(old(mem), mem, d, end, v, Entry(r, PTE_WU));
      MapUser(old(mem), mem, d, end, v, r);
    }

    /** memset or memmove of a whole page just taken. */
    method FillFresh(d: nat, page: nat, words: Page)
      requires Valid() && page < PHYS && page !in free && |words| == WORDS
      modifies this`mem
      ensures Valid() && mem == old(mem)[page := words]
    {
      ChainKept(mem, mem[page := words], end, free);
      mem := mem[page := words];
    }

    /** allocuvm, for a process with nothing mapped from oldsz on. When pages run out everything it mapped is
        given back; else every new page is a fresh page of zeros. */
    method Allocuvm(d: nat, oldsz: nat, newsz: nat) returns (r: nat, ghost ok: bool)
      requires Valid() && Space(mem, d, end) && Private(d) && oldsz <= USERPAGES * PGSIZE
      requires forall v: nat | PgUp(oldsz) <= v < USERPAGES :: !UserAt(mem, d, v)
      modifies this
      ensures Valid() && Space(mem, d, end) && Private(d)
      ensures r == if newsz > USERPAGES * PGSIZE then 0 else if newsz < oldsz then oldsz else if ok then newsz else 0
      ensures newsz > USERPAGES * PGSIZE || newsz < oldsz ==> mem == old(mem) && free == old(free)
      ensures forall p: nat {:trigger p in free} {:trigger Owns(mem, d, p)} ::
                p in free || Owns(mem, d, p) <==> p in old(free) || Owns(old(mem), d, p)
      ensures oldsz <= newsz <= USERPAGES * PGSIZE ==> (ok <==> |old(free)| >= PgUp(newsz) - PgUp(oldsz))
      ensures ok && oldsz <= newsz <= USERPAGES * PGSIZE ==>
                Grown(old(mem), mem, d, old(free), PgUp(oldsz), PgUp(newsz))
      ensures ok && oldsz <= newsz <= USERPAGES * PGSIZE ==>
                forall x: nat {:trigger Pte(mem, d, x)} | x < USERPAGES ::
                  if PgUp(oldsz) <= x < PgUp(newsz) then
                    UserCan(mem, d, x) && Pte(mem, d, x) / PGSIZE in old(free) && Pte(mem, d, x) / PGSIZE < PHYS
                    && forall i | 0 <= i < WORDS :: mem[Pte(mem, d, x) / PGSIZE][i] == 0
                  else Pte(mem, d, x) == Pte(old(mem), d, x)
      ensures !ok ==> SameMaps(old(mem), mem, d) && forall p: nat {:trigger p in free} :: p in free <==> p in old(free)
      ensures forall p: nat | p < PHYS && p !in old(free) && p != d && !IsTable(mem, d, p) :: mem[p] == old(mem)[p]
    {
      hide Chain, IsTable, Dir, Pte, Entry, Owns, Space, PgUp, UserFrame, Fresh, SameMaps, Grown;
      ok := true;
      if newsz > USERPAGES * PGSIZE { return 0, ok; }
      if newsz < oldsz { return oldsz, ok; }
      PgUps(newsz, oldsz);
      SpaceDir(mem, d, end);
      NothingGrown(mem, d, free, PgUp(oldsz));
      var v := PgUp(oldsz);
      while v * PGSIZE < newsz
        invariant PgUp(oldsz) <= v <= PgUp(newsz)
        invariant Valid() && Space(mem, d, end) && Private(d) && mem[d] == old(mem)[d]
        invariant |free| == |old(free)| - (v - PgUp(oldsz))
        invariant Grown(old(mem), mem, d, old(free), PgUp(oldsz), v) && forall p: nat | p in free :: p in old(free)
        invariant forall p: nat {:trigger p in free} {:trigger Owns(mem, d, p)} ::
                    p in free || Owns(mem, d, p) <==> p in old(free) || Owns(old(mem), d, p)
        invariant forall p: nat {:trigger IsTable(mem, d, p)} :: IsTable(mem, d, p) == IsTable(old(mem), d, p)
        invariant forall p: nat | p < PHYS && p !in old(free) && p != d && !IsTable(mem, d, p) :: mem[p] == old(mem)[p]
        decreases PgUp(newsz) - v
      {
        PgBelow(newsz, v);
        OwnsTables(mem, d);
        ghost var was := mem;
        var page := Kalloc();
        if page == 0 {
          var back := Deallocuvm(d, newsz, oldsz);
          RolledBack(old(mem), was, mem, d, old(free), PgUp(oldsz), v, PgUp(newsz));
          ok := false;
          return 0, ok;
        }
        NotMapped(old(mem), mem, d, old(free), PgUp(oldsz), v);
        FillFresh(d, page, Zeros());
        SpaceKept(was, mem, d, end);
        MapOne(d, v, page);
        GrownMore(old(mem), was, mem, d, end, old(free), PgUp(oldsz), v, page);
        v := v + 1;
      }
      PgBelow(newsz, v);
      SpaceDir(mem, d, end);
      forall x: nat | x < USERPAGES
        ensures if PgUp(oldsz) <= x < PgUp(newsz) then
                  UserCan(mem, d, x) && Pte(mem, d, x) / PGSIZE in old(free) && Pte(mem, d, x) / PGSIZE < PHYS
                  && forall i | 0 <= i < WORDS :: mem[Pte(mem, d, x) / PGSIZE][i] == 0
                else Pte(mem, d, x) == Pte(old(mem), d, x)
      {
        GrownUsable(old(mem), mem, d, end, old(free), PgUp(oldsz), v, x);
      }
      return newsz, ok;
    }

    /** One turn of copyuvm's loop; 0 if there is no page. */
    method CopyPage(p: nat, d: nat, v: nat) returns (page: nat)
      requires Valid() && Space(mem, p, end) && Private(p) && Space(mem, d, end) && Private(d) && UserAt(mem, p, v)
                 && !UserAt(mem, d, v)
      modifies this
      ensures Valid() && d < PHYS && Space(mem, d, end) && Private(d) && (page == 0 <==> old(free) == [])
      ensures page == 0 ==> mem == old(mem) && free == old(free)
      ensures page != 0 ==>
                && old(free) == [page] + free && InRange(end, page) && !Owns(old(mem), d, page)
                && UserFrame(old(mem), p, v) < PHYS && mem[page] == old(mem)[UserFrame(old(mem), p, v)]
                && (forall x: nat {:trigger Pte(mem, d, x)} | x < VPAGES ::
                      Pte(mem, d, x) == if x == v then Entry(page, PTE_WU) else Pte(old(mem), d, x))
                && (forall q: nat {:trigger Owns(mem, d, q)} {:trigger Owns(old(mem), d, q)} ::
                      Owns(mem, d, q) <==> Owns(old(mem), d, q) || q == page)
                && (forall q: nat | q < PHYS && q != d && !IsTable(mem, d, q) && q != page :: mem[q] == old(mem)[q])
      ensures forall q: nat | q < PHYS && (q == d || IsTable(mem, d, q)) :: Owns(old(mem), d, q)
    {
      hide Chain, IsTable, Dir, Pte, Entry, Owns, Space, UserFrame, HeadOf;
      SpaceDir(mem, d, end);
      OwnsTables(mem, d);
      var pa := Source(p, v);
      page := Kalloc();
      if page == 0 { return; }
      ghost var was := mem;
      FillFresh(d, page, mem[pa]);
      SpaceKept(was, mem, d, end);
      MapOne(d, v, page);
    }

    /** copyuvm, of a parent whose pages below sz are all mapped. It succeeds exactly if 13 pages and one for each
        page of the parent are free, and the child then has the parent's bytes in fresh pages. If it fails with
        at least 13 free, the free pages are again those from before; with fewer, setupkvm leaves none. */
    method Copyuvm(p: nat, sz: nat, data: nat) returns (d: nat)
      requires Valid() && Space(mem, p, end) && Private(p) && sz <= USERPAGES * PGSIZE && 256 < data < PHYS
      requires forall x: nat | x < PgUp(sz) :: UserAt(mem, p, x)
      modifies this
      ensures Valid() && Space(mem, p, end) && Private(p)
      ensures forall q: nat | q < PHYS && q !in old(free) :: mem[q] == old(mem)[q]
      ensures d != 0 ==>
                && d < PHYS && Space(mem, d, end) && Private(d) && Copied(old(mem), mem, p, d, old(free), PgUp(sz))
                && (forall x: nat {:trigger Pte(mem, d, x)} | USERPAGES <= x < VPAGES ::
                      Pte(mem, d, x) == Mapped(KernelMap(data), x))
                && PgUp(sz) <= USERPAGES
                && (forall x: nat {:trigger Pte(mem, d, x)} | x < PgUp(sz) ::
                      UserCan(mem, d, x) && Pte(mem, d, x) / PGSIZE in old(free) && Pte(mem, d, x) / PGSIZE < PHYS
                      && Pte(old(mem), p, x) / PGSIZE < PHYS
                      && mem[Pte(mem, d, x) / PGSIZE] == old(mem)[Pte(old(mem), p, x) / PGSIZE])
                && (forall x: nat {:trigger Pte(mem, d, x)} | PgUp(sz) <= x < USERPAGES ::
                      Pte(mem, d, x) % 2 == 0)
                && (forall x: nat {:trigger Pte(mem, d, x)} | USERPAGES <= x < VPAGES :: Pte(mem, d, x) / 4 % 2 == 0)
                && forall q: nat {:trigger q in free} {:trigger Owns(mem, d, q)} ::
                     q in free || Owns(mem, d, q) <==> q in old(free)
      ensures d != 0 <==> |old(free)| >= KVMPAGES + PgUp(sz)
      ensures |old(free)| < KVMPAGES ==> free == []
      ensures d == 0 && |old(free)| >= KVMPAGES ==> forall q: nat {:trigger q in free} :: q in free <==> q in old(free)
    {
      hide Chain, IsTable, Dir, Pte, Entry, Owns, Space, PgUp, Copied, Mapped, Fresh, Present, Frame, HeadOf, KernelMap;
      SpaceDir(mem, p, end);
      OwnsTables(mem, p);
      ghost var took;
      d, took := Setupkvm(data);
      if d == 0 {
        SpaceKept(old(mem), mem, p, end);
        return;
      }
      NothingCopied(old(mem), mem, p, d, old(free));
      SpaceKept(old(mem), mem, p, end);
      PgUps(sz, sz);
      var v := 0;
      while v * PGSIZE < sz
        invariant v <= PgUp(sz)
        invariant Valid() && Space(mem, p, end) && Private(p) && d < PHYS && Space(mem, d, end) && Private(d)
        invariant forall q: nat | q < PHYS && q !in old(free) :: mem[q] == old(mem)[q]
        invariant Copied(old(mem), mem, p, d, old(free), v) && |free| == |old(free)| - KVMPAGES - v
        invariant forall x: nat {:trigger Pte(mem, d, x)} | USERPAGES <= x < VPAGES ::
                    Pte(mem, d, x) == Mapped(KernelMap(data), x)
        invariant forall q: nat {:trigger q in free} {:trigger Owns(mem, d, q)} ::
                    q in free || Owns(mem, d, q) <==> q in old(free)
        decreases PgUp(sz) - v
      {
        PgBelow(sz, v);
        SpaceKept(old(mem), mem, p, end);
        NotCopied(old(mem), mem, p, d, old(free), v);
        ghost var was := mem;
        assert UserAt(old(mem), p, v);
        var page := CopyPage(p, d, v);
        if page == 0 {
          Freevm(d);
          SpaceKept(old(mem), mem, p, end);
          return 0;
        }
        FrameKept(old(mem), was, p, end, old(free), v);
        CopiedMore(old(mem), was, mem, p, d, end, old(free), v, page);
        SpaceKept(old(mem), mem, p, end);
        v := v + 1;
      }
      PgBelow(sz, v);
      SpaceDir(mem, d, end);
      forall x: nat | x < USERPAGES
        ensures if x < PgUp(sz) then
                  UserCan(mem, d, x) && Pte(mem, d, x) / PGSIZE in old(free) && Pte(mem, d, x) / PGSIZE < PHYS
                  && Pte(old(mem), p, x) / PGSIZE < PHYS
                  && mem[Pte(mem, d, x) / PGSIZE] == old(mem)[Pte(old(mem), p, x) / PGSIZE]
                else Pte(mem, d, x) % 2 == 0
      {
        CopiedUsable(old(mem), mem, p, d, end, old(free), v, x);
      }
      forall x: nat | USERPAGES <= x < VPAGES
        ensures Pte(mem, d, x) / 4 % 2 == 0
      {
        KernelBits(data, x);
      }
    }

    /** copyuvm's look at the parent's page: its frame. */
    method Source(p: nat, v: nat) returns (pa: nat)
      requires Valid() && Space(mem, p, end) && Private(p) && UserAt(mem, p, v)
      modifies this
      ensures mem == old(mem) && free == old(free) && freelist == old(freelist) && pa == UserFrame(mem, p, v)
                && InRange(end, pa) && Owns(mem, p, pa)
    {
      hide Chain;
      SpaceDir(mem, p, end);
      OwnsTables(mem, p);
      var t := Walk(p, v, false);
      var pte := mem[t][v % WORDS];
      assert pte == Pte(mem, p, v);
      UserOwned(mem, p, v);
      return Frame(pte);
    }

    /** A child copied and then freed leaves the free pages as they were, and every other page's contents; copying
        and, if it worked, freeing does so exactly if 13 pages were free, or none. */
    method CopyAndFree(p: nat, sz: nat, data: nat) returns (d: nat)
      requires Valid() && Space(mem, p, end) && Private(p) && sz <= USERPAGES * PGSIZE && 256 < data < PHYS
      requires forall x: nat | x < PgUp(sz) :: UserAt(mem, p, x)
      modifies this
      ensures Valid() && Space(mem, p, end) && Private(p)
      ensures (forall q: nat {:trigger q in free} :: q in free <==> q in old(free)) <==>
                |old(free)| >= KVMPAGES || old(free) == []
      ensures forall q: nat | q < PHYS && q !in old(free) :: mem[q] == old(mem)[q]
    {
      hide Chain, Pte, PgUp, Copied, Mapped, Owns, Space;
      SpaceDir(mem, p, end);
      OwnsTables(mem, p);
      d := Copyuvm(p, sz, data);
      if d != 0 { Freevm(d); }
      ghost var first := if old(free) == [] then 0 else old(free)[0];
      assert old(free) != [] && free == [] ==> first in old(free) && first !in free;
      SpaceKept(old(mem), mem, p, end);
    }
  }
}

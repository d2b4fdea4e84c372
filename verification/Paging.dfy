/** The paging state of src/kernel/memory.c as a value: the frame counts, the
    physical bytes, the user page tables and the address spaces of the live
    tasks; what makes it well formed; and one generic step, the replacement of
    one page-table entry, on which most operations are built. */
module Paging {
  // Page numbers. The kernel owns the first 16 MB, identity mapped by the four
  // tables all directories share; directory slot 1023 is the self map.
  const KERNEL_PAGES := 4096
  const USER_END := 1023 * 1024
  const MMAP_START := 0x8000
  const MMAP_PAGES := 0x8000
  const STACK_BOTTOM := 0x10000 - 0x200
  const STACK_TOP := 0x10000
  const PAGE_SIZE := 4096
  const TASK_NUMBER := 64

  type uint8 = x: int | 0 <= x < 256
  type Page = p: seq<bv8> | |p| == PAGE_SIZE witness seq(PAGE_SIZE, _ => 0)

  /** page_entry_t: the bits the kernel reads back, and the frame number. */
  datatype Entry = Entry(present: bool, write: bool, shared: bool, privat: bool, readonly: bool, index: nat)

  type Table = t: seq<Entry> | |t| == 1024 witness seq(1024, _ => Absent())

  function Absent(): Entry { Entry(false, false, false, false, false, 0) }

  function EntryInit(frame: nat): Entry { Entry(true, true, false, false, false, frame) }

  /** The user part of one task's address space. `dir` holds the present user
      directory entries; `brk` and `end` are page numbers. */
  datatype Space = Space(dir: map<nat, nat>, brk: nat, end: nat, vmap: seq<bool>)

  /** `zero` is the entry of page 0 in the first kernel table, which all directories share. */
  datatype Machine = Machine(
    start: nat, count: seq<uint8>, free: int, ram: seq<Page>,
    tables: map<nat, Table>, spaces: map<nat, Space>, zero: Entry)

  predicate UserPage(v: nat) { KERNEL_PAGES <= v < USER_END }

  /** The entry the MMU finds for page v of address space a. */
  function Look(m: Machine, a: nat, v: nat): Entry
    requires a in m.spaces
  {
    var dir := m.spaces[a].dir;
    if v / 1024 in dir && dir[v / 1024] in m.tables then m.tables[dir[v / 1024]][v % 1024] else Absent()
  }

  predicate Maps(m: Machine, a: nat, v: nat, f: nat) {
    a in m.spaces && UserPage(v) && Look(m, a, v).present && Look(m, a, v).index == f
  }

  predicate DirMaps(m: Machine, a: nat, d: nat, f: nat) {
    a in m.spaces && d in m.spaces[a].dir && m.spaces[a].dir[d] == f
  }

  ghost function Users(m: Machine, f: nat): set<(nat, nat)> {
    set a: nat, v: nat | a in m.spaces && KERNEL_PAGES <= v < USER_END && Maps(m, a, v, f) :: (a, v)
  }

  ghost function DirUsers(m: Machine, f: nat): set<(nat, nat)> {
    set a: nat, d: nat | a in m.spaces && d in m.spaces[a].dir && DirMaps(m, a, d, f) :: (a, d)
  }

  ghost function FreeFrames(count: seq<uint8>): set<nat> {
    set f: nat | f < |count| && count[f] == 0
  }

  // ----- invariants -----

  ghost predicate WellFormed(m: Machine) {
    && 0 < m.start < KERNEL_PAGES <= |m.count| == |m.ram|
    && (forall a | a in m.spaces :: |m.spaces[a].vmap| == MMAP_PAGES)
    && (forall a: nat, d: nat, f: nat | DirMaps(m, a, d, f) ::
       4 <= d < 1023 && KERNEL_PAGES <= f < |m.count| && f in m.tables)
    && (forall a: nat, v: nat, f: nat | Maps(m, a, v, f) :: KERNEL_PAGES <= f < |m.count|)
  }

  /** The free counter moves with the free frames, none of which is the kernel's.
      It also counts the kernel pages that mapping_init marked without taking them off. */
  ghost predicate FreeExact(m: Machine) {
    && 0 < m.start < KERNEL_PAGES <= |m.count|
    && (forall f: nat | f < KERNEL_PAGES :: m.count[f] >= 1)
    && m.free == |FreeFrames(m.count)| + KERNEL_PAGES - m.start
  }

  /** Every frame count is exact. */
  ghost predicate ExactCounts(m: Machine) {
    && FreeExact(m)
    && (forall f: nat | KERNEL_PAGES <= f < |m.count| :: m.count[f] == |Users(m, f)| + |DirUsers(m, f)|)
  }

  /** Table frames are private to one directory slot and are never data frames;
      all mappings of a data frame use the same virtual page. */
  ghost predicate Separated(m: Machine) {
    && (forall a: nat, d: nat, a': nat, d': nat, f: nat | DirMaps(m, a, d, f) && DirMaps(m, a', d', f) ::
       a == a' && d == d')
    && (forall a: nat, d: nat, a': nat, v: nat, f: nat | DirMaps(m, a, d, f) :: !Maps(m, a', v, f))
    && (forall a: nat, v: nat, a': nat, v': nat, f: nat | Maps(m, a, v, f) && Maps(m, a', v', f) :: v == v')
  }

  /** Present pages are where the kernel's bookkeeping says they can be. */
  ghost predicate Regions(m: Machine) {
    && (forall a | a in m.spaces :: m.spaces[a].brk <= MMAP_START && KERNEL_PAGES <= m.spaces[a].end)
    && (forall a, v: nat | a in m.spaces && UserPage(v) && m.spaces[a].brk <= v < MMAP_START :: !Look(m, a, v).present)
    && (forall a, v: nat | a in m.spaces && MMAP_START <= v < STACK_BOTTOM && |m.spaces[a].vmap| == MMAP_PAGES ::
          Look(m, a, v).present == m.spaces[a].vmap[v - MMAP_START])
  }

  /** What every step inside every operation keeps, whatever its arguments. */
  ghost predicate Core(m: Machine) {
    WellFormed(m) && ExactCounts(m) && Separated(m)
  }

  /** Who can write a frame shares it with everyone else who maps it. */
  ghost predicate NoLeak(m: Machine) {
    forall a: nat, v: nat, f: nat, b: nat, x: nat | Maps(m, a, v, f) && Maps(m, b, x, f) && Look(m, a, v).write
      && a != b ::
      Look(m, a, v).shared && Look(m, b, x).shared
  }

  /** What makes copy-on-write sound; kept by all but an mmap over pages already present. */
  ghost predicate CowSafe(m: Machine) {
    && NoLeak(m)
    && (forall a: nat, v: nat, f: nat | Maps(m, a, v, f) && Look(m, a, v).readonly :: !Look(m, a, v).write)
    && (forall a: nat, v: nat, f: nat | Maps(m, a, v, f) && Look(m, a, v).shared ::
       Look(m, a, v).write == !Look(m, a, v).readonly)
  }

  // ----- one entry replaced -----

  function Drop(count: seq<uint8>, e: Entry): seq<uint8> {
    if e.present && e.index < |count| && count[e.index] > 0 then count[e.index := count[e.index] - 1] else count
  }

  function Take(count: seq<uint8>, e: Entry): seq<uint8> {
    if e.present && e.index < |count| && count[e.index] < 255 then count[e.index := count[e.index] + 1] else count
  }

  /** m' is m with the entry of page v of space a replaced by e and the counts of
      the frames the two entries name adjusted. */
  ghost predicate Remap(m: Machine, m': Machine, a: nat, v: nat, e: Entry) {
    && a in m.spaces && v / 1024 in m.spaces[a].dir && m.spaces[a].dir[v / 1024] in m.tables
    && m'.start == m.start && m'.spaces == m.spaces && |m'.ram| == |m.ram|
    && m'.tables == m.tables[m.spaces[a].dir[v / 1024] := m.tables[m.spaces[a].dir[v / 1024]][v % 1024 := e]]
    && m'.count == Take(Drop(m.count, Look(m, a, v)), e)
    && m'.free - |FreeFrames(m'.count)| == m.free - |FreeFrames(m.count)|
  }

  /** A new mapping may only name the frame already mapped there or a free one. */
  predicate Mappable(m: Machine, a: nat, v: nat, e: Entry) {
    e.present ==>
      && KERNEL_PAGES <= e.index < |m.count|
      && (m.count[e.index] == 0 || Maps(m, a, v, e.index))
  }

  lemma RemapLook(m: Machine, m': Machine, a: nat, v: nat, e: Entry)
    requires WellFormed(m) && Separated(m) && Remap(m, m', a, v, e)
    ensures forall b: nat, x: nat | b in m.spaces :: Look(m', b, x) == if b == a && x == v then e else Look(m, b, x)
  {
    forall b: nat, x: nat | b in m.spaces
      ensures Look(m', b, x) == if b == a && x == v then e else Look(m, b, x)
    {
      assert DirMaps(m, a, v / 1024, m.spaces[a].dir[v / 1024]);
      if x / 1024 in m.spaces[b].dir {
        assert DirMaps(m, b, x / 1024, m.spaces[b].dir[x / 1024]);
      }
    }
  }

  lemma Named(m: Machine, a: nat, v: nat, f: nat)
    requires Core(m) && Maps(m, a, v, f)
    ensures KERNEL_PAGES <= f < |m.count| && m.count[f] > 0
  {
    assert (a, v) in Users(m, f);
  }

  lemma Unnamed(m: Machine, f: nat)
    requires Core(m) && KERNEL_PAGES <= f < |m.count| && m.count[f] == 0
    ensures forall a: nat, v: nat :: !Maps(m, a, v, f)
    ensures forall a: nat, d: nat :: !DirMaps(m, a, d, f)
  {
    assert Users(m, f) == {} && DirUsers(m, f) == {};
    assert forall a: nat, v: nat :: Maps(m, a, v, f) <==> (a, v) in Users(m, f);
    assert forall a: nat, d: nat :: DirMaps(m, a, d, f) <==> (a, d) in DirUsers(m, f);
  }

  lemma RemapMaps(m: Machine, m': Machine, a: nat, v: nat, e: Entry)
    requires WellFormed(m) && Separated(m) && Remap(m, m', a, v, e) && UserPage(v)
    ensures forall b: nat, x: nat, f: nat ::
              Maps(m', b, x, f) == if b == a && x == v then e.present && e.index == f else Maps(m, b, x, f)
    ensures forall b: nat, d: nat, f: nat :: DirMaps(m', b, d, f) == DirMaps(m, b, d, f)
  {
    RemapLook(m, m', a, v, e);
  }

  lemma PointStep<T>(before: set<T>, after: set<T>, p: T)
    requires before - {p} == after - {p}
    ensures |after| == |before| - (if p in before then 1 else 0) + (if p in after then 1 else 0)
  {
    assert before == if p in before then (before - {p}) + {p} else before - {p};
    assert after == if p in after then (after - {p}) + {p} else after - {p};
  }

  lemma UsersStep(m: Machine, m': Machine, a: nat, v: nat, f: nat, named: bool)
    requires a in m.spaces && a in m'.spaces && UserPage(v)
    requires forall b: nat, x: nat :: Maps(m', b, x, f) == if b == a && x == v then named else Maps(m, b, x, f)
    ensures |Users(m', f)| == |Users(m, f)| - (if Maps(m, a, v, f) then 1 else 0) + (if named then 1 else 0)
  {
    PointStep(Users(m, f), Users(m', f), (a, v));
  }

  lemma DirUsersSame(m: Machine, m': Machine, f: nat)
    requires forall b: nat, d: nat :: DirMaps(m', b, d, f) == DirMaps(m, b, d, f)
    ensures DirUsers(m', f) == DirUsers(m, f)
  {}

  lemma RemapKeepsCore(m: Machine, m': Machine, a: nat, v: nat, e: Entry)
    requires Core(m) && Remap(m, m', a, v, e) && UserPage(v) && Mappable(m, a, v, e)
    ensures Core(m')
  {
    RemapMaps(m, m', a, v, e);
    if e.present && m.count[e.index] == 0 { Unnamed(m, e.index); }
    assert WellFormed(m') && Separated(m');
    var o := Look(m, a, v);
    if o.present { Named(m, a, v, o.index); }
    forall f: nat | KERNEL_PAGES <= f < |m.count|
      ensures m'.count[f] == |Users(m', f)| + |DirUsers(m', f)|
    {
      UsersStep(m, m', a, v, f, e.present && e.index == f);
      DirUsersSame(m, m', f);
    }
  }

  // ----- whole tables and address spaces -----

  function Bit(b: bool): int { if b then 1 else 0 }

  /** One of the first n entries of t names f. */
  predicate NamedBefore(t: Table, n: nat, f: nat) {
    exists i :: 0 <= i < n && i < 1024 && t[i].present && t[i].index == f
  }

  predicate InTable(t: Table, f: nat) { NamedBefore(t, 1024, f) }

  /** No two entries of t name the same frame, and all name frames in use. */
  predicate TableUsable(t: Table, count: seq<uint8>) {
    && (forall i, j | 0 <= i < j < 1024 && t[i].present && t[j].present :: t[i].index != t[j].index)
    && (forall i | 0 <= i < 1024 && t[i].present :: KERNEL_PAGES <= t[i].index < |count| && 0 < count[t[i].index] < 254)
  }

  function Protect(e: Entry): Entry {
    if e.present && !e.shared then e.(write := false) else e
  }

  function Protected(t: Table): Table {
    seq(1024, i requires 0 <= i < 1024 => Protect(t[i]))
  }

  ghost predicate SameSlack(m: Machine, m': Machine) {
    && m'.start == m.start && |m'.count| == |m.count|
    && m'.free - |FreeFrames(m'.count)| == m.free - |FreeFrames(m.count)|
  }

  /** get_pte with create: an empty table in a free frame f for slot d. */
  ghost predicate NewTable(m: Machine, m': Machine, a: nat, d: nat, f: nat) {
    && a in m.spaces && 4 <= d < 1023 && d !in m.spaces[a].dir
    && KERNEL_PAGES <= f < |m.count| && m.count[f] == 0
    && SameSlack(m, m') && m'.ram == m.ram && m'.count == m.count[f := 1]
    && m'.tables == m.tables[f := seq(1024, _ => Absent())]
    && m'.spaces == m.spaces[a := m.spaces[a].(dir := m.spaces[a].dir[d := f])]
  }

  /** One round of copy_pde: table d of the parent is protected, its frames
      counted once more, and the table copied into the free frame f for the child. */
  ghost predicate ForkTable(m: Machine, m': Machine, parent: nat, child: nat, d: nat, f: nat) {
    && parent in m.spaces && child in m.spaces && parent != child
    && d in m.spaces[parent].dir && d !in m.spaces[child].dir && m.spaces[parent].dir[d] in m.tables
    && KERNEL_PAGES <= f < |m.count| && m.count[f] == 0
    && SameSlack(m, m') && m'.ram == m.ram
    && var t := m.spaces[parent].dir[d];
    && m'.tables == m.tables[t := Protected(m.tables[t])][f := Protected(m.tables[t])]
    && m'.spaces == m.spaces[child := m.spaces[child].(dir := m.spaces[child].dir[d := f])]
    && (forall g: nat | g < |m.count| ::
          m'.count[g] == m.count[g] + Bit(InTable(m.tables[t], g)) + Bit(g == f))
  }

  /** One round of free_pde: every frame table d names and the table itself are given up. */
  ghost predicate DropTable(m: Machine, m': Machine, a: nat, d: nat) {
    && a in m.spaces && d in m.spaces[a].dir && m.spaces[a].dir[d] in m.tables
    && SameSlack(m, m') && m'.ram == m.ram && m'.tables == m.tables
    && m'.spaces == m.spaces[a := m.spaces[a].(dir := m.spaces[a].dir - {d})]
    && (forall g: nat | g < |m.count| ::
          m'.count[g] == m.count[g] - Bit(InTable(m.tables[m.spaces[a].dir[d]], g))
                         - Bit(g == m.spaces[a].dir[d]))
  }

  lemma NewTableKeepsCore(m: Machine, m': Machine, a: nat, d: nat, f: nat)
    requires Core(m) && NewTable(m, m', a, d, f)
    ensures forall b: nat, x: nat | b in m.spaces :: Look(m', b, x) == Look(m, b, x)
    ensures Core(m')
  {
    Unnamed(m, f);
    forall b: nat, x: nat | b in m.spaces ensures Look(m', b, x) == Look(m, b, x) {
      if x / 1024 in m.spaces[b].dir { assert DirMaps(m, b, x / 1024, m.spaces[b].dir[x / 1024]); }
    }
    assert forall b: nat, x: nat, g: nat :: Maps(m', b, x, g) == Maps(m, b, x, g);
    assert forall b: nat, e: nat, g: nat :: DirMaps(m', b, e, g) == if b == a && e == d then g == f
      else DirMaps(m, b, e, g);
    assert WellFormed(m') && Separated(m');
    forall g: nat | KERNEL_PAGES <= g < |m.count|
      ensures m'.count[g] == |Users(m', g)| + |DirUsers(m', g)|
    {
      assert Users(m', g) == Users(m, g) by { SameUsers(m, m', g); }
      DirUsersStep(m, m', a, d, g, g == f);
    }
  }

  lemma SameUsers(m: Machine, m': Machine, f: nat)
    requires forall b: nat, x: nat :: Maps(m', b, x, f) == Maps(m, b, x, f)
    ensures Users(m', f) == Users(m, f)
  {}

  lemma DirUsersStep(m: Machine, m': Machine, a: nat, d: nat, f: nat, named: bool)
    requires forall b: nat, e: nat :: DirMaps(m', b, e, f) == if b == a && e == d then named else DirMaps(m, b, e, f)
    ensures |DirUsers(m', f)| == |DirUsers(m, f)| - (if DirMaps(m, a, d, f) then 1 else 0) + (if named then 1 else 0)
  {
    PointStep(DirUsers(m, f), DirUsers(m', f), (a, d));
  }

  lemma ForkTableLook(m: Machine, m': Machine, parent: nat, child: nat, d: nat, f: nat)
    requires Core(m) && ForkTable(m, m', parent, child, d, f)
    ensures forall b: nat, x: nat | b in m.spaces ::
              Look(m', b, x) == if x / 1024 == d && (b == child || b == parent) then Protect(Look(m, parent, x))
                else Look(m, b, x)
  {
    Unnamed(m, f);
    forall b: nat, x: nat | b in m.spaces
      ensures Look(m', b, x) == if x / 1024 == d && (b == child || b == parent) then Protect(Look(m, parent, x))
              else Look(m, b, x)
    {
      assert DirMaps(m, parent, d, m.spaces[parent].dir[d]);
      if x / 1024 in m.spaces[b].dir { assert DirMaps(m, b, x / 1024, m.spaces[b].dir[x / 1024]); }
    }
  }

  /** The page at which table d of space a names f, if it does. */
  lemma TablePage(m: Machine, a: nat, d: nat, f: nat) returns (x: nat)
    requires Core(m) && a in m.spaces && d in m.spaces[a].dir && m.spaces[a].dir[d] in m.tables
    ensures x / 1024 == d && UserPage(x)
    ensures InTable(m.tables[m.spaces[a].dir[d]], f) <==> Maps(m, a, x, f)
    ensures forall y: nat | Maps(m, a, y, f) && y / 1024 == d :: y == x
  {
    assert DirMaps(m, a, d, m.spaces[a].dir[d]);
    var t := m.tables[m.spaces[a].dir[d]];
    assert forall y: nat | Maps(m, a, y, f) && y / 1024 == d :: t[y % 1024] == Look(m, a, y);
    x := d * 1024;
    if InTable(t, f) {
      var i: nat :| i < 1024 && t[i].present && t[i].index == f;
      x := x + i;
      assert Maps(m, a, x, f);
    }
  }

  lemma ForkTableKeepsCore(m: Machine, m': Machine, parent: nat, child: nat, d: nat, f: nat)
    requires Core(m) && ForkTable(m, m', parent, child, d, f)
    ensures Core(m')
  {
    Unnamed(m, f);
    ForkTableLook(m, m', parent, child, d, f);
    assert forall b: nat, x: nat, g: nat ::
        Maps(m', b, x, g) == if b == child && x / 1024 == d then Maps(m, parent, x, g) else Maps(m, b, x, g);
    assert forall b: nat, e: nat, g: nat :: DirMaps(m', b, e, g) == if b == child && e == d then g == f
      else DirMaps(m, b, e, g);
    assert DirMaps(m, parent, d, m.spaces[parent].dir[d]);
    assert WellFormed(m') && Separated(m');
    forall g: nat | KERNEL_PAGES <= g < |m.count|
      ensures m'.count[g] == |Users(m', g)| + |DirUsers(m', g)|
    {
      var x := TablePage(m, parent, d, g);
      UsersStep(m, m', child, x, g, Maps(m, parent, x, g));
      DirUsersStep(m, m', child, d, g, g == f);
    }
  }

  lemma DropTableLook(m: Machine, m': Machine, a: nat, d: nat)
    requires Core(m) && DropTable(m, m', a, d)
    ensures forall b: nat, x: nat | b in m.spaces ::
              Look(m', b, x) == if b == a && x / 1024 == d then Absent() else Look(m, b, x)
  {}

  lemma DropTableKeepsCore(m: Machine, m': Machine, a: nat, d: nat)
    requires Core(m) && DropTable(m, m', a, d)
    ensures Core(m')
  {
    DropTableLook(m, m', a, d);
    var t := m.spaces[a].dir[d];
    assert DirMaps(m, a, d, t);
    assert forall b: nat, x: nat, g: nat ::
        Maps(m', b, x, g) == (Maps(m, b, x, g) && !(b == a && x / 1024 == d));
    assert forall b: nat, e: nat, g: nat :: DirMaps(m', b, e, g) == if b == a && e == d then false
      else DirMaps(m, b, e, g);
    assert WellFormed(m') && Separated(m');
    forall g: nat | KERNEL_PAGES <= g < |m.count|
      ensures m'.count[g] == |Users(m', g)| + |DirUsers(m', g)|
    {
      var x := TablePage(m, a, d, g);
      UsersStep(m, m', a, x, g, false);
      DirUsersStep(m, m', a, d, g, false);
    }
    forall g: nat | g < KERNEL_PAGES && g < |m.count| ensures m'.count[g] >= 1 {
      var x := TablePage(m, a, d, g);
    }
  }

  // ----- the counts stay small -----

  lemma OnePerSpace(s: set<(nat, nat)>, spaces: set<nat>, v: nat)
    requires forall p: (nat, nat) | p in s :: p.0 in spaces && p.1 == v
    ensures |s| <= |spaces|
  {
    if s != {} {
      var p :| p in s;
      OnePerSpace(s - {p}, spaces - {p.0}, v);
    }
  }

  /** All mappings of a frame are at one address, so no count exceeds the number
      of live address spaces: the 8-bit counters never overflow. */
  lemma CountsBounded(m: Machine, f: nat)
    requires Core(m) && KERNEL_PAGES <= f < |m.count|
    ensures m.count[f] <= |m.spaces|
  {
    var users, dirs := Users(m, f), DirUsers(m, f);
    if dirs != {} {
      var p :| p in dirs;
      assert DirMaps(m, p.0, p.1, f);
      assert users == {};
      assert forall q: (nat, nat) | q in dirs :: DirMaps(m, q.0, q.1, f);
      assert dirs == {p};
      assert m.spaces.Keys != {};
    } else if users != {} {
      var p :| p in users;
      assert Maps(m, p.0, p.1, f);
      assert forall q: (nat, nat) | q in users :: Maps(m, q.0, q.1, f);
      OnePerSpace(users, m.spaces.Keys, p.1);
    }
  }

  lemma Counted(m: Machine, a: nat, d: nat, f: nat)
    requires Core(m) && DirMaps(m, a, d, f)
    ensures KERNEL_PAGES <= f < |m.count| && m.count[f] == 1
  {
    assert DirUsers(m, f) == {(a, d)} by {
      assert forall q: (nat, nat) :: q in DirUsers(m, f) <==> DirMaps(m, q.0, q.1, f);
    }
    assert Users(m, f) == {} by {
      assert forall q: (nat, nat) :: q in Users(m, f) <==> Maps(m, q.0, q.1, f);
    }
  }

  /** A frame counted once is mapped by one entry only. */
  lemma SoleUser(m: Machine, a: nat, v: nat, f: nat)
    requires Core(m) && Maps(m, a, v, f) && m.count[f] == 1
    ensures forall b: nat, x: nat | Maps(m, b, x, f) :: b == a && x == v
  {
    forall b: nat, x: nat | Maps(m, b, x, f) ensures b == a && x == v {
      Singleton(Users(m, f), (a, v), (b, x));
    }
  }

  lemma Singleton<T>(s: set<T>, p: T, q: T)
    requires |s| <= 1 && p in s && q in s
    ensures p == q
  {
    assert |s - {p}| == |s| - 1;
    assert s - {p} == {};
  }

  // ----- the free frames -----

  lemma FreeFramesUpdate(count: seq<uint8>, f: nat, c: uint8)
    requires f < |count|
    ensures |FreeFrames(count[f := c])| == |FreeFrames(count)| - Bit(count[f] == 0) + Bit(c == 0)
  {
    PointStep(FreeFrames(count), FreeFrames(count[f := c]), f);
  }

  lemma Below(s: set<nat>, lo: nat, hi: nat)
    requires lo <= hi && forall x | x in s :: lo <= x < hi
    ensures |s| <= hi - lo
    decreases hi - lo
  {
    if lo == hi {
      assert s == {};
    } else {
      Below(s - {lo}, lo + 1, hi);
    }
  }

  lemma FreeBounded(m: Machine)
    requires FreeExact(m)
    ensures 0 < m.free < |m.count|
  {
    Below(FreeFrames(m.count), KERNEL_PAGES, |m.count|);
  }

  lemma NoneFree(m: Machine)
    requires FreeExact(m) && forall f | m.start <= f < |m.count| :: m.count[f] != 0
    ensures m.free == KERNEL_PAGES - m.start
  {
    assert FreeFrames(m.count) == {};
  }

  lemma UsableTable(m: Machine, a: nat, d: nat)
    requires Core(m) && a in m.spaces && d in m.spaces[a].dir && m.spaces[a].dir[d] in m.tables && |m.spaces| < 254
    ensures TableUsable(m.tables[m.spaces[a].dir[d]], m.count)
  {
    var t := m.tables[m.spaces[a].dir[d]];
    assert DirMaps(m, a, d, m.spaces[a].dir[d]);
    forall i | 0 <= i < 1024 && t[i].present
      ensures Maps(m, a, d * 1024 + i, t[i].index) && KERNEL_PAGES <= t[i].index < |m.count|
              && 0 < m.count[t[i].index] < 254
    {
      assert Look(m, a, d * 1024 + i) == t[i];
      Named(m, a, d * 1024 + i, t[i].index);
      CountsBounded(m, t[i].index);
    }
  }

  lemma SameFree(count: seq<uint8>, count': seq<uint8>)
    requires |count| == |count'| && forall f: nat | f < |count| :: count[f] == 0 <==> count'[f] == 0
    ensures FreeFrames(count) == FreeFrames(count')
  {}

  lemma CowSafeIs(m: Machine)
    requires CowSafe(m)
    ensures NoLeak(m)
  {}

  lemma CountsExact(m: Machine)
    requires Core(m)
    ensures ExactCounts(m)
  {}

  lemma CoreFacts(m: Machine)
    requires Core(m)
    ensures FreeExact(m) && |m.ram| == |m.count|
    ensures forall a | a in m.spaces :: |m.spaces[a].vmap| == MMAP_PAGES
  {}
}

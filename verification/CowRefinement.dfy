/** Copy-on-write refines the eager machine: what each step on page tables
    does to the memory the processes see. */
module CowRefinement {
  import opened Bits
  import opened Paging
  import opened EagerCopy

  // ----- the abstraction -----

  function CellOf(m: Machine, e: Entry): Cell {
    if e.shared then Shared(e.index, !e.readonly)
    else Private(if e.index < |m.ram| then m.ram[e.index] else seq(PAGE_SIZE, _ => 0), !e.readonly)
  }

  ghost function Cells(m: Machine, a: nat): map<nat, Cell>
    requires a in m.spaces
  {
    map v: nat | KERNEL_PAGES <= v < USER_END && Look(m, a, v).present :: CellOf(m, Look(m, a, v))
  }

  ghost predicate SharedFrame(m: Machine, f: nat) {
    exists a: nat, v: nat :: Maps(m, a, v, f) && Look(m, a, v).shared
  }

  ghost function Objects(m: Machine): map<nat, Page> {
    map f: nat | f < |m.ram| && SharedFrame(m, f) :: m.ram[f]
  }

  ghost function ProcessOf(m: Machine, a: nat): Process
    requires a in m.spaces
  {
    var s := m.spaces[a];
    Process(Cells(m, a), s.brk, s.end, s.vmap)
  }

  ghost function Abs(m: Machine): Eager {
    Eager(map a | a in m.spaces :: ProcessOf(m, a), Objects(m))
  }

  lemma RefersShared(m: Machine, f: nat)
    requires WellFormed(m)
    ensures Refers(Abs(m).procs, f) <==> SharedFrame(m, f)
    ensures f in Abs(m).objects <==> SharedFrame(m, f)
  {
    SharedInRam(m, f);
    hide WellFormed, Look;
    if Refers(Abs(m).procs, f) { RefersIsShared(m, f); }
    if SharedFrame(m, f) { SharedIsReferred(m, f); }
  }

  lemma RefersIsShared(m: Machine, f: nat)
    requires Refers(Abs(m).procs, f)
    ensures SharedFrame(m, f)
  {
    var procs := Abs(m).procs;
    var a: nat, v: nat :| a in procs && v in procs[a].cells && procs[a].cells[v].Shared? && procs[a].cells[v].id == f;
    assert Maps(m, a, v, f);
  }

  lemma SharedIsReferred(m: Machine, f: nat)
    requires SharedFrame(m, f)
    ensures Refers(Abs(m).procs, f)
  {
    var procs := Abs(m).procs;
    var a: nat, v: nat :| Maps(m, a, v, f) && Look(m, a, v).shared;
    assert v in procs[a].cells && procs[a].cells[v] == CellOf(m, Look(m, a, v));
  }

  lemma SharedInRam(m: Machine, f: nat)
    requires WellFormed(m)
    ensures SharedFrame(m, f) ==> f < |m.ram|
  {}

  /** Shared objects of m' are decided by the processes of m' alone. */
  lemma ObjectsAre(m: Machine, procs: map<nat, Process>, objects: map<nat, Page>)
    requires WellFormed(m) && procs == Abs(m).procs
    requires forall f: nat | f in objects :: Refers(procs, f) && f < |m.ram| && objects[f] == m.ram[f]
    requires forall f: nat | SharedFrame(m, f) :: f in objects
    ensures Objects(m) == objects
  {}

  lemma SameCells(m: Machine, m': Machine, b: nat, c: nat)
    requires b in m'.spaces && c in m.spaces && m'.ram == m.ram
    requires forall x: nat | UserPage(x) :: Look(m', b, x).present == Look(m, c, x).present
    requires forall x: nat | UserPage(x) && Look(m, c, x).present ::
             CellOf(m, Look(m', b, x)) == CellOf(m, Look(m, c, x))
    ensures Cells(m', b) == Cells(m, c)
  {}

  lemma SameObjects(m: Machine, m': Machine)
    requires m'.ram == m.ram
    requires forall f: nat :: SharedFrame(m', f) <==> SharedFrame(m, f)
    ensures Objects(m') == Objects(m)
  {}

  /** Machines whose processes find the same entries show the same memory. */
  lemma SameAbs(m: Machine, m': Machine)
    requires m'.ram == m.ram && m'.spaces.Keys == m.spaces.Keys
    requires forall b: nat, x: nat | b in m.spaces :: Look(m', b, x) == Look(m, b, x)
    ensures Objects(m') == Objects(m)
    ensures forall b | b in m.spaces :: Cells(m', b) == Cells(m, b)
    ensures CowSafe(m) ==> CowSafe(m')
  {
    assert forall b: nat, x: nat, g: nat :: Maps(m', b, x, g) == Maps(m, b, x, g);
    hide Look;
    forall b | b in m.spaces ensures Cells(m', b) == Cells(m, b) { SameCells(m, m', b, b); }
    assert forall g: nat :: SharedFrame(m', g) <==> SharedFrame(m, g);
    SameObjects(m, m');
  }

  // ----- one entry replaced -----

  ghost function Replaced(m: Machine, a: nat, v: nat, e: Entry): map<nat, Process>
    requires a in m.spaces
  {
    var p := ProcessOf(m, a);
    Abs(m).procs[a := p.(cells := if e.present then p.cells[v := CellOf(m, e)] else p.cells - {v})]
  }

  lemma CellsAfter(m: Machine, m': Machine, a: nat, v: nat, e: Entry, b: nat)
    requires b in m.spaces && b in m'.spaces && UserPage(v) && m'.ram == m.ram
    requires forall x: nat :: Look(m', b, x) == if b == a && x == v then e else Look(m, b, x)
    ensures Cells(m', b) == if b != a then Cells(m, b) else if e.present then Cells(m, b)[v := CellOf(m, e)]
            else Cells(m, b) - {v}
  {}

  lemma RemapProcs(m: Machine, m': Machine, a: nat, v: nat, e: Entry)
    requires Core(m) && Remap(m, m', a, v, e) && UserPage(v) && m'.ram == m.ram
    ensures Abs(m').procs == Replaced(m, a, v, e)
  {
    RemapLook(m, m', a, v, e);
    forall b | b in m.spaces ensures ProcessOf(m', b) == Replaced(m, a, v, e)[b] {
      CellsAfter(m, m', a, v, e, b);
    }
  }

  lemma RemapShared(m: Machine, m': Machine, a: nat, v: nat, e: Entry)
    requires Core(m) && Remap(m, m', a, v, e) && UserPage(v)
    ensures forall f: nat | SharedFrame(m', f) :: SharedFrame(m, f) || (e.present && e.shared && f == e.index)
    ensures e.present && e.shared ==> SharedFrame(m', e.index)
  {
    RemapMaps(m, m', a, v, e);
    RemapLook(m, m', a, v, e);
    if e.present && e.shared { assert Maps(m', a, v, e.index); }
    forall f: nat | SharedFrame(m', f) ensures SharedFrame(m, f) || (e.present && e.shared && f == e.index) {
      var b: nat, x: nat :| Maps(m', b, x, f) && Look(m', b, x).shared;
      if !(b == a && x == v) { assert Maps(m, b, x, f) && Look(m, b, x).shared; }
    }
  }

  /** Replacing one entry changes that one cell and nothing else. */
  lemma RemapAbs(m: Machine, m': Machine, a: nat, v: nat, e: Entry)
    requires Core(m) && Remap(m, m', a, v, e) && UserPage(v) && Mappable(m, a, v, e) && m'.ram == m.ram
    ensures Abs(m') == if e.present then PutCell(Abs(m), a, v, CellOf(m, e), m.ram[e.index])
            else RemoveCell(Abs(m), a, v)
  {
    RemapKeepsCore(m, m', a, v, e);
    RemapProcs(m, m', a, v, e);
    RemapShared(m, m', a, v, e);
    CoreFacts(m);
    hide Core, Cells, Look, Maps, SharedFrame;
    var procs := Replaced(m, a, v, e);
    var kept := Collect(procs, Objects(m));
    var objects := if e.present && e.shared then kept[e.index := m.ram[e.index]] else kept;
    if e.present && e.shared { RefersShared(m', e.index); }
    forall f: nat | SharedFrame(m', f) ensures f in objects {
      RefersShared(m', f);
      SharedInRam(m', f);
    }
    ObjectsAre(m', procs, objects);
  }

  /** What an entry may say about a frame others map too. */
  ghost predicate SafeEntry(m: Machine, a: nat, v: nat, e: Entry) {
    e.present ==>
      && (e.readonly ==> !e.write)
      && (e.shared ==> e.write == !e.readonly)
      && forall b: nat, x: nat | Maps(m, b, x, e.index) && !(b == a && x == v) ::
           e.write || Look(m, b, x).write ==> e.shared && Look(m, b, x).shared
  }

  /** Exactly when replacing an entry keeps copy-on-write sound. */
  lemma RemapCowSafe(m: Machine, m': Machine, a: nat, v: nat, e: Entry)
    requires Core(m) && CowSafe(m) && Remap(m, m', a, v, e) && UserPage(v) && Mappable(m, a, v, e)
    ensures CowSafe(m') <==> SafeEntry(m, a, v, e)
  {
    RemapLook(m, m', a, v, e);
    RemapMaps(m, m', a, v, e);
    if e.present {
      assert Maps(m', a, v, e.index) && Look(m', a, v) == e;
      if m.count[e.index] == 0 { Unnamed(m, e.index); }
    }
    if CowSafe(m') && e.present {
      forall b: nat, x: nat | Maps(m, b, x, e.index) && !(b == a && x == v)
        ensures e.write || Look(m, b, x).write ==> e.shared && Look(m, b, x).shared
      {
        assert Maps(m', b, x, e.index);
      }
    }
  }

  /** The flags aside, whether the new entry leaks. */
  lemma RemapNoLeak(m: Machine, m': Machine, a: nat, v: nat, e: Entry)
    requires Core(m) && CowSafe(m) && Remap(m, m', a, v, e) && UserPage(v) && Mappable(m, a, v, e)
    requires (e.readonly ==> !e.write) && (e.shared ==> e.write == !e.readonly)
    ensures NoLeak(m') ==> CowSafe(m')
  {
    RemapLook(m, m', a, v, e);
    RemapMaps(m, m', a, v, e);
  }

  // ----- memory contents -----

  /** A frame nobody maps can be overwritten unseen. */
  lemma UnmappedWrite(m: Machine, m': Machine, f: nat, p: Page)
    requires Core(m) && KERNEL_PAGES <= f < |m.count| && m.count[f] == 0
             && m' == m.(ram := m.ram[f := p], zero := m'.zero)
    ensures Core(m') && Abs(m') == Abs(m) && (CowSafe(m) ==> CowSafe(m')) && (Regions(m) ==> Regions(m'))
  {
    assert |m.ram| == |m.count|;
    hide Core, CowSafe, Regions;
    Unnamed(m, f);
    SameLooks(m, m');
    UnmappedCells(m, m', f, p);
    SharedSame(m, m');
    assert !SharedFrame(m, f);
    hide Look, Maps, DirMaps, Cells, SharedFrame;
    assert Objects(m') == Objects(m);
  }

  lemma SharedSame(m: Machine, m': Machine)
    requires m'.spaces == m.spaces
    requires forall a: nat, v: nat, f: nat :: Maps(m', a, v, f) == Maps(m, a, v, f)
    requires forall a: nat, v: nat | a in m.spaces :: Look(m', a, v) == Look(m, a, v)
    ensures forall g: nat :: SharedFrame(m', g) <==> SharedFrame(m, g)
  {
    assert forall a: nat, v: nat, f: nat | Maps(m, a, v, f) :: a in m.spaces;
  }

  /** Whoever can write a frame knows whether it is shared. */
  lemma SharedKnown(m: Machine, a: nat, v: nat)
    requires Separated(m) && NoLeak(m) && a in m.spaces && Maps(m, a, v, Look(m, a, v).index) && Look(m, a, v).write
    ensures SharedFrame(m, Look(m, a, v).index) <==> Look(m, a, v).shared
  {
    var f := Look(m, a, v).index;
    if SharedFrame(m, f) {
      var b: nat, x: nat :| Maps(m, b, x, f) && Look(m, b, x).shared;
    }
  }

  lemma UnmappedCells(m: Machine, m': Machine, f: nat, p: Page)
    requires f < |m.ram| && m' == m.(ram := m.ram[f := p], zero := m'.zero)
    requires forall a: nat, v: nat :: !Maps(m, a, v, f)
    ensures forall a | a in m.spaces :: Cells(m', a) == Cells(m, a)
  {
    forall a | a in m.spaces ensures Cells(m', a) == Cells(m, a) {
      forall v: nat | UserPage(v) && Look(m, a, v).present
        ensures CellOf(m', Look(m, a, v)) == CellOf(m, Look(m, a, v)) {
        assert !Maps(m, a, v, f);
      }
    }
  }

  /** Steps that change no entry, count or directory keep every invariant. */
  lemma SameLooks(m: Machine, m': Machine)
    requires Core(m) && m'.(ram := m.ram, zero := m.zero) == m && |m'.ram| == |m.ram|
    ensures Core(m') && (CowSafe(m) ==> CowSafe(m')) && (Regions(m) ==> Regions(m'))
    ensures forall a: nat, v: nat | a in m.spaces :: Look(m', a, v) == Look(m, a, v)
    ensures forall a: nat, v: nat, f: nat :: Maps(m', a, v, f) == Maps(m, a, v, f)
  {
    assert forall a: nat, v: nat | a in m.spaces :: Look(m', a, v) == Look(m, a, v);
    assert forall a: nat, v: nat, f: nat :: Maps(m', a, v, f) == Maps(m, a, v, f);
    assert forall a: nat, d: nat, f: nat :: DirMaps(m', a, d, f) == DirMaps(m, a, d, f);
    forall f: nat | KERNEL_PAGES <= f < |m.count| ensures m'.count[f] == |Users(m', f)| + |DirUsers(m', f)| {
      SameUsers(m, m', f);
      DirUsersSame(m, m', f);
    }
  }

  ghost predicate Stored(m: Machine, m': Machine, a: nat, v: nat, offset: nat, byte: bv8) {
    && a in m.spaces && UserPage(v) && offset < PAGE_SIZE
    && Look(m, a, v).present && Look(m, a, v).write && Look(m, a, v).index < |m.ram|
    && m' == m.(ram := m.ram[Look(m, a, v).index := m.ram[Look(m, a, v).index][offset := byte]])
  }

  lemma StoreEntry(m: Machine, m': Machine, a: nat, v: nat, offset: nat, byte: bv8, b: nat, x: nat)
    requires Core(m) && NoLeak(m) && Stored(m, m', a, v, offset, byte) && b in m.spaces
    requires UserPage(x) && Look(m, b, x).present
    ensures CellOf(m', Look(m, b, x)) == CellOf(m, Look(m, b, x)) || (b == a && x == v && !Look(m, a, v).shared)
  {
    assert Maps(m, a, v, Look(m, a, v).index);
    assert Maps(m, b, x, Look(m, b, x).index);
    hide Look;
  }

  lemma StoredFacts(m: Machine, m': Machine, a: nat, v: nat, offset: nat, byte: bv8)
    requires Stored(m, m', a, v, offset, byte)
    ensures a in m.spaces && UserPage(v) && Look(m, a, v).present && m'.spaces == m.spaces
  {}

  /** A store through a private writable entry changes no other cell. */
  lemma StoreCells(m: Machine, m': Machine, a: nat, v: nat, offset: nat, byte: bv8, b: nat)
    requires Core(m) && NoLeak(m) && Stored(m, m', a, v, offset, byte) && b in m.spaces
    ensures Cells(m', b) ==
            if b == a && !Look(m, a, v).shared then Cells(m, b)[v := CellOf(m', Look(m, a, v))] else Cells(m, b)
  {
    SameLooks(m, m');
    StoredFacts(m, m', a, v, offset, byte);
    forall x: nat | UserPage(x) && Look(m, b, x).present
      ensures CellOf(m', Look(m, b, x)) == CellOf(m, Look(m, b, x)) || (b == a && x == v && !Look(m, a, v).shared)
    {
      StoreEntry(m, m', a, v, offset, byte, b, x);
    }
    hide Core, NoLeak, Look, Maps, CellOf, Stored;
  }

  /** The store does to everyone's memory what the eager machine's store does. */
  ghost predicate SeenAsStored(m: Machine, m': Machine, a: nat, v: nat, offset: nat, byte: bv8) {
    a in m.spaces && v in Abs(m).procs[a].cells && Abs(m') == StoreCell(Abs(m), a, v, offset, byte)
  }

  /** A store through a writable entry is seen by exactly the processes that
      share the page: by the storing one alone if it is private. */
  lemma StoreAbs(m: Machine, m': Machine, a: nat, v: nat, offset: nat, byte: bv8)
    requires Core(m) && NoLeak(m) && Stored(m, m', a, v, offset, byte)
    ensures Core(m') && (CowSafe(m) ==> CowSafe(m')) && (Regions(m) ==> Regions(m'))
    ensures v in Abs(m).procs[a].cells && SeenAsStored(m, m', a, v, offset, byte)
  {
    SameLooks(m, m');
    StoreObjects(m, m', a, v, offset, byte);
    StoreProcs(m, m', a, v, offset, byte);
    hide Core, CowSafe, Regions, NoLeak, Look;
  }

  lemma StoredCell(m: Machine, a: nat, v: nat)
    requires WellFormed(m) && a in m.spaces && UserPage(v) && Look(m, a, v).present
    ensures v in Cells(m, a) && Cells(m, a)[v] == CellOf(m, Look(m, a, v)) && Look(m, a, v).index < |m.ram|
    ensures Look(m, a, v).shared ==> Look(m, a, v).index in Objects(m)
  {
    assert Maps(m, a, v, Look(m, a, v).index);
  }

  lemma StoreProcs(m: Machine, m': Machine, a: nat, v: nat, offset: nat, byte: bv8)
    requires Core(m) && NoLeak(m) && Stored(m, m', a, v, offset, byte)
    ensures v in Cells(m, a) && Abs(m').procs == StoreCell(Abs(m), a, v, offset, byte).procs
    ensures Look(m, a, v).shared ==> Look(m, a, v).index in Objects(m)
  {
    hide Core, NoLeak, Look, Cells, SharedFrame, Maps, CellOf, Objects, Stored;
    CoreIs(m);
    StoredFacts(m, m', a, v, offset, byte);
    StoredCell(m, a, v);
    forall b | b in m.spaces ensures ProcessOf(m', b) == StoreCell(Abs(m), a, v, offset, byte).procs[b] {
      StoreProcess(m, m', a, v, offset, byte, b);
    }
    hide ProcessOf, WellFormed;
  }

  lemma StoreProcess(m: Machine, m': Machine, a: nat, v: nat, offset: nat, byte: bv8, b: nat)
    requires Core(m) && NoLeak(m) && Stored(m, m', a, v, offset, byte) && b in m.spaces && v in Cells(m, a)
    ensures ProcessOf(m', b) == StoreCell(Abs(m), a, v, offset, byte).procs[b]
  {
    StoredCell(m, a, v);
    StoreCells(m, m', a, v, offset, byte, b);
    hide Core, NoLeak, Look, Cells, SharedFrame, Maps, Objects;
  }

  lemma StoreObjects(m: Machine, m': Machine, a: nat, v: nat, offset: nat, byte: bv8)
    requires Core(m) && NoLeak(m) && Stored(m, m', a, v, offset, byte)
    ensures Objects(m') == if Look(m, a, v).shared then Objects(m)[Look(m, a, v).index := m'.ram[Look(m, a, v).index]]
            else Objects(m)
  {
    SameLooks(m, m');
    assert Maps(m, a, v, Look(m, a, v).index);
    SharedSame(m, m');
    SharedKnown(m, a, v);
    hide Core, NoLeak, Look, Maps, SharedFrame;
  }

  /** A store of one process through a frame that another maps, when not both of
      them share it: the other one does not read what it should. */
  lemma UnsafeStoreLeaks(m: Machine, m': Machine, a: nat, v: nat, offset: nat, byte: bv8, b: nat, x: nat)
    requires Core(m) && Stored(m, m', a, v, offset, byte) && Maps(m, b, x, Look(m, a, v).index) && a != b
    requires !(Look(m, a, v).shared && Look(m, b, x).shared) && m.ram[Look(m, a, v).index][offset] != byte
    ensures v in Cells(m, a) && x in Cells(m, b) && x in Cells(m', b)
    ensures var eager := StoreCell(Abs(m), a, v, offset, byte);
            Content(Abs(m'), Cells(m', b)[x])[offset] == byte != Content(eager, eager.procs[b].cells[x])[offset]
    ensures !SeenAsStored(m, m', a, v, offset, byte)
  {
    SameLooks(m, m');
    ReadsCell(m, b, x);
    ReadsCell(m', b, x);
    hide Core, CowSafe, Regions;
    assert Cells(m, b)[x] == CellOf(m, Look(m, b, x)) && Cells(m, a)[v] == CellOf(m, Look(m, a, v));
  }

  /** The condition is exact: on every machine with exact counts, all stores are the
      eager machine's if and only if a writable frame is shared by all who map it. */
  lemma StoresExact(m: Machine)
    requires Core(m)
    ensures NoLeak(m) <==> forall m', a: nat, v: nat, offset: nat, byte: bv8 | Stored(m, m', a, v, offset, byte) ::
                             SeenAsStored(m, m', a, v, offset, byte)
  {
    hide Core, CowSafe, Abs, StoreCell;
    if NoLeak(m) {
      forall m', a: nat, v: nat, offset: nat, byte: bv8 | Stored(m, m', a, v, offset, byte)
        ensures SeenAsStored(m, m', a, v, offset, byte)
      {
        StoreAbs(m, m', a, v, offset, byte);
      }
    } else {
      var a: nat, v: nat, f: nat, b: nat, x: nat :| Maps(m, a, v, f) && Maps(m, b, x, f) && Look(m, a, v).write
        && a != b
        && !(Look(m, a, v).shared && Look(m, b, x).shared);
      EntryFacts(m, a, v);
      var byte: bv8 := if m.ram[f][0] == 0 then 1 else 0;
      var m' := m.(ram := m.ram[f := m.ram[f][0 := byte]]);
      assert Stored(m, m', a, v, 0, byte);
      UnsafeStoreLeaks(m, m', a, v, 0, byte, b, x);
    }
  }

  lemma ObjectsLive(m: Machine)
    requires WellFormed(m)
    ensures Collect(Abs(m).procs, Objects(m)) == Objects(m)
  {
    forall f: nat | f in Objects(m) ensures Refers(Abs(m).procs, f) { RefersShared(m, f); }
  }

  /** Putting back the private cell a process already has changes nothing. */
  lemma PutSame(m: Machine, a: nat, v: nat, c: Cell, content: Page)
    requires WellFormed(m) && a in m.spaces && v in Cells(m, a) && Cells(m, a)[v] == c && c.Private?
    ensures PutCell(Abs(m), a, v, c, content) == Abs(m)
  {
    assert Cells(m, a)[v := c] == Cells(m, a);
    assert WithCells(Abs(m), a, Cells(m, a)) == Abs(m).procs;
    ObjectsLive(m);
  }

  // ----- fork -----

  /** copy_pde after the tables below lim: m0 is the machine before the fork. */
  ghost predicate ForkSoFar(m0: Machine, m: Machine, parent: nat, child: nat, lim: nat) {
    && parent in m0.spaces && child !in m0.spaces && m.ram == m0.ram && m.start == m0.start && |m.count| == |m0.count|
    && m.spaces.Keys == m0.spaces.Keys + {child}
    && (forall b | b in m0.spaces :: m.spaces[b] == m0.spaces[b])
    && m.spaces[child] == m0.spaces[parent].(dir := m.spaces[child].dir)
    && (forall d | d in m.spaces[child].dir :: d < lim && d in m0.spaces[parent].dir)
    && (forall b: nat, x: nat | b in m0.spaces ::
          Look(m, b, x) == if b == parent && x / 1024 < lim then Protect(Look(m0, parent, x)) else Look(m0, b, x))
    && (forall x: nat :: Look(m, child, x) == if x / 1024 < lim then Protect(Look(m0, parent, x)) else Absent())
  }

  lemma ForkNext(m0: Machine, m: Machine, m': Machine, parent: nat, child: nat, d: nat, f: nat)
    requires Core(m) && ForkSoFar(m0, m, parent, child, d) && ForkTable(m, m', parent, child, d, f)
    ensures Core(m') && ForkSoFar(m0, m', parent, child, d + 1)
  {
    ForkTableKeepsCore(m, m', parent, child, d, f);
    ForkTableLook(m, m', parent, child, d, f);
  }

  /** The inner loop of copy_pde has run over table pte. */
  ghost predicate TableShared(m: Machine, m1: Machine, pte: nat) {
    && pte in m.tables && |m1.count| == |m.count| && FreeFrames(m1.count) == FreeFrames(m.count)
    && m1 == m.(count := m1.count, tables := m.tables[pte := Protected(m.tables[pte])])
    && forall g: nat | g < |m.count| :: m1.count[g] == m.count[g] + Bit(InTable(m.tables[pte], g))
  }

  function EntriesBelow(pde: map<nat, nat>, lim: nat): map<nat, nat> { map d | d in pde && d < lim :: pde[d] }

  lemma EntriesNext(pde: map<nat, nat>, d: nat, f: nat)
    ensures EntriesBelow(pde[d := f], d + 1) == EntriesBelow(pde, d)[d := f]
  {}

  /** The machine once the child's directory has the entries of pde below lim. */
  ghost function WithChild(m: Machine, parent: nat, child: nat, pde: map<nat, nat>, lim: nat): Machine
    requires parent in m.spaces
  {
    m.(spaces := m.spaces[child := m.spaces[parent].(dir := EntriesBelow(pde, lim))])
  }

  ghost predicate ForkState(m0: Machine, x: Machine, parent: nat, child: nat, pde: map<nat, nat>, d: nat) {
    && parent in x.spaces && child !in x.spaces && parent != child
    && Core(WithChild(x, parent, child, pde, d)) && ForkSoFar(m0, WithChild(x, parent, child, pde, d), parent, child, d)
  }

  /** Sharing a table and copying it for the child is one round of the fork. */
  lemma ForkRound(m0: Machine, x: Machine, x1: Machine, x2: Machine, parent: nat, child: nat, pde: map<nat, nat>,
          d: nat, f: nat)
    requires ForkState(m0, x, parent, child, pde, d) && d in x.spaces[parent].dir && d in pde
    requires TableShared(x, x1, x.spaces[parent].dir[d])
    requires KERNEL_PAGES <= f < |x.count| && x1.count[f] == 0
    requires x2 == x1.(count := x1.count[f := 1], free := x1.free - 1, zero := x2.zero,
                       tables := x1.tables[f := x1.tables[x.spaces[parent].dir[d]]])
    ensures ForkState(m0, x2, parent, child, pde[d := f], d + 1)
  {
    var m, m1 := WithChild(x, parent, child, pde, d), WithChild(x1, parent, child, pde, d);
    var m2 := WithChild(x2, parent, child, pde[d := f], d + 1);
    hide Core, ForkSoFar, WellFormed, ExactCounts, Separated, FreeFrames, InTable, Protected, EntriesBelow;
    CoreIs(m);
    EntriesNext(pde, d, f);
    FreeFramesUpdate(x1.count, f, 1);
    ForkRoundIsTable(m, m1, m2, parent, child, d, f);
    ForkNext(m0, m, m2, parent, child, d, f);
  }

  lemma CoreIs(m: Machine)
    requires Core(m)
    ensures WellFormed(m) && ExactCounts(m) && Separated(m)
  {}

  lemma ForkRoundIsTable(m: Machine, m1: Machine, m2: Machine, parent: nat, child: nat, d: nat, f: nat)
    requires WellFormed(m) && parent in m.spaces && child in m.spaces && parent != child
    requires d in m.spaces[parent].dir && d !in m.spaces[child].dir
    requires TableShared(m, m1, m.spaces[parent].dir[d])
    requires KERNEL_PAGES <= f < |m.count| && m1.count[f] == 0
             && |FreeFrames(m1.count[f := 1])| == |FreeFrames(m1.count)| - 1
    requires m2 == m1.(count := m1.count[f := 1], free := m1.free - 1, zero := m2.zero,
                       tables := m1.tables[f := m1.tables[m.spaces[parent].dir[d]]],
                       spaces := m.spaces[child := m.spaces[child].(dir := m.spaces[child].dir[d := f])])
    ensures ForkTable(m, m2, parent, child, d, f)
  {}

  lemma ForkTableUsable(m0: Machine, x: Machine, parent: nat, child: nat, pde: map<nat, nat>, d: nat)
    requires ForkState(m0, x, parent, child, pde, d) && d in x.spaces[parent].dir && |x.spaces| < TASK_NUMBER
    ensures FreeExact(x) && x.spaces[parent].dir[d] in x.tables
            && TableUsable(x.tables[x.spaces[parent].dir[d]], x.count)
  {
    var m := WithChild(x, parent, child, pde, d);
    assert DirMaps(m, parent, d, x.spaces[parent].dir[d]);
    UsableTable(m, parent, d);
  }

  lemma ForkSkip(m0: Machine, x: Machine, parent: nat, child: nat, pde: map<nat, nat>, d: nat)
    requires ForkState(m0, x, parent, child, pde, d) && d !in x.spaces[parent].dir && d !in pde
    ensures ForkState(m0, x, parent, child, pde, d + 1)
  {
    var m := WithChild(x, parent, child, pde, d);
    assert EntriesBelow(pde, d + 1) == m.spaces[child].dir;
    assert WithChild(x, parent, child, pde, d + 1) == m;
  }

  lemma ForkStart(m0: Machine, parent: nat, child: nat)
    requires Core(m0) && parent in m0.spaces && child !in m0.spaces
    ensures ForkState(m0, m0, parent, child, m0.spaces[parent].dir, 4)
  {
    var pde := m0.spaces[parent].dir;
    var m := WithChild(m0, parent, child, pde, 4);
    assert forall d | d in pde :: DirMaps(m0, parent, d, pde[d]);
    assert m.spaces[child].dir == map[];
    AddSpace(m0, m, child, m.spaces[child]);
  }

  lemma ForkEnd(m0: Machine, x: Machine, parent: nat, child: nat, pde: map<nat, nat>)
    requires Core(m0) && CowSafe(m0) && Regions(m0)
    requires ForkState(m0, x, parent, child, pde, 1023) && pde.Keys == m0.spaces[parent].dir.Keys
    ensures var m := x.(spaces := x.spaces[child := x.spaces[parent].(dir := pde)]);
            && Core(m) && CowSafe(m) && Regions(m) && Forked(m0, m, parent, child)
            && Abs(m) == Abs(m0).(procs := Abs(m0).procs[child := Abs(m0).procs[parent]])
  {
    assert forall d | d in pde :: DirMaps(m0, parent, d, m0.spaces[parent].dir[d]);
    assert WithChild(x, parent, child, pde, 1023).spaces[child].dir == pde;
    ForkAbs(m0, WithChild(x, parent, child, pde, 1023), parent, child);
  }

  ghost predicate Forked(m0: Machine, m: Machine, parent: nat, child: nat) {
    && parent in m0.spaces && child !in m0.spaces && m.ram == m0.ram && m.spaces.Keys == m0.spaces.Keys + {child}
    && (forall b: nat, x: nat | b in m0.spaces && UserPage(x) ::
          Look(m, b, x) == if b == parent then Protect(Look(m0, parent, x)) else Look(m0, b, x))
    && (forall x: nat | UserPage(x) :: Look(m, child, x) == Protect(Look(m0, parent, x)))
  }

  lemma ForkMaps(m0: Machine, m: Machine, parent: nat, child: nat)
    requires Forked(m0, m, parent, child)
    ensures forall b: nat, x: nat, g: nat ::
              Maps(m, b, x, g) == if b == child then Maps(m0, parent, x, g) else Maps(m0, b, x, g)
  {}

  lemma ForkCowSafe(m0: Machine, m: Machine, parent: nat, child: nat)
    requires Separated(m0) && CowSafe(m0) && Forked(m0, m, parent, child)
    ensures CowSafe(m)
  {
    ForkMaps(m0, m, parent, child);
    forall a: nat, v: nat, f: nat, b: nat, x: nat | Maps(m, a, v, f) && Maps(m, b, x, f) && Look(m, a, v).write
      && a != b
      ensures Look(m, a, v).shared && Look(m, b, x).shared
    {
      assert Maps(m0, if a == child then parent else a, v, f);
      assert Maps(m0, if b == child then parent else b, x, f);
    }
  }

  lemma ForkObjects(m0: Machine, m: Machine, parent: nat, child: nat)
    requires Forked(m0, m, parent, child)
    ensures Objects(m) == Objects(m0)
  {}

  lemma ForkCells(m0: Machine, m: Machine, parent: nat, child: nat)
    requires Forked(m0, m, parent, child)
    ensures forall b | b in m.spaces :: Cells(m, b) == Cells(m0, if b == child then parent else b)
  {
    forall b | b in m.spaces ensures Cells(m, b) == Cells(m0, if b == child then parent else b) {
      SameCells(m0, m, b, if b == child then parent else b);
    }
  }

  lemma ForkProcs(m0: Machine, m: Machine, parent: nat, child: nat)
    requires Forked(m0, m, parent, child)
    requires forall b | b in m0.spaces :: m.spaces[b] == m0.spaces[b]
    requires m.spaces[child] == m0.spaces[parent].(dir := m.spaces[child].dir)
    ensures Abs(m).procs == Abs(m0).procs[child := Abs(m0).procs[parent]]
  {
    ForkCells(m0, m, parent, child);
    hide Cells, Objects, Look;
  }

  lemma ForkRegions(m0: Machine, m: Machine, parent: nat, child: nat)
    requires Regions(m0) && Forked(m0, m, parent, child)
    requires forall b | b in m0.spaces :: m.spaces[b] == m0.spaces[b]
    requires m.spaces[child] == m0.spaces[parent].(dir := m.spaces[child].dir)
    ensures Regions(m)
  {}

  /** A finished copy_pde is an eager copy of the whole address space. */
  lemma ForkAbs(m0: Machine, m: Machine, parent: nat, child: nat)
    requires Separated(m0) && CowSafe(m0) && Regions(m0) && ForkSoFar(m0, m, parent, child, 1023)
    ensures CowSafe(m) && Regions(m) && Forked(m0, m, parent, child)
    ensures Abs(m) == Abs(m0).(procs := Abs(m0).procs[child := Abs(m0).procs[parent]])
  {
    hide CowSafe, Regions, Cells, Objects, ProcessOf;
    assert Forked(m0, m, parent, child);
    ForkCowSafe(m0, m, parent, child);
    ForkRegions(m0, m, parent, child);
    ForkObjects(m0, m, parent, child);
    ForkProcs(m0, m, parent, child);
  }

  /** A new address space without tables. */
  lemma AddSpace(m: Machine, m': Machine, child: nat, s: Space)
    requires Core(m) && child !in m.spaces && m' == m.(spaces := m.spaces[child := s])
    requires s.dir == map[] && |s.vmap| == MMAP_PAGES
    ensures Core(m')
    ensures forall b: nat, x: nat | b in m'.spaces :: Look(m', b, x) == if b == child then Absent() else Look(m, b, x)
  {
    assert forall b: nat, x: nat | b in m'.spaces :: Look(m', b, x) == if b == child then Absent() else Look(m, b, x);
    SameMappings(m, m');
  }

  lemma SameMappings(m: Machine, m': Machine)
    requires Core(m) && m'.start == m.start && m'.count == m.count && m'.free == m.free && |m'.ram| == |m.ram|
             && m'.tables == m.tables
    requires forall b | b in m'.spaces :: |m'.spaces[b].vmap| == MMAP_PAGES
    requires forall b: nat, x: nat, g: nat :: Maps(m', b, x, g) == Maps(m, b, x, g)
    requires forall b: nat, d: nat, g: nat :: DirMaps(m', b, d, g) == DirMaps(m, b, d, g)
    ensures Core(m')
  {
    forall f: nat | KERNEL_PAGES <= f < |m.count| ensures m'.count[f] == |Users(m', f)| + |DirUsers(m', f)| {
      SameUsers(m, m', f);
      DirUsersSame(m, m', f);
    }
  }

  // ----- exit -----

  /** free_pde after the tables below lim. */
  ghost predicate ExitSoFar(m0: Machine, m: Machine, a: nat, lim: nat) {
    && a in m0.spaces && m.ram == m0.ram && m.start == m0.start && |m.count| == |m0.count|
    && a in m.spaces && m.spaces == m0.spaces[a := m0.spaces[a].(dir := m.spaces[a].dir)]
    && (forall d | d in m.spaces[a].dir ::
       d >= lim && d in m0.spaces[a].dir && m0.spaces[a].dir[d] == m.spaces[a].dir[d])
    && (forall d | d in m0.spaces[a].dir :: d >= lim ==> d in m.spaces[a].dir)
    && (forall b: nat, x: nat | b in m0.spaces && b != a :: Look(m, b, x) == Look(m0, b, x))
  }

  lemma ExitNext(m0: Machine, m: Machine, m': Machine, a: nat, d: nat)
    requires Core(m) && ExitSoFar(m0, m, a, d) && DropTable(m, m', a, d)
    ensures Core(m') && ExitSoFar(m0, m', a, d + 1)
  {
    DropTableKeepsCore(m, m', a, d);
    DropTableLook(m, m', a, d);
  }

  /** The machine when a's directory is left with its entries from lim on. */
  ghost function WithoutTables(m: Machine, a: nat, lim: nat): Machine
    requires a in m.spaces
  {
    m.(spaces := m.spaces[a := m.spaces[a].(dir := map d | d in m.spaces[a].dir && d >= lim :: m.spaces[a].dir[d])])
  }

  ghost predicate ExitState(m0: Machine, x: Machine, a: nat, lim: nat) {
    a in x.spaces && x.spaces == m0.spaces && Core(WithoutTables(x, a, lim))
      && ExitSoFar(m0, WithoutTables(x, a, lim), a, lim)
  }

  lemma ExitStart(m0: Machine, a: nat)
    requires Core(m0) && a in m0.spaces
    ensures ExitState(m0, m0, a, 4)
  {
    assert forall d | d in m0.spaces[a].dir :: DirMaps(m0, a, d, m0.spaces[a].dir[d]);
    assert WithoutTables(m0, a, 4).spaces[a].dir == m0.spaces[a].dir;
    assert WithoutTables(m0, a, 4) == m0;
  }

  lemma ExitSkip(m0: Machine, x: Machine, a: nat, d: nat)
    requires ExitState(m0, x, a, d) && d !in x.spaces[a].dir
    ensures ExitState(m0, x, a, d + 1)
  {
    var m := WithoutTables(x, a, d);
    assert (map k | k in x.spaces[a].dir && k >= d + 1 :: x.spaces[a].dir[k]) == m.spaces[a].dir;
    assert WithoutTables(x, a, d + 1) == m;
  }

  lemma ExitUsable(m0: Machine, x: Machine, a: nat, d: nat)
    requires ExitState(m0, x, a, d) && d in x.spaces[a].dir && |x.spaces| <= TASK_NUMBER
    ensures var t := x.spaces[a].dir[d];
            && FreeExact(x) && t in x.tables && TableUsable(x.tables[t], x.count)
            && KERNEL_PAGES <= t < |x.count| && x.count[t] == 1 && !InTable(x.tables[t], t)
  {
    var m := WithoutTables(x, a, d);
    var t := x.spaces[a].dir[d];
    assert DirMaps(m, a, d, t);
    Counted(m, a, d, t);
    UsableTable(m, a, d);
    var v := TablePage(m, a, d, t);
  }

  /** Giving up the frames of a table and the table is one round of the exit. */
  lemma ExitRound(m0: Machine, x: Machine, x2: Machine, a: nat, d: nat)
    requires ExitState(m0, x, a, d) && d in x.spaces[a].dir && x.spaces[a].dir[d] in x.tables && FreeExact(x)
             && FreeExact(x2)
    requires x2 == x.(count := x2.count, free := x2.free) && |x2.count| == |x.count|
    requires forall g: nat | g < |x.count| ::
               x2.count[g] == x.count[g] - Bit(InTable(x.tables[x.spaces[a].dir[d]], g)) - Bit(g == x.spaces[a].dir[d])
    ensures ExitState(m0, x2, a, d + 1)
  {
    var m, m2 := WithoutTables(x, a, d), WithoutTables(x2, a, d + 1);
    assert m2.spaces[a].dir == m.spaces[a].dir - {d};
    assert DropTable(m, m2, a, d);
    ExitNext(m0, m, m2, a, d);
  }

  /** When all tables are given up, the directory goes too: the process and the
      shared objects only it mapped are gone, and no other process sees a change. */
  lemma ExitAbs(m0: Machine, m: Machine, m': Machine, a: nat)
    requires Core(m0) && Core(m) && ExitSoFar(m0, m, a, 1023) && m' == m.(spaces := m.spaces - {a})
    ensures Core(m') && (CowSafe(m0) ==> CowSafe(m')) && (Regions(m0) ==> Regions(m'))
    ensures var procs := Abs(m0).procs - {a}; Abs(m') == Eager(procs, Collect(procs, Objects(m0)))
  {
    ExitGone(m, m', a);
    hide Core, CowSafe, Collect, Objects, Cells;
    CoreFacts(m0);
    assert forall b: nat, x: nat | b in m'.spaces :: Look(m', b, x) == Look(m0, b, x);
    ExitObjects(m0, m', a);
  }

  lemma ExitGone(m: Machine, m': Machine, a: nat)
    requires Core(m) && a in m.spaces && m' == m.(spaces := m.spaces - {a})
             && forall d | d in m.spaces[a].dir :: d >= 1023
    ensures Core(m')
  {
    assert m.spaces[a].dir == map[] by {
      assert forall d | d in m.spaces[a].dir :: DirMaps(m, a, d, m.spaces[a].dir[d]);
    }
    assert forall b: nat, x: nat, g: nat :: Maps(m, b, x, g) == Maps(m', b, x, g);
    SameMappings(m, m');
  }

  lemma ExitProcs(m0: Machine, m': Machine, a: nat)
    requires a in m0.spaces && m'.ram == m0.ram
    requires m'.spaces.Keys == m0.spaces.Keys - {a} && forall b | b in m'.spaces :: m'.spaces[b] == m0.spaces[b]
    requires forall b: nat, x: nat | b in m'.spaces :: Look(m', b, x) == Look(m0, b, x)
    ensures Abs(m').procs == Abs(m0).procs - {a}
  {
    forall b | b in m'.spaces ensures Cells(m', b) == Cells(m0, b) { SameCells(m0, m', b, b); }
    hide Cells, Objects;
    assert Abs(m').procs == Abs(m0).procs - {a};
  }

  lemma ExitMaps(m0: Machine, m': Machine, a: nat)
    requires a in m0.spaces && m'.spaces.Keys == m0.spaces.Keys - {a}
    requires forall b: nat, x: nat | b in m'.spaces :: Look(m', b, x) == Look(m0, b, x)
    ensures forall b: nat, x: nat, g: nat :: Maps(m', b, x, g) == (b != a && Maps(m0, b, x, g))
    ensures CowSafe(m0) ==> CowSafe(m')
  {}

  lemma ExitObjects(m0: Machine, m': Machine, a: nat)
    requires Core(m0) && Core(m') && a in m0.spaces && m'.ram == m0.ram
    requires m'.spaces.Keys == m0.spaces.Keys - {a} && forall b | b in m'.spaces :: m'.spaces[b] == m0.spaces[b]
    requires forall b: nat, x: nat | b in m'.spaces :: Look(m', b, x) == Look(m0, b, x)
    ensures CowSafe(m0) ==> CowSafe(m')
    ensures Abs(m').procs == Abs(m0).procs - {a}
    ensures Objects(m') == Collect(Abs(m0).procs - {a}, Objects(m0))
  {
    ExitMaps(m0, m', a);
    ExitProcs(m0, m', a);
    CoreFacts(m0);
    CoreFacts(m');
    hide Core, CowSafe, Cells, Look;
    var procs := Abs(m0).procs - {a};
    forall f: nat | SharedFrame(m', f) ensures f in Collect(procs, Objects(m0)) {
      RefersShared(m', f);
      StaysShared(m0, m', a, f);
    }
    ObjectsAre(m', procs, Collect(procs, Objects(m0)));
  }

  lemma StaysShared(m0: Machine, m': Machine, a: nat, f: nat)
    requires SharedFrame(m', f) && forall b: nat, x: nat, g: nat :: Maps(m', b, x, g) == (b != a && Maps(m0, b, x, g))
    requires m'.spaces.Keys <= m0.spaces.Keys
    requires forall b: nat, x: nat | b in m'.spaces :: Look(m', b, x) == Look(m0, b, x)
    ensures SharedFrame(m0, f)
  {
    var b: nat, x: nat :| Maps(m', b, x, f) && Look(m', b, x).shared;
    assert Maps(m0, b, x, f);
  }

  // ----- bookkeeping and ranges -----

  /** Moving the break or the bitmap of mappings changes no memory. */
  lemma Rebook(m: Machine, m': Machine, a: nat, brk: nat, vmap: seq<bool>)
    requires Core(m) && a in m.spaces && |vmap| == MMAP_PAGES
    requires m' == m.(spaces := m.spaces[a := m.spaces[a].(brk := brk, vmap := vmap)])
    ensures Core(m') && (CowSafe(m) ==> CowSafe(m'))
    ensures forall b: nat, x: nat | b in m.spaces :: Look(m', b, x) == Look(m, b, x)
    ensures Abs(m') == Abs(m).(procs := Abs(m).procs[a := Abs(m).procs[a].(brk := brk, vmap := vmap)])
  {
    hide Core, CowSafe, Cells, Objects;
    CoreFacts(m);
    RebookLook(m, m', a);
    SameMappings(m, m');
    SameAbs(m, m');
    hide Look, Maps, DirMaps;
  }

  lemma RebookLook(m: Machine, m': Machine, a: nat)
    requires a in m.spaces && m' == m.(spaces := m'.spaces) && m'.spaces.Keys == m.spaces.Keys
    requires forall b | b in m.spaces :: m'.spaces[b].dir == m.spaces[b].dir
    ensures forall b: nat, x: nat | b in m.spaces :: Look(m', b, x) == Look(m, b, x)
    ensures forall b: nat, x: nat, g: nat :: Maps(m', b, x, g) == Maps(m, b, x, g)
    ensures forall b: nat, d: nat, g: nat :: DirMaps(m', b, d, g) == DirMaps(m, b, d, g)
  {}

  /** m' shows every process what m shows it. */
  ghost predicate Unseen(m: Machine, m': Machine) {
    && m'.ram == m.ram && m'.start == m.start && |m'.count| == |m.count| && m'.spaces.Keys == m.spaces.Keys
    && (forall b | b in m.spaces :: m'.spaces[b] == m.spaces[b].(dir := m'.spaces[b].dir))
    && (forall b: nat, x: nat | b in m.spaces :: Look(m', b, x) == Look(m, b, x))
  }

  lemma UnseenSame(m: Machine, m': Machine)
    requires Unseen(m, m')
    ensures Abs(m') == Abs(m) && (CowSafe(m) ==> CowSafe(m')) && (Regions(m) ==> Regions(m'))
  {
    SameAbs(m, m');
    assert Abs(m').procs == Abs(m).procs;
  }

  /** m' differs from m in the entry of page v of a at most, as far as processes can tell. */
  ghost predicate OnlyPage(m: Machine, m': Machine, a: nat, v: nat) {
    && m'.start == m.start && |m'.count| == |m.count| && m'.spaces.Keys == m.spaces.Keys
    && (forall b | b in m.spaces :: m'.spaces[b] == m.spaces[b].(dir := m'.spaces[b].dir))
    && (forall b: nat, x: nat | b in m.spaces && !(b == a && x == v) :: Look(m', b, x) == Look(m, b, x))
  }

  lemma RemapCowSafeIfSafe(m: Machine, m': Machine, a: nat, v: nat, e: Entry)
    requires Core(m) && Remap(m, m', a, v, e) && UserPage(v) && Mappable(m, a, v, e) && SafeEntry(m, a, v, e)
    ensures CowSafe(m) ==> CowSafe(m')
  {
    if CowSafe(m) { RemapCowSafe(m, m', a, v, e); }
  }

  lemma RemoveAbsent(m: Machine, a: nat, v: nat)
    requires WellFormed(m) && a in m.spaces && !(UserPage(v) && Look(m, a, v).present)
    ensures RemoveCell(Abs(m), a, v) == Abs(m)
  {
    assert Cells(m, a) - {v} == Cells(m, a);
    assert WithCells(Abs(m), a, Cells(m, a)) == Abs(m).procs;
    ObjectsLive(m);
  }

  // ----- the two answers to a write fault -----

  /** The frame is nobody else's: the write bit comes back. */
  ghost predicate Reclaimed(m: Machine, m': Machine, a: nat, v: nat) {
    && a in m.spaces && UserPage(v) && v / 1024 in m.spaces[a].dir && m.spaces[a].dir[v / 1024] in m.tables
    && var e := Look(m, a, v);
    && e.present && !e.shared && !e.readonly && e.index < |m.count| && m.count[e.index] == 1
    && m' == m.(tables := m.tables[m.spaces[a].dir[v / 1024] :=
       m.tables[m.spaces[a].dir[v / 1024]][v % 1024 := e.(write := true)]])
  }

  /** Others use the frame: the page moves to a copy in the free frame f. */
  ghost predicate CopiedOut(m: Machine, m': Machine, a: nat, v: nat, f: nat) {
    && a in m.spaces && UserPage(v) && v / 1024 in m.spaces[a].dir && m.spaces[a].dir[v / 1024] in m.tables
    && KERNEL_PAGES <= f < |m.count| == |m.ram| && m.count[f] == 0
    && var e := Look(m, a, v);
    && e.present && !e.shared && !e.readonly && e.index < |m.count| && m.count[e.index] > 1
    && m' == m.(count := m.count[f := 1][e.index := m.count[e.index] - 1], free := m.free - 1,
       ram := m.ram[f := m.ram[e.index]], zero := m'.zero,
                tables := m.tables[m.spaces[a].dir[v / 1024] :=
                  m.tables[m.spaces[a].dir[v / 1024]][v % 1024 := EntryInit(f)]])
  }

  lemma ReclaimInvisible(m: Machine, m': Machine, a: nat, v: nat)
    requires Core(m) && CowSafe(m) && Reclaimed(m, m', a, v)
    ensures Core(m') && CowSafe(m') && Abs(m') == Abs(m) && OnlyPage(m, m', a, v)
            && Look(m', a, v) == Look(m, a, v).(write := true)
  {
    var e := Look(m, a, v);
    var e' := e.(write := true);
    assert Maps(m, a, v, e.index);
    assert Take(Drop(m.count, e), e') == m.count;
    assert Remap(m, m', a, v, e');
    SoleUser(m, a, v, e.index);
    RemapKeepsCore(m, m', a, v, e');
    RemapLook(m, m', a, v, e');
    RemapCowSafe(m, m', a, v, e');
    RemapAbs(m, m', a, v, e');
    PutSame(m, a, v, CellOf(m, e'), m.ram[e.index]);
  }

  lemma CopyInvisible(m: Machine, m': Machine, a: nat, v: nat, f: nat)
    requires Core(m) && CowSafe(m) && CopiedOut(m, m', a, v, f)
    ensures Core(m') && CowSafe(m') && Abs(m') == Abs(m) && OnlyPage(m, m', a, v) && Look(m', a, v) == EntryInit(f)
  {
    var e := Look(m, a, v);
    var m1 := m.(ram := m.ram[f := m.ram[e.index]], zero := m'.zero);
    UnmappedWrite(m, m1, f, m.ram[e.index]);
    CopyCounts(m.count, e, f);
    assert Look(m1, a, v) == e;
    assert Remap(m1, m', a, v, EntryInit(f));
    Unnamed(m1, f);
    RemapKeepsCore(m1, m', a, v, EntryInit(f));
    RemapLook(m1, m', a, v, EntryInit(f));
    RemapCowSafe(m1, m', a, v, EntryInit(f));
    RemapAbs(m1, m', a, v, EntryInit(f));
    assert CellOf(m1, EntryInit(f)) == CellOf(m, e);
    PutSame(m1, a, v, CellOf(m, e), m1.ram[f]);
  }

  lemma CopyCounts(count: seq<uint8>, e: Entry, f: nat)
    requires f < |count| && e.index < |count| && e.present && count[f] == 0 && count[e.index] > 1
    ensures count[f := 1][e.index := count[e.index] - 1] == Take(Drop(count, e), EntryInit(f))
    ensures |FreeFrames(count[f := 1][e.index := count[e.index] - 1])| == |FreeFrames(count)| - 1
  {
    FreeFramesUpdate(count, f, 1);
    FreeFramesUpdate(count[f := 1], e.index, count[e.index] - 1);
  }

  lemma RegionsKept(m: Machine, m': Machine, a: nat, v: nat)
    requires Regions(m) && OnlyPage(m, m', a, v) && a in m.spaces
    requires Look(m', a, v).present == Look(m, a, v).present
             || (UserPage(v) && (v >= STACK_BOTTOM || v < m.spaces[a].brk))
    ensures Regions(m')
  {}

  lemma ExitEnd(m0: Machine, x: Machine, a: nat)
    requires Core(m0) && ExitState(m0, x, a, 1023)
    ensures var m := x.(spaces := x.spaces - {a});
            && Core(m) && (CowSafe(m0) ==> CowSafe(m)) && (Regions(m0) ==> Regions(m))
            && var procs := Abs(m0).procs - {a}; Abs(m) == Eager(procs, Collect(procs, Objects(m0)))
  {
    var m := WithoutTables(x, a, 1023);
    assert m.(spaces := m.spaces - {a}) == x.(spaces := x.spaces - {a});
    ExitAbs(m0, m, x.(spaces := x.spaces - {a}), a);
  }

  lemma EntryFacts(m: Machine, a: nat, v: nat)
    requires Core(m) && a in m.spaces && UserPage(v) && Look(m, a, v).present
    ensures v / 1024 in m.spaces[a].dir && m.spaces[a].dir[v / 1024] in m.tables
    ensures var f := Look(m, a, v).index; KERNEL_PAGES <= f < |m.count| == |m.ram| && m.count[f] > 0
    ensures FreeExact(m)
  {
    assert Maps(m, a, v, Look(m, a, v).index);
    Named(m, a, v, Look(m, a, v).index);
  }

  // ----- mmap -----

  /** The flags sys_mmap writes into an entry, whatever it finds there. */
  function Reflag(e: Entry, write: bool, shared: bool, privat: bool): Entry {
    e.(write := write, readonly := !write, shared := e.shared || shared, privat := e.privat || privat)
  }

  lemma ReflagCounts(m: Machine, a: nat, v: nat, e': Entry)
    requires Core(m) && a in m.spaces && UserPage(v) && Look(m, a, v).present && e'.present
             && e'.index == Look(m, a, v).index
    ensures Take(Drop(m.count, Look(m, a, v)), e') == m.count
    ensures Mappable(m, a, v, e')
  {
    EntryFacts(m, a, v);
    assert Maps(m, a, v, e'.index);
  }

  ghost predicate OthersShared(m: Machine, a: nat, v: nat)
    requires a in m.spaces
  {
    forall b: nat, x: nat | Maps(m, b, x, Look(m, a, v).index) && !(b == a && x == v) :: Look(m, b, x).shared
  }

  /** When an mmap may fall on a page already present: the page can only be read
      afterwards, or no other process uses the frame, or all who do share it. */
  ghost predicate MayRemap(m: Machine, a: nat, v: nat, write: bool, shared: bool)
    requires a in m.spaces && Look(m, a, v).index < |m.count|
  {
    !write || m.count[Look(m, a, v).index] == 1 || ((Look(m, a, v).shared || shared) && OthersShared(m, a, v))
  }

  /** An mmap over a page already present leaves copy-on-write sound in these cases and
      no others. Where all entries of the frame agree on sharing it, as they do until a
      shared mapping falls on a private page, the page must have been a shared one. */
  lemma MmapOverPresent(m: Machine, m': Machine, a: nat, v: nat, write: bool, shared: bool, privat: bool)
    requires Core(m) && CowSafe(m) && a in m.spaces && UserPage(v) && Look(m, a, v).present
    requires Remap(m, m', a, v, Reflag(Look(m, a, v), write, shared, privat))
    ensures Core(m')
    ensures Look(m, a, v).index < |m.count|
    ensures CowSafe(m') <==> MayRemap(m, a, v, write, shared)
    ensures CowSafe(m') <==> NoLeak(m')
    ensures OthersShared(m, a, v) == Look(m, a, v).shared ==>
              (CowSafe(m') <==> !write || m.count[Look(m, a, v).index] == 1 || Look(m, a, v).shared)
  {
    var e, e' := Look(m, a, v), Reflag(Look(m, a, v), write, shared, privat);
    EntryFacts(m, a, v);
    ReflagCounts(m, a, v, e');
    RemapKeepsCore(m, m', a, v, e');
    RemapCowSafe(m, m', a, v, e');
    RemapNoLeak(m, m', a, v, e');
    assert Maps(m, a, v, e.index);
    if m.count[e.index] == 1 {
      SoleUser(m, a, v, e.index);
    } else {
      var b, x := AnotherUser(m, a, v, e.index);
    }
  }

  lemma AnotherUser(m: Machine, a: nat, v: nat, f: nat) returns (b: nat, x: nat)
    requires Core(m) && Maps(m, a, v, f) && m.count[f] > 1
    ensures Maps(m, b, x, f) && !(b == a && x == v)
  {
    NotATable(m, a, v, f);
    var q := Second(Users(m, f), (a, v));
    b, x := q.0, q.1;
  }

  lemma NotATable(m: Machine, a: nat, v: nat, f: nat)
    requires Separated(m) && Maps(m, a, v, f)
    ensures DirUsers(m, f) == {}
  {}

  lemma Second<T>(s: set<T>, p: T) returns (q: T)
    requires |s| > 1
    ensures q in s && q != p
  {
    if s - {p} == {} { assert s <= {p}; assert |s| <= |{p}| by { assert s == {} || s == {p}; } }
    q :| q in s - {p};
  }

  /** The new page of an mmap, from link_page to its flags, is one new cell. */
  lemma MmapPageAbs(m0: Machine, m1: Machine, m2: Machine, m3: Machine, a: nat, v: nat, vmap: seq<bool>, write: bool,
          shared: bool, privat: bool)
    requires Core(m0) && Core(m1) && CowSafe(m1) && OnlyPage(m0, m1, a, v) && a in m0.spaces && UserPage(v)
             && !Look(m0, a, v).present
    requires var e := Look(m1, a, v);
             && e == EntryInit(e.index) && e.index < |m1.ram| && m1.count[e.index] == 1
             && Abs(m1) == PutCell(Abs(m0), a, v, Private(m1.ram[e.index], true), m1.ram[e.index])
    requires |vmap| == MMAP_PAGES && m2 == m1.(spaces := m1.spaces[a := m1.spaces[a].(vmap := vmap)])
    requires Remap(m2, m3, a, v, Reflag(Look(m1, a, v), write, shared, privat)) && m3.ram == m2.ram
    ensures Core(m3) && CowSafe(m3) && Look(m3, a, v) == Reflag(Look(m1, a, v), write, shared, privat)
    ensures forall b: nat, x: nat | b in m0.spaces && !(b == a && x == v) :: Look(m3, b, x) == Look(m0, b, x)
    ensures var c := CellOf(m3, Look(m3, a, v));
            OneMore(Abs(m0), Abs(m3), a, v, c) && c.writable == write && c.Shared? == shared
              && Abs(m3).procs[a].vmap == vmap
  {
    hide Core, CowSafe, Regions, PutCell;
    var e := Look(m1, a, v);
    var e' := Reflag(e, write, shared, privat);
    Rebook(m1, m2, a, m1.spaces[a].brk, vmap);
    assert Look(m2, a, v) == e;
    ReflagCounts(m2, a, v, e');
    RemapEntries(m2, m3, a, v, e');
    MmapOverPresent(m2, m3, a, v, write, shared, privat);
    RemapAbs(m2, m3, a, v, e');
    NewFrameNotShared(m0, m1, a, v);
    LiveAbs(m0);
    LiveAbs(m1);
    PutTwice(Abs(m0), Abs(m1), Abs(m2), Abs(m3), a, v, vmap, CellOf(m2, e'), m1.ram[e.index]);
  }

  lemma RemapEntries(m: Machine, m': Machine, a: nat, v: nat, e: Entry)
    requires Core(m) && Remap(m, m', a, v, e)
    ensures forall b: nat, x: nat | b in m.spaces :: Look(m', b, x) == if b == a && x == v then e else Look(m, b, x)
  {
    RemapLook(m, m', a, v, e);
  }

  lemma LiveAbs(m: Machine)
    requires Core(m)
    ensures Live(Abs(m)) && Whole(Abs(m))
  {
    ObjectsLive(m);
    forall f: nat | Refers(Abs(m).procs, f) ensures f in Abs(m).objects { RefersShared(m, f); }
  }

  lemma NewFrameNotShared(m0: Machine, m1: Machine, a: nat, v: nat)
    requires Core(m1) && OnlyPage(m0, m1, a, v) && a in m0.spaces && UserPage(v) && !Look(m0, a, v).present
    requires Look(m1, a, v).present && Look(m1, a, v).index < |m1.count| && m1.count[Look(m1, a, v).index] == 1
    ensures Look(m1, a, v).index !in Objects(m0)
  {
    var f := Look(m1, a, v).index;
    assert Maps(m1, a, v, f);
    SoleUser(m1, a, v, f);
    assert forall b: nat, x: nat :: Maps(m0, b, x, f) ==> Maps(m1, b, x, f);
  }

  // ----- what an access finds -----

  lemma ReadsCell(m: Machine, a: nat, v: nat)
    requires Core(m) && a in m.spaces && UserPage(v) && Look(m, a, v).present
    ensures v in Cells(m, a) && Look(m, a, v).index < |m.ram|
    ensures Content(Abs(m), Cells(m, a)[v]) == m.ram[Look(m, a, v).index]
  {
    EntryFacts(m, a, v);
    var f := Look(m, a, v).index;
    assert Maps(m, a, v, f);
    if Look(m, a, v).shared { assert SharedFrame(m, f); }
  }

  /** A write fault on a page others share or may only read is the eager machine's fault too. */
  lemma WritableCell(m: Machine, a: nat, v: nat)
    requires Core(m) && CowSafe(m) && a in m.spaces && UserPage(v)
    ensures Live(Abs(m))
    ensures v in Cells(m, a) <==> Look(m, a, v).present
    ensures var e := Look(m, a, v); e.present ==>
              && Cells(m, a)[v].writable == !e.readonly && Cells(m, a)[v].Shared? == e.shared
              && (e.write ==> !e.readonly)
              && (!e.write && !e.readonly ==> !e.shared)
              && (e.shared ==> e.write == !e.readonly)
  {
    ObjectsLive(m);
    if Look(m, a, v).present { assert Maps(m, a, v, Look(m, a, v).index); }
  }

  lemma CellPresent(m: Machine, a: nat, v: nat)
    requires a in m.spaces && UserPage(v)
    ensures v in Abs(m).procs[a].cells <==> Look(m, a, v).present
  {}

  lemma FreshEntrySafe(m: Machine, a: nat, v: nat, f: nat)
    requires Core(m) && KERNEL_PAGES <= f < |m.count| && m.count[f] == 0
    ensures SafeEntry(m, a, v, EntryInit(f)) && Mappable(m, a, v, EntryInit(f))
  {
    Unnamed(m, f);
  }

  // ----- the bookkeeping of break and mappings -----

  lemma RegionFacts(m: Machine, a: nat)
    requires Regions(m) && a in m.spaces
    ensures m.spaces[a].brk <= MMAP_START && KERNEL_PAGES <= m.spaces[a].end
  {}

  lemma AbsSpace(m: Machine, a: nat)
    requires a in m.spaces
    ensures a in Abs(m).procs && var p, s := Abs(m).procs[a], m.spaces[a];
            p.brk == s.brk && p.end == s.end && p.vmap == s.vmap
  {}

  lemma RebookBrk(m: Machine, m': Machine, a: nat, brk: nat)
    requires Core(m) && Regions(m) && a in m.spaces && brk <= MMAP_START
    requires m' == m.(spaces := m.spaces[a := m.spaces[a].(brk := brk)])
    requires forall x: nat | brk <= x < m.spaces[a].brk :: !Look(m, a, x).present
    ensures Core(m') && (CowSafe(m) ==> CowSafe(m')) && Regions(m') && Abs(m') == WithBrk(Abs(m), a, brk)
  {
    assert forall b: nat, x: nat | b in m.spaces :: Look(m', b, x) == Look(m, b, x);
    Rebook(m, m', a, brk, m.spaces[a].vmap);
  }

  lemma RebookVmap(m: Machine, m': Machine, a: nat, vmap: seq<bool>)
    requires Core(m) && a in m.spaces && |vmap| == MMAP_PAGES
    requires m' == m.(spaces := m.spaces[a := m.spaces[a].(vmap := vmap)])
    ensures Core(m') && (CowSafe(m) ==> CowSafe(m')) && Abs(m') == WithVmap(Abs(m), a, vmap)
  {
    Rebook(m, m', a, m.spaces[a].brk, vmap);
  }

  /** A page unlinked and its bit cleared: the bitmap still says what is mapped. */
  lemma ClearMapping(m: Machine, m1: Machine, m2: Machine, a: nat, v: nat)
    requires Regions(m) && OnlyPage(m, m1, a, v) && a in m.spaces && !Look(m1, a, v).present
    requires |m1.spaces[a].vmap| == MMAP_PAGES && MMAP_START <= v < STACK_TOP
    requires m2 == m1.(spaces := m1.spaces[a := m1.spaces[a].(vmap := m1.spaces[a].vmap[v - MMAP_START := false])])
    ensures Regions(m2)
  {
    assert forall b: nat, x: nat | b in m.spaces :: Look(m2, b, x) == Look(m1, b, x);
  }

  predicate SpaceKept(s: Space, s': Space, remapped: bool) {
    s'.brk == s.brk && s'.end == s.end && (remapped || s'.vmap == s.vmap)
  }

  /** One page mapped, with its bit; the rest of the address spaces as before. */
  ghost predicate MmapOneSpaces(m: Machine, m': Machine, a: nat, p: nat) {
    && m'.spaces.Keys == m.spaces.Keys && a in m.spaces
    && (forall b | b in m.spaces :: SpaceKept(m.spaces[b], m'.spaces[b], b == a))
    && (forall b: nat, x: nat | b in m.spaces && !(b == a && x == p) :: Look(m', b, x) == Look(m, b, x))
    && Look(m', a, p).present
  }

  /** The first i pages of an mmap are there and nothing else has moved. */
  ghost predicate MmapSoFar(m0: Machine, m: Machine, a: nat, at: nat, i: nat) {
    && m.spaces.Keys == m0.spaces.Keys && a in m0.spaces
    && (forall b | b in m0.spaces :: SpaceKept(m0.spaces[b], m.spaces[b], b == a))
    && (forall b: nat, x: nat | b in m0.spaces && !(b == a && InRange(x, at, i)) :: Look(m, b, x) == Look(m0, b, x))
    && (forall x: nat | InRange(x, at, i) :: Look(m, a, x).present)
  }

  ghost predicate MmapState(m0: Machine, m: Machine, bits: seq<bool>, a: nat, at: nat, i: nat) {
    && m.spaces.Keys == m0.spaces.Keys && a in m.spaces && Core(m) && MmapSoFar(m0, m, a, at, i) && at >= MMAP_START
    && m.spaces[a].vmap == SetBits(bits, at - MMAP_START, i, true)
  }

  /** The scan of the bitmap, if there was one, changed only the bitmap. */
  lemma MmapStart(m0: Machine, m: Machine, a: nat, at: nat, write: bool, shared: bool)
    requires Core(m0) && a in m0.spaces && at >= MMAP_START && a in m.spaces && |m.spaces[a].vmap| == MMAP_PAGES
    requires m == m0.(spaces := m0.spaces[a := m0.spaces[a].(vmap := m.spaces[a].vmap)])
    ensures MmapState(m0, m, m.spaces[a].vmap, a, at, 0)
    ensures CowSafe(m0) ==> CowSafe(m) && MmapCells(Abs(m0), Abs(m), a, at, 0, write, shared)
  {
    hide Core, CowSafe, MmapCells, Abs;
    AbsSpace(m0, a);
    assert forall b: nat, x: nat | b in m0.spaces :: Look(m, b, x) == Look(m0, b, x);
    RebookVmap(m0, m, a, m.spaces[a].vmap);
    MmapNone(Abs(m0), a, at, write, shared, m.spaces[a].vmap);
    assert SetBits(m.spaces[a].vmap, at - MMAP_START, 0, true) == m.spaces[a].vmap;
  }

  lemma MmapSoFarNext(m0: Machine, m: Machine, m': Machine, a: nat, at: nat, i: nat)
    requires MmapSoFar(m0, m, a, at, i) && MmapOneSpaces(m, m', a, at + i)
    ensures MmapSoFar(m0, m', a, at, i + 1)
  {
    forall x: nat | InRange(x, at, i + 1) ensures Look(m', a, x).present {
      if x != at + i { assert InRange(x, at, i); }
    }
    forall b: nat, x: nat | b in m0.spaces && !(b == a && InRange(x, at, i + 1))
      ensures Look(m', b, x) == Look(m0, b, x) {
      assert !(b == a && InRange(x, at, i));
    }
  }

  lemma FreshPage(m0: Machine, m: Machine, a: nat, at: nat, i: nat, count: nat)
    requires MmapSoFar(m0, m, a, at, i) && i < count && MMAP_START <= at && at + count <= STACK_TOP
    ensures FreshRange(Abs(m0).procs[a], at, count) ==> !Look(m, a, at + i).present
  {
    assert InRange(at + i, at, count) && !InRange(at + i, at, i);
    assert UserPage(at + i);
  }

  lemma MmapRegions(m0: Machine, m: Machine, a: nat, at: nat, count: nat)
    requires Regions(m0) && MmapSoFar(m0, m, a, at, count) && MMAP_START <= at && at + count <= STACK_TOP
    requires |m0.spaces[a].vmap| == MMAP_PAGES && m.spaces[a].vmap == SetBits(m0.spaces[a].vmap, at - MMAP_START,
             count, true)
    ensures Regions(m)
  {}

  lemma OnePageRegions(m0: Machine, m: Machine, a: nat, p: nat)
    requires Regions(m0) && MmapOneSpaces(m0, m, a, p) && MMAP_START <= p < STACK_TOP
             && |m0.spaces[a].vmap| == MMAP_PAGES
    requires m.spaces[a].vmap == m0.spaces[a].vmap[p - MMAP_START := true]
    ensures Regions(m)
  {
    MmapSoFarNext(m0, m0, m, a, p, 0);
    assert SetBits(m0.spaces[a].vmap, p - MMAP_START, 1, true) == m.spaces[a].vmap;
    MmapRegions(m0, m, a, p, 1);
  }

  /** After a fork a private page is no longer one the parent may map again for writing. */
  lemma ForkedTwice(m0: Machine, m: Machine, parent: nat, child: nat, p: nat)
    requires Core(m) && Forked(m0, m, parent, child) && UserPage(p)
    requires Look(m0, parent, p).present && !Look(m0, parent, p).shared
    ensures var e := Look(m, parent, p);
            e.present && !e.shared && e.index < |m.count| && !MayRemap(m, parent, p, true, false)
  {
    var f := Look(m, parent, p).index;
    assert Maps(m, parent, p, f) && Maps(m, child, p, f);
    Named(m, parent, p, f);
    if m.count[f] == 1 {
      SoleUser(m, parent, p, f);
      assert false;
    }
  }

  lemma RemapCore(m: Machine, m': Machine, a: nat, v: nat, e: Entry)
    requires Core(m) && Remap(m, m', a, v, e) && UserPage(v) && Mappable(m, a, v, e)
    ensures Core(m')
    ensures forall b: nat, x: nat | b in m.spaces :: Look(m', b, x) == if b == a && x == v then e else Look(m, b, x)
  {
    RemapKeepsCore(m, m', a, v, e);
    RemapLook(m, m', a, v, e);
  }

  /** link_page, the bitmap and the flags, on a new page and on a present one. */
  lemma MmapOneDone(m0: Machine, m1: Machine, m2: Machine, m3: Machine, a: nat, p: nat, write: bool, shared: bool,
          privat: bool)
    requires Core(m0) && Core(m1) && OnlyPage(m0, m1, a, p) && a in m0.spaces && UserPage(p)
             && (CowSafe(m0) ==> CowSafe(m1))
    requires Look(m1, a, p).present && (Look(m0, a, p).present ==> m1 == m0)
    requires !Look(m0, a, p).present ==>
               var e := Look(m1, a, p);
               && e == EntryInit(e.index) && e.index < |m1.ram| && m1.count[e.index] == 1
               && Abs(m1) == PutCell(Abs(m0), a, p, Private(m1.ram[e.index], true), m1.ram[e.index])
    requires Core(m2) && (CowSafe(m1) ==> CowSafe(m2)) && a in m2.spaces && |m2.spaces[a].vmap| == MMAP_PAGES
    requires m2 == m1.(spaces := m1.spaces[a := m1.spaces[a].(vmap := m2.spaces[a].vmap)])
    requires Remap(m2, m3, a, p, Reflag(Look(m1, a, p), write, shared, privat)) && m3.ram == m2.ram
    ensures Core(m3) && MmapOneSpaces(m0, m3, a, p)
    ensures CowSafe(m0) && !Look(m0, a, p).present ==>
              var c := CellOf(m3, Look(m3, a, p));
              CowSafe(m3) && OneMore(Abs(m0), Abs(m3), a, p, c) && c.writable == write && c.Shared? == shared
    ensures CowSafe(m0) && Look(m0, a, p).present && Look(m0, a, p).index < |m0.count| ==>
              (CowSafe(m3) <==> MayRemap(m0, a, p, write, shared)) && (CowSafe(m3) <==> NoLeak(m3))
  {
    hide Core, CowSafe, Regions, PutCell, Abs, OneMore, CellOf;
    var e := Reflag(Look(m1, a, p), write, shared, privat);
    assert forall b: nat, x: nat | b in m1.spaces :: Look(m2, b, x) == Look(m1, b, x);
    ReflagCounts(m2, a, p, e);
    RemapCore(m2, m3, a, p, e);
    if CowSafe(m0) {
      if Look(m0, a, p).present {
        MmapOverPresent(m2, m3, a, p, write, shared, privat);
      } else {
        MmapPageAbs(m0, m1, m2, m3, a, p, m2.spaces[a].vmap, write, shared, privat);
      }
    }
  }

  lemma SameTasks(m: Machine)
    ensures Abs(m).procs.Keys == m.spaces.Keys && |Abs(m).procs| == |m.spaces|
  {
    assert |Abs(m).procs| == |Abs(m).procs.Keys|;
  }

  // ----- the first address space, and a fault outside user memory -----

  lemma Interval(s: set<nat>, lo: nat, hi: nat)
    requires lo <= hi && forall x: nat :: x in s <==> lo <= x < hi
    ensures |s| == hi - lo
    decreases hi - lo
  {
    if lo == hi {
      assert s == {};
    } else {
      Interval(s - {lo}, lo + 1, hi);
    }
  }

  lemma BootCore(m: Machine, first: nat)
    requires 0 < m.start < KERNEL_PAGES <= |m.count| == |m.ram| && m.free == |m.count| - m.start
    requires forall f: nat | f < |m.count| :: m.count[f] == if f < KERNEL_PAGES then 1 else 0
    requires m.spaces == map[first := Space(map[], KERNEL_PAGES, KERNEL_PAGES, seq(MMAP_PAGES, _ => false))]
    ensures Core(m) && CowSafe(m) && Regions(m) && Abs(m).procs[first].cells == map[]
  {
    Interval(FreeFrames(m.count), KERNEL_PAGES, |m.count|);
    NothingMapped(m, first);
    NoCells(m, first);
    hide Look, Maps, DirMaps, Users, DirUsers, FreeFrames, Cells, Objects;
  }

  lemma NoCells(m: Machine, first: nat)
    requires first in m.spaces && m.spaces[first].dir == map[]
    ensures Cells(m, first) == map[]
  {}

  lemma NothingMapped(m: Machine, first: nat)
    requires m.spaces.Keys == {first} && m.spaces[first].dir == map[]
    ensures forall a: nat, v: nat, f: nat :: !Maps(m, a, v, f)
    ensures forall a: nat, d: nat, f: nat :: !DirMaps(m, a, d, f)
    ensures forall f: nat :: |Users(m, f)| + |DirUsers(m, f)| == 0
    ensures forall a: nat, v: nat | a in m.spaces :: !Look(m, a, v).present
  {
    assert forall v: nat :: Look(m, first, v) == Absent();
    forall f: nat ensures |Users(m, f)| + |DirUsers(m, f)| == 0 {
      NoUsers(m, f);
    }
  }

  lemma NoUsers(m: Machine, f: nat)
    requires forall a: nat, v: nat :: !Maps(m, a, v, f)
    requires forall a: nat, d: nat :: !DirMaps(m, a, d, f)
    ensures Users(m, f) == {} && DirUsers(m, f) == {}
  {}

  /** link_page(0): the frame is named by the kernel table all directories share. */
  ghost predicate NullLinked(m: Machine, m': Machine, f: nat) {
    && KERNEL_PAGES <= f < |m.count| && m.count[f] == 0
    && m' == m.(count := m.count[f := 1], free := m.free - 1, zero := EntryInit(f))
  }

  /** page_fault does not reject page 0. The frame a null access links belongs to no
      address space: its count is one too high, for every task and for ever. */
  lemma NullFaultMiscounts(m: Machine, m': Machine, f: nat)
    requires Core(m) && NullLinked(m, m', f)
    ensures FreeExact(m') && !ExactCounts(m') && m'.count[m'.zero.index] == |Users(m', f)| + |DirUsers(m', f)| + 1
    ensures forall a: nat, v: nat :: !Maps(m', a, v, m'.zero.index)
  {
    FreeFramesUpdate(m.count, f, 1);
    Unnamed(m, f);
    assert forall a: nat, v: nat | a in m.spaces :: Look(m', a, v) == Look(m, a, v);
    assert forall a: nat, v: nat, g: nat :: Maps(m', a, v, g) == Maps(m, a, v, g);
    assert forall a: nat, d: nat, g: nat :: DirMaps(m', a, d, g) == DirMaps(m, a, d, g);
    NoUsers(m', f);
  }

  /** link_page on an absent page whose table exists. */
  lemma LinkedNew(m: Machine, m': Machine, a: nat, v: nat, f: nat)
    requires Core(m) && a in m.spaces && UserPage(v) && v / 1024 in m.spaces[a].dir
             && m.spaces[a].dir[v / 1024] in m.tables
    requires !Look(m, a, v).present && KERNEL_PAGES <= f < |m.count| && m.count[f] == 0
    requires m' == m.(count := m.count[f := 1], free := m.free - 1,
                      tables := m.tables[m.spaces[a].dir[v / 1024] :=
                        m.tables[m.spaces[a].dir[v / 1024]][v % 1024 := EntryInit(f)]])
    ensures Core(m') && OnlyPage(m, m', a, v) && (CowSafe(m) ==> CowSafe(m'))
    ensures Look(m', a, v) == EntryInit(f) && f < |m.ram|
    ensures Abs(m') == PutCell(Abs(m), a, v, Private(m.ram[f], true), m.ram[f])
  {
    var e := EntryInit(f);
    FreeFramesUpdate(m.count, f, 1);
    CoreFacts(m);
    assert Remap(m, m', a, v, e);
    hide Core, CowSafe, PutCell, Abs, SafeEntry;
    LinkedKeepsCore(m, m', a, v, f);
    RemapAbs(m, m', a, v, e);
  }

  lemma LinkedKeepsCore(m: Machine, m': Machine, a: nat, v: nat, f: nat)
    requires Core(m) && Remap(m, m', a, v, EntryInit(f)) && UserPage(v) && KERNEL_PAGES <= f < |m.count|
             && m.count[f] == 0
    ensures Core(m') && OnlyPage(m, m', a, v) && Look(m', a, v) == EntryInit(f) && (CowSafe(m) ==> CowSafe(m'))
    ensures Mappable(m, a, v, EntryInit(f))
  {
    FreshEntrySafe(m, a, v, f);
    RemapCore(m, m', a, v, EntryInit(f));
    RemapCowSafeIfSafe(m, m', a, v, EntryInit(f));
  }
}

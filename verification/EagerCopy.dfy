/** The memory a user program believes in: fork copies every private page at
    once, a shared page is one object however many processes map it. No frames,
    counts or write-protection tricks. Copy-on-write is proved to refine this. */
module EagerCopy {
  import opened Bits
  import opened Paging

  datatype Cell = Private(data: Page, writable: bool) | Shared(id: nat, writable: bool)

  datatype Process = Process(cells: map<nat, Cell>, brk: nat, end: nat, vmap: seq<bool>)

  datatype Eager = Eager(procs: map<nat, Process>, objects: map<nat, Page>)

  datatype Op =
    | Fork(task: nat, child: nat)
    | Load(task: nat, page: nat, offset: nat)
    | Store(task: nat, page: nat, offset: nat, byte: bv8)
    | Brk(task: nat, page: nat)
    | Mmap(task: nat, page: nat, count: nat, write: bool, shared: bool, privat: bool)
    | Munmap(task: nat, page: nat, count: nat)
    | Exit(task: nat)

  /** Halt(false) is a failed assertion or a panic the operation earned;
      Halt(true) is the panic of get_page when no frame is free. */
  datatype Result = Done | Loaded(byte: bv8) | NoMemory | Address(page: nat) | Halt(exhausted: bool)

  ghost predicate Refers(procs: map<nat, Process>, id: nat) {
    exists a: nat, v: nat :: a in procs && v in procs[a].cells && procs[a].cells[v].Shared?
      && procs[a].cells[v].id == id
  }

  /** Shared objects nobody maps any more are gone. */
  ghost function Collect(procs: map<nat, Process>, objects: map<nat, Page>): map<nat, Page> {
    map id: nat | id in objects && Refers(procs, id) :: objects[id]
  }

  function WithCells(e: Eager, a: nat, cells: map<nat, Cell>): map<nat, Process>
    requires a in e.procs
  {
    e.procs[a := e.procs[a].(cells := cells)]
  }

  ghost function PutCell(e: Eager, a: nat, v: nat, c: Cell, content: Page): Eager
    requires a in e.procs
  {
    var procs := WithCells(e, a, e.procs[a].cells[v := c]);
    var kept := Collect(procs, e.objects);
    Eager(procs, if c.Shared? then kept[c.id := content] else kept)
  }

  ghost function RemoveCell(e: Eager, a: nat, v: nat): Eager
    requires a in e.procs
  {
    var procs := WithCells(e, a, e.procs[a].cells - {v});
    Eager(procs, Collect(procs, e.objects))
  }

  function Content(e: Eager, c: Cell): Page {
    match c
    case Private(data, _) => data
    case Shared(id, _) => if id in e.objects then e.objects[id] else seq(PAGE_SIZE, _ => 0)
  }

  function Poke(p: Page, offset: nat, byte: bv8): Page {
    if offset < PAGE_SIZE then p[offset := byte] else p
  }

  function StoreCell(e: Eager, a: nat, v: nat, offset: nat, byte: bv8): Eager
    requires a in e.procs && v in e.procs[a].cells
  {
    match e.procs[a].cells[v]
    case Private(data, w) => e.(procs := WithCells(e, a, e.procs[a].cells[v := Private(Poke(data, offset, byte), w)]))
    case Shared(id, w) => if id in e.objects then e.(objects := e.objects[id := Poke(e.objects[id], offset, byte)])
      else e
  }

  /** The pages a fault may bring in: the stack and everything below the break. */
  predicate Growable(p: Process, v: nat) { v >= STACK_BOTTOM || v < p.brk }

  /** Where an mmap puts its pages: the address asked for, or the first run of free ones. */
  predicate MmapPlace(p: Process, page: nat, count: nat, at: nat) {
    if page != 0 then at == page
    else count > 0 && at >= MMAP_START && FirstFit(p.vmap, at - MMAP_START, count)
  }

  predicate FreshRange(p: Process, at: nat, count: nat) {
    forall v: nat | InRange(v, at, count) :: v !in p.cells
  }

  /** count new pages at `at`; nothing else of anyone's memory moves. */
  ghost predicate MmapPages(e: Eager, e': Eager, a: nat, at: nat, count: nat, write: bool, shared: bool)
    requires a in e.procs
  {
    && e'.procs.Keys == e.procs.Keys
    && (forall b | b in e.procs && b != a :: e'.procs[b] == e.procs[b])
    && e'.procs[a].brk == e.procs[a].brk && e'.procs[a].end == e.procs[a].end
    && (forall v | v in e.procs[a].cells && !InRange(v, at, count) ::
       v in e'.procs[a].cells && e'.procs[a].cells[v] == e.procs[a].cells[v])
    && (forall v | v in e'.procs[a].cells && !InRange(v, at, count) :: v in e.procs[a].cells)
    && (forall v: nat | InRange(v, at, count) ::
          v in e'.procs[a].cells && e'.procs[a].cells[v].writable == write && e'.procs[a].cells[v].Shared? == shared)
  }

  /** The shared objects of the range are new, one for each page, and the only new ones. */
  ghost predicate MmapObjects(e: Eager, e': Eager, cells: map<nat, Cell>, at: nat, count: nat) {
    && (forall o | o in e.objects :: o in e'.objects && e'.objects[o] == e.objects[o])
    && (forall v: nat | InRange(v, at, count) && IsShared(cells, v) ::
       cells[v].id !in e.objects && cells[v].id in e'.objects)
    && (forall v: nat, w: nat | InRange(v, at, count) && InRange(w, at, count) && IsShared(cells, v)
       && IsShared(cells, w) && v != w ::
          cells[v].id != cells[w].id)
    && (forall o | o in e'.objects && o !in e.objects :: exists v: nat ::
       InRange(v, at, count) && IsShared(cells, v) && cells[v].id == o)
  }

  predicate IsShared(cells: map<nat, Cell>, v: nat) { v in cells && cells[v].Shared? }

  ghost predicate MmapCells(e: Eager, e': Eager, a: nat, at: nat, count: nat, write: bool, shared: bool)
    requires a in e.procs
  {
    MmapPages(e, e', a, at, count, write, shared) && MmapObjects(e, e', e'.procs[a].cells, at, count)
  }

  ghost function Unmapped(e: Eager, a: nat, from: nat, to: nat): (r: Eager)
    requires a in e.procs
    ensures r.procs.Keys == e.procs.Keys
  {
    var procs := WithCells(e, a, map v | v in e.procs[a].cells && !(from <= v < to) :: e.procs[a].cells[v]);
    Eager(procs, Collect(procs, e.objects))
  }

  function WithVmap(e: Eager, a: nat, vmap: seq<bool>): Eager
    requires a in e.procs
  {
    e.(procs := e.procs[a := e.procs[a].(vmap := vmap)])
  }

  function WithBrk(e: Eager, a: nat, brk: nat): Eager
    requires a in e.procs
  {
    e.(procs := e.procs[a := e.procs[a].(brk := brk)])
  }

  /** PAGE: a page number shifted left by 12 in 32 bits. */
  function PageAddress(page: nat): nat { page * PAGE_SIZE % 0x1_0000_0000 }

  /** The arguments a system call or an instruction can be given. */
  ghost predicate Applicable(e: Eager, op: Op) {
    && op.task in e.procs
    && match op
       case Fork(_, child) => child !in e.procs
       case Load(_, v, offset) => UserPage(v) && offset < PAGE_SIZE
       case Store(_, v, offset, _) => UserPage(v) && offset < PAGE_SIZE
       case Brk(_, _) => true
       case Mmap(_, page, count, _, _, _) =>
         // the bitmap of mappings ends with the stack
         && (page != 0 ==> page + count <= STACK_TOP)
         // copy-on-write needs an mmap to map new pages only
         && forall at: nat | MmapPlace(e.procs[op.task], page, count, at) :: FreshRange(e.procs[op.task], at, count)
       case Munmap(_, _, _) => true
       case Exit(_) => true
  }

  /** The calls that end in a failed assertion, whatever memory there is. */
  ghost predicate Faults(e: Eager, op: Op)
    requires op.task in e.procs
  {
    var p := e.procs[op.task];
    match op
    case Fork(_, _) => |e.procs| >= TASK_NUMBER
    case Load(_, v, _) => v !in p.cells && !Growable(p, v)
    case Store(_, v, _, _) => if v in p.cells then !p.cells[v].writable else !Growable(p, v)
    case Brk(_, brk) => !(p.end <= brk <= MMAP_START)
    case Mmap(_, page, count, _, _, _) =>
      !exists at: nat :: MMAP_START <= at < STACK_BOTTOM && MmapPlace(p, page, count, at)
    case Munmap(_, page, count) =>
      // assert(PAGE(vaddr)) shifts what is an address already
      || !(MMAP_START <= page < STACK_BOTTOM) || PageAddress(PageAddress(page)) == 0
      || exists v: nat :: InRange(v, page, count) && (v - MMAP_START >= |p.vmap| || !p.vmap[v - MMAP_START])
    case Exit(_) => false
  }

  /** The address munmap asserts to be nonzero is zero on every multiple of 1 MB. */
  lemma ShiftedTwice(page: nat)
    requires page < 0x10_0000
    ensures PageAddress(PageAddress(page)) == 0 <==> page % 256 == 0
  {
    assert PageAddress(page) == page * PAGE_SIZE;
    assert page * PAGE_SIZE * PAGE_SIZE == (page / 256) * 0x1_0000_0000 + (page % 256) * 0x100_0000;
  }

  /** So the first mapping a process gets, at the address the kernel chooses, can never
      be given up by munmap. */
  lemma FirstMmapStays(e: Eager, later: Eager, a: nat, count: nat, at: nat, n: nat)
    requires a in e.procs && a in later.procs && count > 0
             && (forall i | 0 <= i < |e.procs[a].vmap| :: !e.procs[a].vmap[i])
    requires MmapPlace(e.procs[a], 0, count, at)
    ensures at == MMAP_START && Faults(later, Munmap(a, at, n))
  {
    ShiftedTwice(MMAP_START);
    assert ClearRun(e.procs[a].vmap, at - MMAP_START, count);
    assert ClearRun(e.procs[a].vmap, 0, count);
  }

  /** The eager machine may answer op with r and move from e to e'. */
  ghost predicate Step(e: Eager, op: Op, r: Result, e': Eager)
    requires op.task in e.procs
  {
    var p := e.procs[op.task];
    match op
    case Fork(a, child) => r == Done && e' == e.(procs := e.procs[child := p])
    case Load(a, v, offset) =>
      if v in p.cells then r == Loaded(Content(e, p.cells[v])[offset % PAGE_SIZE]) && e' == e
      else exists found: Page ::
        r == Loaded(found[offset % PAGE_SIZE]) && e' == PutCell(e, a, v, Private(found, true), found)
    case Store(a, v, offset, byte) =>
      && r == Done
      && if v in p.cells then e' == StoreCell(e, a, v, offset, byte)
         else exists found: Page :: e' == PutCell(e, a, v, Private(Poke(found, offset, byte), true), found)
    case Brk(a, brk) =>
      || (r == NoMemory && brk > p.brk && e' == e)
      || (r == Done && e' == WithBrk(if brk < p.brk then Unmapped(e, a, brk, p.brk) else e, a, brk))
    case Mmap(a, page, count, write, shared, _) =>
      && r.Address? && MmapPlace(p, page, count, r.page) && r.page >= MMAP_START
      && MmapCells(e, e', a, r.page, count, write, shared)
      && e'.procs[a].vmap == SetBits(p.vmap, r.page - MMAP_START, count, true)
    case Munmap(a, page, count) =>
      && r == Done && page >= MMAP_START
      && e' == WithVmap(Unmapped(e, a, page, page + count), a, SetBits(p.vmap, page - MMAP_START, count, false))
    case Exit(a) => r == Done && var procs := e.procs - {a}; e' == Eager(procs, Collect(procs, e.objects))
  }

  /** The operations that may need a frame: a load or store of a page already there does
      so only for the private copy a store makes. */
  predicate MayExhaust(e: Eager, op: Op)
    requires op.task in e.procs
  {
    var cells := e.procs[op.task].cells;
    match op
    case Load(_, v, _) => v !in cells
    case Store(_, v, _, _) => v !in cells || cells[v].Private?
    case _ => op.Fork? || op.Mmap?
  }

  /** One answered operation; a halt leaves the state alone and needs a reason. */
  ghost predicate Answers(e: Eager, op: Op, r: Result, e': Eager) {
    && Applicable(e, op)
    && (r == Halt(false) <==> Faults(e, op))
    && if r.Halt? then e' == e && (r == Halt(true) ==> MayExhaust(e, op)) else Step(e, op, r, e')
  }

  /** es are the states the eager machine goes through while it answers ops with rs. */
  ghost predicate Trace(es: seq<Eager>, ops: seq<Op>, rs: seq<Result>) {
    && |rs| <= |ops| && |es| == |rs| + 1
    && forall i | 0 <= i < |rs| :: Answers(es[i], ops[i], rs[i], es[i + 1])
  }

  // ----- ranges, one page at a time -----

  /** Every object is mapped by someone. */
  ghost predicate Live(e: Eager) { Collect(e.procs, e.objects) == e.objects }

  /** Every object mapped is there. */
  ghost predicate Whole(e: Eager) { forall id: nat | Refers(e.procs, id) :: id in e.objects }

  lemma UnmapNone(e: Eager, a: nat, from: nat)
    requires a in e.procs && Live(e)
    ensures Unmapped(e, a, from, from) == e
  {
    var cells := e.procs[a].cells;
    assert (map v | v in cells && !(from <= v < from) :: cells[v]) == cells;
    assert WithCells(e, a, cells) == e.procs;
  }

  lemma UnmapNext(e: Eager, a: nat, from: nat, k: nat)
    requires a in e.procs && from <= k
    ensures RemoveCell(Unmapped(e, a, from, k), a, k) == Unmapped(e, a, from, k + 1)
  {
    var cells := e.procs[a].cells;
    var some, fewer := Unmapped(e, a, from, k), Unmapped(e, a, from, k + 1);
    assert some.procs[a].cells - {k} == fewer.procs[a].cells;
    assert RemoveCell(some, a, k).procs == fewer.procs;
    forall id: nat | Refers(fewer.procs, id) ensures Refers(some.procs, id) {
      var b: nat, v: nat :| b in fewer.procs && v in fewer.procs[b].cells && fewer.procs[b].cells[v].Shared?
        && fewer.procs[b].cells[v].id == id;
      assert v in some.procs[b].cells && some.procs[b].cells[v] == fewer.procs[b].cells[v];
    }
  }

  lemma SameCellsRefer(p: map<nat, Process>, q: map<nat, Process>, id: nat)
    requires p.Keys == q.Keys && forall b | b in p :: p[b].cells == q[b].cells
    ensures Refers(p, id) <==> Refers(q, id)
  {
    if Refers(p, id) {
      var b: nat, v: nat :| b in p && v in p[b].cells && p[b].cells[v].Shared? && p[b].cells[v].id == id;
      assert v in q[b].cells;
    }
    if Refers(q, id) {
      var b: nat, v: nat :| b in q && v in q[b].cells && q[b].cells[v].Shared? && q[b].cells[v].id == id;
      assert v in p[b].cells;
    }
  }

  lemma RemoveWithVmap(e: Eager, a: nat, v: nat, vmap: seq<bool>)
    requires a in e.procs
    ensures RemoveCell(WithVmap(e, a, vmap), a, v) == WithVmap(RemoveCell(e, a, v), a, vmap)
  {
    var p, q := RemoveCell(WithVmap(e, a, vmap), a, v), RemoveCell(e, a, v);
    assert p.procs == WithVmap(q, a, vmap).procs;
    forall id: nat ensures Refers(p.procs, id) <==> Refers(q.procs, id) {
      SameCellsRefer(p.procs, q.procs, id);
    }
  }

  lemma MmapNone(e: Eager, a: nat, at: nat, write: bool, shared: bool, vmap: seq<bool>)
    requires a in e.procs
    ensures MmapCells(e, WithVmap(e, a, vmap), a, at, 0, write, shared)
  {}

  /** One more page mapped. */
  ghost predicate OneMore(e: Eager, e': Eager, a: nat, v: nat, c: Cell) {
    && a in e.procs && e'.procs.Keys == e.procs.Keys && v !in e.procs[a].cells
    && (forall b | b in e.procs && b != a :: e'.procs[b] == e.procs[b])
    && e'.procs[a] == e.procs[a].(cells := e.procs[a].cells[v := c], vmap := e'.procs[a].vmap)
    && if c.Shared? then c.id !in e.objects && c.id in e'.objects && e'.objects == e.objects[c.id := e'.objects[c.id]]
       else e'.objects == e.objects
  }

  lemma MmapNextNew(e0: Eager, e: Eager, e': Eager, a: nat, at: nat, count: nat, c: Cell)
    requires a in e.procs && MmapObjects(e0, e, e.procs[a].cells, at, count) && OneMore(e, e', a, at + count, c)
    ensures forall o | o in e0.objects :: o in e'.objects && e'.objects[o] == e0.objects[o]
    ensures forall v: nat | InRange(v, at, count + 1) && IsShared(e'.procs[a].cells, v) ::
              e'.procs[a].cells[v].id !in e0.objects && e'.procs[a].cells[v].id in e'.objects
  {
    forall v: nat | InRange(v, at, count + 1) && IsShared(e'.procs[a].cells, v)
      ensures e'.procs[a].cells[v].id !in e0.objects && e'.procs[a].cells[v].id in e'.objects
    {
      if v != at + count { assert InRange(v, at, count) && IsShared(e.procs[a].cells, v); }
    }
  }

  lemma MmapNextApart(e0: Eager, e: Eager, e': Eager, a: nat, at: nat, count: nat, c: Cell)
    requires a in e.procs && MmapObjects(e0, e, e.procs[a].cells, at, count) && OneMore(e, e', a, at + count, c)
    ensures var cells := e'.procs[a].cells;
            forall v: nat, w: nat | InRange(v, at, count + 1) && InRange(w, at, count + 1) && IsShared(cells, v)
              && IsShared(cells, w) && v != w ::
              cells[v].id != cells[w].id
  {
    var cells, cells' := e.procs[a].cells, e'.procs[a].cells;
    forall v: nat, w: nat | InRange(v, at, count + 1) && InRange(w, at, count + 1) && IsShared(cells', v)
      && IsShared(cells', w) && v != w
      ensures cells'[v].id != cells'[w].id
    {
      if v != at + count { assert InRange(v, at, count) && IsShared(cells, v); }
      if w != at + count { assert InRange(w, at, count) && IsShared(cells, w); }
    }
  }

  lemma MmapNextObjects(e0: Eager, e: Eager, e': Eager, a: nat, at: nat, count: nat, c: Cell)
    requires a in e.procs && MmapObjects(e0, e, e.procs[a].cells, at, count) && OneMore(e, e', a, at + count, c)
    ensures MmapObjects(e0, e', e'.procs[a].cells, at, count + 1)
  {
    MmapNextNew(e0, e, e', a, at, count, c);
    MmapNextApart(e0, e, e', a, at, count, c);
    var cells, cells' := e.procs[a].cells, e'.procs[a].cells;
    forall o | o in e'.objects && o !in e0.objects
      ensures exists v: nat :: InRange(v, at, count + 1) && IsShared(cells', v) && cells'[v].id == o
    {
      if o in e.objects {
        var v: nat :| InRange(v, at, count) && IsShared(cells, v) && cells[v].id == o;
        assert InRange(v, at, count + 1) && IsShared(cells', v);
      } else {
        assert InRange(at + count, at, count + 1) && IsShared(cells', at + count);
      }
    }
  }

  lemma MmapNext(e0: Eager, e: Eager, e': Eager, a: nat, at: nat, count: nat, write: bool, shared: bool, c: Cell)
    requires a in e0.procs && MmapCells(e0, e, a, at, count, write, shared)
    requires OneMore(e, e', a, at + count, c) && c.writable == write && c.Shared? == shared
    ensures MmapCells(e0, e', a, at, count + 1, write, shared)
  {
    MmapNextObjects(e0, e, e', a, at, count, c);
  }

  lemma PutKeeps(e: Eager, a: nat, v: nat, c: Cell, content: Page)
    requires a in e.procs && Live(e) && (v in e.procs[a].cells ==> e.procs[a].cells[v].Private?)
    ensures PutCell(e, a, v, c, content).objects == if c.Shared? then e.objects[c.id := content] else e.objects
  {
    var procs := WithCells(e, a, e.procs[a].cells[v := c]);
    forall id: nat | id in e.objects ensures Refers(procs, id) {
      assert id in Collect(e.procs, e.objects);
      var b: nat, x: nat :| b in e.procs && x in e.procs[b].cells && e.procs[b].cells[x].Shared?
        && e.procs[b].cells[x].id == id;
      assert x in procs[b].cells && procs[b].cells[x] == e.procs[b].cells[x];
    }
  }

  /** link_page, the bitmap and the flags together put one cell. */
  lemma PutTwice(e0: Eager, e1: Eager, e2: Eager, e3: Eager, a: nat, v: nat, vmap: seq<bool>, c: Cell, content: Page)
    requires a in e0.procs && v !in e0.procs[a].cells && Live(e0)
    requires e1 == PutCell(e0, a, v, Private(content, true), content) && Live(e1)
    requires e2 == WithVmap(e1, a, vmap) && e3 == PutCell(e2, a, v, c, content)
    requires c.Shared? ==> c.id !in e0.objects
    ensures OneMore(e0, e3, a, v, c) && e3.procs[a].vmap == vmap
  {
    PutKeeps(e0, a, v, Private(content, true), content);
    assert Live(e2) by {
      forall id: nat ensures Refers(e1.procs, id) <==> Refers(e2.procs, id) { SameCellsRefer(e1.procs, e2.procs, id); }
    }
    PutKeeps(e2, a, v, c, content);
    assert e0.procs[a].cells[v := Private(content, true)][v := c] == e0.procs[a].cells[v := c];
  }

  lemma StoreAfterPut(e: Eager, a: nat, v: nat, found: Page, offset: nat, byte: bv8)
    requires a in e.procs && v !in e.procs[a].cells && Live(e)
    ensures StoreCell(PutCell(e, a, v, Private(found, true), found), a, v, offset, byte)
            == PutCell(e, a, v, Private(Poke(found, offset, byte), true), found)
  {
    PutKeeps(e, a, v, Private(found, true), found);
    PutKeeps(e, a, v, Private(Poke(found, offset, byte), true), found);
    var cells: map<nat, Cell> := e.procs[a].cells;
    var put: map<nat, Cell> := cells[v := Private(found, true)];
    assert put[v := Private(Poke(found, offset, byte), true)] == cells[v := Private(Poke(found, offset, byte), true)];
  }

  lemma OnlyPlace(p: Process, page: nat, count: nat, at: nat)
    requires MmapPlace(p, page, count, at)
    ensures forall x: nat | MmapPlace(p, page, count, x) :: x == at
  {
    forall x: nat | MmapPlace(p, page, count, x) ensures x == at {
      if page == 0 { FirstFitUnique(p.vmap, x - MMAP_START, at - MMAP_START, count); }
    }
  }

  lemma SimpleFaults(e: Eager, op: Op)
    requires op.task in e.procs
    ensures op.Fork? ==> (Faults(e, op) <==> |e.procs| >= TASK_NUMBER)
    ensures op.Brk? ==> (Faults(e, op) <==> !(e.procs[op.task].end <= op.page <= MMAP_START))
    ensures op.Exit? ==> !Faults(e, op)
  {}

  lemma MunmapStep(e: Eager, a: nat, page: nat, count: nat)
    requires a in e.procs && MMAP_START <= page
    ensures Step(e, Munmap(a, page, count), Done,
                 WithVmap(Unmapped(e, a, page, page + count), a,
                          SetBits(e.procs[a].vmap, page - MMAP_START, count, false)))
  {}

  lemma ForkStep(e: Eager, a: nat, child: nat)
    requires a in e.procs
    ensures Step(e, Fork(a, child), Done, e.(procs := e.procs[child := e.procs[a]]))
    ensures child !in e.procs ==> |e.procs[child := e.procs[a]]| == |e.procs| + 1
  {}

  lemma ExitStep(e: Eager, a: nat)
    requires a in e.procs
    ensures var procs := e.procs - {a};
            |procs| < |e.procs| && Step(e, Exit(a), Done, Eager(procs, Collect(procs, e.objects)))
  {
    assert (e.procs - {a}).Keys == e.procs.Keys - {a};
  }

  lemma Answered(e: Eager, op: Op, r: Result, e': Eager)
    requires Applicable(e, op) && (r == Halt(false) <==> Faults(e, op)) && (r == Halt(true) ==> MayExhaust(e, op))
    requires if r.Halt? then e' == e else Step(e, op, r, e')
    ensures Answers(e, op, r, e')
  {}
}

/** What the answers of the memory a program believes in mean for one another: a load gives
    the last byte stored, wherever the page came from and whoever shares it. The laws speak of
    operations and their answers, not of how the state keeps a page. */
module EagerLaws {
  import opened Bits
  import opened EagerCopy
  import opened Paging

  predicate PageThere(e: Eager, a: nat, v: nat) { a in e.procs && v in e.procs[a].cells }

  /** Page w of t and page v of a are one and the same memory. */
  predicate SamePage(e: Eager, t: nat, w: nat, a: nat, v: nat) {
    && PageThere(e, t, w) && PageThere(e, a, v)
    && ((t == a && w == v)
        || (IsShared(e.procs[t].cells, w) && IsShared(e.procs[a].cells, v)
            && e.procs[t].cells[w].id == e.procs[a].cells[v].id))
  }

  /** op stores to byte o of page v of a under one of its names, or gives the page up. */
  predicate Disturbs(e: Eager, op: Op, a: nat, v: nat, o: nat) {
    match op
    case Store(t, w, p, _) => p == o && SamePage(e, t, w, a, v)
    case Brk(t, brk) => t == a && a in e.procs && brk <= v < e.procs[a].brk
    case Munmap(t, page, count) => t == a && InRange(v, page, count)
    case Exit(t) => t == a
    case _ => false
  }

  // ----- what a step keeps -----

  /** A load of byte o of page v by a gives x. */
  ghost predicate Reads(e: Eager, a: nat, v: nat, o: nat, x: bv8) {
    PageThere(e, a, v) && o < PAGE_SIZE && Content(e, e.procs[a].cells[v])[o] == x
  }

  lemma LoadReads(e: Eager, a: nat, v: nat, o: nat, r: Result, e': Eager)
    requires Answers(e, Load(a, v, o), r, e') && PageThere(e, a, v)
    ensures e' == e && r.Loaded? && Reads(e, a, v, o, r.byte)
  {}

  /** Dropping the objects nobody maps any more changes no page that is kept. */
  lemma CollectReads(e: Eager, procs: map<nat, Process>, a: nat, v: nat, o: nat, x: bv8)
    requires Reads(e, a, v, o, x) && a in procs && v in procs[a].cells && procs[a].cells[v] == e.procs[a].cells[v]
    ensures Reads(Eager(procs, Collect(procs, e.objects)), a, v, o, x)
  {
    if procs[a].cells[v].Shared? { assert Refers(procs, procs[a].cells[v].id); }
  }

  lemma CollectWhole(e: Eager, procs: map<nat, Process>)
    requires Whole(e) && forall id: nat | Refers(procs, id) :: Refers(e.procs, id)
    ensures Whole(Eager(procs, Collect(procs, e.objects)))
  {}

  lemma PutReads(e: Eager, a: nat, v: nat, c: Cell, content: Page, b: nat, w: nat, o: nat, x: bv8)
    requires a in e.procs && c.Private? && Reads(e, b, w, o, x) && (b != a || w != v)
    ensures Reads(PutCell(e, a, v, c, content), b, w, o, x)
  {
    CollectReads(e, WithCells(e, a, e.procs[a].cells[v := c]), b, w, o, x);
  }

  lemma PutWhole(e: Eager, a: nat, v: nat, c: Cell, content: Page)
    requires a in e.procs && c.Private? && Whole(e)
    ensures Whole(PutCell(e, a, v, c, content))
  {
    CollectWhole(e, WithCells(e, a, e.procs[a].cells[v := c]));
  }

  lemma StoreReads(e: Eager, t: nat, w: nat, p: nat, byte: bv8, a: nat, v: nat, o: nat, x: bv8)
    requires PageThere(e, t, w) && Reads(e, a, v, o, x) && !Disturbs(e, Store(t, w, p, byte), a, v, o)
    ensures Reads(StoreCell(e, t, w, p, byte), a, v, o, x)
  {
    StoreContent(e, t, w, p, byte, a, v);
    hide StoreCell, SamePage;
  }

  /** A store changes one byte of the page it goes to, and no other page. */
  lemma StoreContent(e: Eager, t: nat, w: nat, p: nat, byte: bv8, a: nat, v: nat)
    requires PageThere(e, t, w) && PageThere(e, a, v)
    ensures var e' := StoreCell(e, t, w, p, byte);
            && PageThere(e', a, v)
            && Content(e', e'.procs[a].cells[v])
               == if SamePage(e, t, w, a, v) && (IsShared(e.procs[t].cells, w) ==> e.procs[t].cells[w].id in e.objects)
                  then Poke(Content(e, e.procs[a].cells[v]), p, byte) else Content(e, e.procs[a].cells[v])
  {
    hide Poke;
  }

  lemma StoreWhole(e: Eager, t: nat, w: nat, p: nat, byte: bv8)
    requires PageThere(e, t, w) && Whole(e)
    ensures Whole(StoreCell(e, t, w, p, byte))
  {
    var e' := StoreCell(e, t, w, p, byte);
    forall id: nat | Refers(e'.procs, id) ensures Refers(e.procs, id) {}
  }

  lemma UnmappedReads(e: Eager, t: nat, from: nat, to: nat, a: nat, v: nat, o: nat, x: bv8)
    requires t in e.procs && Reads(e, a, v, o, x) && !(t == a && from <= v < to)
    ensures Reads(Unmapped(e, t, from, to), a, v, o, x)
  {
    CollectReads(e, Unmapped(e, t, from, to).procs, a, v, o, x);
  }

  lemma UnmappedWhole(e: Eager, t: nat, from: nat, to: nat)
    requires t in e.procs && Whole(e)
    ensures Whole(Unmapped(e, t, from, to))
  {
    CollectWhole(e, Unmapped(e, t, from, to).procs);
  }

  lemma SameReads(e: Eager, e': Eager, a: nat, v: nat, o: nat, x: bv8)
    requires Reads(e, a, v, o, x) && a in e'.procs && v in e'.procs[a].cells
    requires e'.procs[a].cells[v] == e.procs[a].cells[v]
    requires forall id: nat | id in e.objects :: id in e'.objects && e'.objects[id] == e.objects[id]
    requires Whole(e)
    ensures Reads(e', a, v, o, x)
  {
    if e.procs[a].cells[v].Shared? { assert Refers(e.procs, e.procs[a].cells[v].id); }
  }

  lemma MmapKeeps(e: Eager, e': Eager, t: nat, at: nat, count: nat, write: bool, shared: bool, a: nat, v: nat, o: nat,
          x: bv8)
    requires t in e.procs && MmapCells(e, e', t, at, count, write, shared) && FreshRange(e.procs[t], at, count)
    requires Whole(e) && Reads(e, a, v, o, x)
    ensures Reads(e', a, v, o, x)
  {
    hide Reads;
    assert PageThere(e, a, v) by { ReadsThere(e, a, v, o, x); }
    SameReads(e, e', a, v, o, x);
  }

  lemma ReadsThere(e: Eager, a: nat, v: nat, o: nat, x: bv8)
    requires Reads(e, a, v, o, x)
    ensures PageThere(e, a, v)
  {}

  lemma MmapWhole(e: Eager, e': Eager, t: nat, at: nat, count: nat, write: bool, shared: bool)
    requires t in e.procs && MmapCells(e, e', t, at, count, write, shared) && Whole(e)
    ensures Whole(e')
  {
    forall id: nat | Refers(e'.procs, id) ensures id in e'.objects {
      var b: nat, w: nat :| b in e'.procs && w in e'.procs[b].cells && e'.procs[b].cells[w].Shared?
        && e'.procs[b].cells[w].id == id;
      if b == t && InRange(w, at, count) {
        assert IsShared(e'.procs[t].cells, w);
      } else {
        assert e'.procs[b].cells[w] == e.procs[b].cells[w];
        assert Refers(e.procs, id);
      }
    }
  }

  /** Byte o of a page that is there stays what it is under every operation that neither
      stores to it nor gives the page up. */
  lemma StepReads(e: Eager, op: Op, r: Result, e': Eager, a: nat, v: nat, o: nat, x: bv8)
    requires Answers(e, op, r, e') && Whole(e) && Reads(e, a, v, o, x) && !Disturbs(e, op, a, v, o)
    ensures Reads(e', a, v, o, x)
  {
    if !r.Halt? {
      ReadsThere(e, a, v, o, x);
      hide Reads, PutCell, StoreCell, Unmapped, Content, MmapCells, Whole, SamePage;
      match op
      case Fork(t, child) => ForkReads(e, t, child, a, v, o, x);
      case Load(t, w, p) => AccessReads(e, op, r, e', a, v, o, x);
      case Store(t, w, p, byte) => AccessReads(e, op, r, e', a, v, o, x);
      case Brk(t, brk) => GiveUpReads(e, op, r, e', a, v, o, x);
      case Munmap(t, page, count) => GiveUpReads(e, op, r, e', a, v, o, x);
      case Mmap(t, page, count, write, shared, privat) =>
        MmapKeeps(e, e', t, r.page, count, write, shared, a, v, o, x);
      case Exit(t) => CollectReads(e, e.procs - {t}, a, v, o, x);
    }
  }

  lemma AccessReads(e: Eager, op: Op, r: Result, e': Eager, a: nat, v: nat, o: nat, x: bv8)
    requires op.task in e.procs && (op.Load? || op.Store?) && Step(e, op, r, e')
    requires Reads(e, a, v, o, x) && !Disturbs(e, op, a, v, o)
    ensures Reads(e', a, v, o, x)
  {
    ReadsThere(e, a, v, o, x);
    hide Reads, PutCell, StoreCell, Content, SamePage, Poke;
    match op
    case Load(t, w, p) =>
      if !PageThere(e, t, w) {
        var found: Page :| r == Loaded(found[p % PAGE_SIZE]) && e' == PutCell(e, t, w, Private(found, true), found);
        PutReads(e, t, w, Private(found, true), found, a, v, o, x);
      }
    case Store(t, w, p, byte) =>
      if PageThere(e, t, w) {
        StoreReads(e, t, w, p, byte, a, v, o, x);
      } else {
        var found: Page :| e' == PutCell(e, t, w, Private(Poke(found, p, byte), true), found);
        PutReads(e, t, w, Private(Poke(found, p, byte), true), found, a, v, o, x);
      }
  }

  lemma GiveUpReads(e: Eager, op: Op, r: Result, e': Eager, a: nat, v: nat, o: nat, x: bv8)
    requires op.task in e.procs && (op.Brk? || op.Munmap?) && Step(e, op, r, e')
    requires Reads(e, a, v, o, x) && !Disturbs(e, op, a, v, o)
    ensures Reads(e', a, v, o, x)
  {
    hide Reads, Unmapped, WithBrk, WithVmap;
    match op
    case Brk(t, brk) =>
      if r == Done {
        if brk < e.procs[t].brk { UnmappedReads(e, t, brk, e.procs[t].brk, a, v, o, x); }
        BookReads(if brk < e.procs[t].brk then Unmapped(e, t, brk, e.procs[t].brk) else e, t, brk, [], a, v, o, x);
      }
    case Munmap(t, page, count) =>
      UnmappedReads(e, t, page, page + count, a, v, o, x);
      BookReads(Unmapped(e, t, page, page + count), t, 0,
                SetBits(e.procs[t].vmap, page - MMAP_START, count, false), a, v, o, x);
  }

  /** The break and the bitmap say nothing about the pages. */
  lemma BookReads(e: Eager, t: nat, brk: nat, vmap: seq<bool>, a: nat, v: nat, o: nat, x: bv8)
    requires t in e.procs && Reads(e, a, v, o, x)
    ensures Reads(WithBrk(e, t, brk), a, v, o, x) && Reads(WithVmap(e, t, vmap), a, v, o, x)
  {}

  lemma BookWhole(e: Eager, t: nat, brk: nat, vmap: seq<bool>)
    requires t in e.procs && Whole(e)
    ensures Whole(WithBrk(e, t, brk)) && Whole(WithVmap(e, t, vmap))
  {
    forall id: nat ensures Refers(WithBrk(e, t, brk).procs, id) <==> Refers(e.procs, id) {
      SameCellsRefer(WithBrk(e, t, brk).procs, e.procs, id);
    }
    forall id: nat ensures Refers(WithVmap(e, t, vmap).procs, id) <==> Refers(e.procs, id) {
      SameCellsRefer(WithVmap(e, t, vmap).procs, e.procs, id);
    }
  }

  lemma ForkReads(e: Eager, t: nat, child: nat, a: nat, v: nat, o: nat, x: bv8)
    requires t in e.procs && child !in e.procs && Reads(e, a, v, o, x)
    ensures var e' := e.(procs := e.procs[child := e.procs[t]]);
            Reads(e', a, v, o, x) && (a == t ==> Reads(e', child, v, o, x))
  {}

  lemma ForkWhole(e: Eager, t: nat, child: nat)
    requires t in e.procs && Whole(e)
    ensures Whole(e.(procs := e.procs[child := e.procs[t]]))
  {
    var procs := e.procs[child := e.procs[t]];
    forall id: nat | Refers(procs, id) ensures Refers(e.procs, id) {
      var b: nat, w: nat :| b in procs && w in procs[b].cells && procs[b].cells[w].Shared?
        && procs[b].cells[w].id == id;
      assert w in e.procs[if b == child then t else b].cells;
    }
  }

  lemma StepWhole(e: Eager, op: Op, r: Result, e': Eager)
    requires Answers(e, op, r, e') && Whole(e)
    ensures Whole(e')
  {
    if !r.Halt? {
      hide Whole, PutCell, StoreCell, Unmapped, Content, MmapCells;
      match op
      case Fork(t, child) => ForkWhole(e, t, child);
      case Load(t, w, p) =>
        if !PageThere(e, t, w) {
          var found: Page :| r == Loaded(found[p % PAGE_SIZE]) && e' == PutCell(e, t, w, Private(found, true), found);
          PutWhole(e, t, w, Private(found, true), found);
        }
      case Store(t, w, p, byte) =>
        if PageThere(e, t, w) {
          StoreWhole(e, t, w, p, byte);
        } else {
          var found: Page :| e' == PutCell(e, t, w, Private(Poke(found, p, byte), true), found);
          PutWhole(e, t, w, Private(Poke(found, p, byte), true), found);
        }
      case Brk(t, brk) =>
        if r == Done {
          if brk < e.procs[t].brk { UnmappedWhole(e, t, brk, e.procs[t].brk); }
          BookWhole(if brk < e.procs[t].brk then Unmapped(e, t, brk, e.procs[t].brk) else e, t, brk, []);
        }
      case Mmap(t, page, count, write, shared, privat) => MmapWhole(e, e', t, r.page, count, write, shared);
      case Munmap(t, page, count) =>
        UnmappedWhole(e, t, page, page + count);
        BookWhole(Unmapped(e, t, page, page + count), t, 0,
                  SetBits(e.procs[t].vmap, page - MMAP_START, count, false));
      case Exit(t) => ExitWhole(e, t);
    }
  }

  lemma ExitWhole(e: Eager, t: nat)
    requires Whole(e)
    ensures Whole(Eager(e.procs - {t}, Collect(e.procs - {t}, e.objects)))
  {
    CollectWhole(e, e.procs - {t});
  }

  // ----- laws between answers -----

  /** A load answers the byte stored just before, under whichever name of the page. */
  lemma StoreLoad(e: Eager, t: nat, w: nat, o: nat, byte: bv8, e1: Eager, a: nat, v: nat, r: Result, e2: Eager)
    requires Whole(e) && Answers(e, Store(t, w, o, byte), Done, e1) && Answers(e1, Load(a, v, o), r, e2)
    requires SamePage(e1, t, w, a, v)
    ensures r == Loaded(byte)
  {
    StoredReads(e, t, w, o, byte, e1, a, v);
    LoadReads(e1, a, v, o, r, e2);
  }

  lemma StoredReads(e: Eager, t: nat, w: nat, o: nat, byte: bv8, e1: Eager, a: nat, v: nat)
    requires Whole(e) && Answers(e, Store(t, w, o, byte), Done, e1) && SamePage(e1, t, w, a, v)
    ensures Reads(e1, a, v, o, byte)
  {
    if PageThere(e, t, w) {
      assert e1 == StoreCell(e, t, w, o, byte);
      StoreNames(e, t, w, o, byte, a, v);
      if IsShared(e.procs[t].cells, w) { assert Refers(e.procs, e.procs[t].cells[w].id); }
      StoreContent(e, t, w, o, byte, a, v);
    } else {
      var found: Page :| e1 == PutCell(e, t, w, Private(Poke(found, o, byte), true), found);
    }
  }

  lemma StoreNames(e: Eager, t: nat, w: nat, o: nat, byte: bv8, a: nat, v: nat)
    requires PageThere(e, t, w)
    ensures SamePage(StoreCell(e, t, w, o, byte), t, w, a, v) <==> SamePage(e, t, w, a, v)
  {}

  /** Whatever is done in between, if it does not store to the byte or give the page up, a
      load answers as it did before: another page, another process's page not shared with
      this one, a fork, a second load. */
  lemma LoadKept(e: Eager, op: Op, q: Result, e1: Eager, a: nat, v: nat, o: nat, r: Result, s: Result, f: Eager,
          g: Eager)
    requires Whole(e) && PageThere(e, a, v) && Answers(e, op, q, e1) && !Disturbs(e, op, a, v, o)
    requires Answers(e, Load(a, v, o), r, f) && Answers(e1, Load(a, v, o), s, g)
    ensures s == r && f == e && g == e1
  {
    LoadReads(e, a, v, o, r, f);
    StepReads(e, op, q, e1, a, v, o, r.byte);
    ReadsThere(e1, a, v, o, r.byte);
    LoadReads(e1, a, v, o, s, g);
    hide Answers;
  }

  /** A child's first load answers as its parent's before the fork. */
  lemma ForkLoad(e: Eager, a: nat, child: nat, e1: Eager, v: nat, o: nat, r: Result, s: Result, f: Eager, g: Eager)
    requires PageThere(e, a, v) && Answers(e, Fork(a, child), Done, e1)
    requires Answers(e, Load(a, v, o), r, f) && Answers(e1, Load(child, v, o), s, g)
    ensures s == r && g == e1
  {
    LoadReads(e, a, v, o, r, f);
    ForkReads(e, a, child, a, v, o, r.byte);
    ReadsThere(e1, child, v, o, r.byte);
    LoadReads(e1, child, v, o, s, g);
    hide Answers;
  }

  // ----- who shares what -----

  /** Whose memory x has after op is made of: a new child's is its parent's. */
  function Origin(op: Op, x: nat): nat { if op.Fork? && op.child == x then op.task else x }

  /** Two pages are one and the same exactly if they were before, or come from one shared
      page by a fork: no other operation makes two pages one, or one page two. */
  lemma Sharing(e: Eager, op: Op, r: Result, e': Eager, t: nat, w: nat, a: nat, v: nat)
    requires Whole(e) && Answers(e, op, r, e') && !r.Halt? && (t != a || w != v)
    requires PageThere(e', t, w) && PageThere(e', a, v)
    ensures SamePage(e', t, w, a, v) <==>
            SamePage(e, Origin(op, t), w, Origin(op, a), v)
            && (Origin(op, t) == Origin(op, a) && w == v ==> IsShared(e.procs[Origin(op, a)].cells, v))
  {
    if op.Mmap? {
      MmapSharing(e, op, r, e', t, w, a, v);
    } else {
      CellsKept(e, op, r, e', t, w);
      CellsKept(e, op, r, e', a, v);
      hide Answers;
    }
  }

  /** A page that is there is the one that was, or a private one brought in just now. */
  lemma CellsKept(e: Eager, op: Op, r: Result, e': Eager, a: nat, v: nat)
    requires Answers(e, op, r, e') && !r.Halt? && !op.Mmap? && PageThere(e', a, v)
    ensures if PageThere(e, Origin(op, a), v)
            then var c, c' := e.procs[Origin(op, a)].cells[v], e'.procs[a].cells[v];
                 c.Shared? == c'.Shared? && (c.Shared? ==> c'.id == c.id)
            else e'.procs[a].cells[v].Private?
    ensures op.Fork? ==> op.child !in e.procs
    ensures PageThere(e, Origin(op, a), v) || !op.Fork?
  {
    hide Faults, Poke, Content, Collect, SetBits;
  }

  lemma MmapSharing(e: Eager, op: Op, r: Result, e': Eager, t: nat, w: nat, a: nat, v: nat)
    requires Whole(e) && Answers(e, op, r, e') && !r.Halt? && op.Mmap? && (t != a || w != v)
    requires PageThere(e', t, w) && PageThere(e', a, v)
    ensures SamePage(e', t, w, a, v) <==> SamePage(e, t, w, a, v)
  {
  }

  // ----- mappings and the break -----

  /** What was given up below the stack and above the break faults, and a task that has
      exited does nothing any more. */
  lemma GivenUp(e: Eager, op: Op, e1: Eager, v: nat, o: nat, r: Result, e2: Eager)
    requires Answers(e, op, Done, e1) && Answers(e1, Load(op.task, v, o), r, e2)
    requires (op.Brk? && op.page <= v < e.procs[op.task].brk)
             || (op.Munmap? && InRange(v, op.page, op.count) && v >= e.procs[op.task].brk)
    requires v < STACK_BOTTOM
    ensures r == Halt(false)
  {
    hide Content, SetBits, Collect;
  }

  lemma Gone(e: Eager, a: nat, e1: Eager, op: Op, r: Result, e2: Eager)
    requires Answers(e, Exit(a), Done, e1) && Answers(e1, op, r, e2)
    ensures op.task != a
  {}

  /** Below the new break every load is answered, and a store fails only on a page that was
      there and may not be written. */
  lemma BreakMoved(e: Eager, a: nat, brk: nat, e1: Eager, v: nat, o: nat, byte: bv8, r: Result, e2: Eager)
    requires Answers(e, Brk(a, brk), Done, e1) && v < brk
    ensures Answers(e1, Load(a, v, o), r, e2) ==> r != Halt(false)
    ensures Answers(e1, Store(a, v, o, byte), r, e2) && !PageThere(e, a, v) ==> r != Halt(false)
  {
    hide Content, Collect;
  }

  /** Every page of a new mapping can be read, and written exactly if the mapping says so; it
      was nobody's page before, and is shared with nobody yet. */
  lemma MmapGives(e: Eager, op: Op, at: nat, e1: Eager, v: nat, o: nat, byte: bv8, r: Result, e2: Eager)
    requires Whole(e) && op.Mmap? && Answers(e, op, Address(at), e1) && InRange(v, at, op.count)
    ensures op.page != 0 ==> at == op.page
    ensures !PageThere(e, op.task, v)
    ensures Answers(e1, Load(op.task, v, o), r, e2) ==> r.Loaded?
    ensures Answers(e1, Store(op.task, v, o, byte), r, e2) ==> (r == Halt(false) <==> !op.write)
    ensures forall t: nat, w: nat | PageThere(e1, t, w) && (t != op.task || w != v) ::
              !SamePage(e1, t, w, op.task, v)
    ensures IsShared(e1.procs[op.task].cells, v) == op.shared
  {
    MmapThere(e, op, at, e1, v);
    forall t: nat, w: nat | PageThere(e1, t, w) && (t != op.task || w != v) ensures !SamePage(e1, t, w, op.task, v) {
      MmapSharing(e, op, Address(at), e1, t, w, op.task, v);
    }
    hide MmapPlace, Content, SetBits, FirstFit;
  }

  lemma MmapThere(e: Eager, op: Op, at: nat, e1: Eager, v: nat)
    requires op.Mmap? && Answers(e, op, Address(at), e1) && InRange(v, at, op.count)
    ensures !PageThere(e, op.task, v) && PageThere(e1, op.task, v)
    ensures e1.procs[op.task].cells[v].writable == op.write && e1.procs[op.task].cells[v].Shared? == op.shared
    ensures op.page != 0 ==> at == op.page
  {
    hide Content, SetBits, FirstFit;
  }

  /** The place the kernel chooses for a mapping keeps clear of the one made before. */
  lemma MmapApart(e: Eager, op: Op, at: nat, e1: Eager, n: nat, to: nat, v: nat)
    requires op.Mmap? && Answers(e, op, Address(at), e1) && InRange(v, at, op.count)
    requires MmapPlace(e1.procs[op.task], 0, n, to)
    ensures !InRange(v, to, n)
  {
    assert e1.procs[op.task].vmap == SetBits(e.procs[op.task].vmap, at - MMAP_START, op.count, true);
    var bits := e1.procs[op.task].vmap;
    assert at >= MMAP_START && to >= MMAP_START && ClearRun(bits, to - MMAP_START, n);
    hide Answers, MmapPlace, FirstFit;
    assert v - MMAP_START < |bits| ==> bits[v - MMAP_START];
  }

  /** The only operations that do not apply, before which a run stops: those of no task, a
      fork to a task that is there, an access outside the user's pages, and an mmap behind
      the stack or, at its address or the one the kernel chooses, over a page already there. */
  lemma StopsOnlyAt(e: Eager, op: Op)
    requires op.task in e.procs
    ensures op.Fork? ==> (Applicable(e, op) <==> op.child !in e.procs)
    ensures op.Load? || op.Store? ==>
              (Applicable(e, op) <==> KERNEL_PAGES <= op.page < USER_END && op.offset < PAGE_SIZE)
    ensures op.Mmap? && op.page != 0 ==>
              (Applicable(e, op) <==> op.page + op.count <= STACK_TOP
                                      && forall v: nat | InRange(v, op.page, op.count) :: !PageThere(e, op.task, v))
    ensures op.Mmap? && op.page == 0 && Applicable(e, op) ==>
              forall at: nat, v: nat | MmapPlace(e.procs[op.task], 0, op.count, at) && InRange(v, at, op.count) ::
                !PageThere(e, op.task, v)
    ensures op.Mmap? && op.page == 0 && !Applicable(e, op) ==>
              exists at: nat, v: nat :: MmapPlace(e.procs[op.task], 0, op.count, at) && InRange(v, at, op.count)
                && PageThere(e, op.task, v)
    ensures op.Brk? || op.Munmap? || op.Exit? ==> Applicable(e, op)
  {
    if op.Mmap? && op.page != 0 {
      assert MmapPlace(e.procs[op.task], op.page, op.count, op.page);
      assert FreshRange(e.procs[op.task], op.page, op.count) <==>
             forall v: nat | InRange(v, op.page, op.count) :: !PageThere(e, op.task, v);
    }
    if op.Mmap? && op.page == 0 && !Applicable(e, op) {
      var at: nat :| MmapPlace(e.procs[op.task], 0, op.count, at) && !FreshRange(e.procs[op.task], at, op.count);
      var v: nat :| InRange(v, at, op.count) && v in e.procs[op.task].cells;
      assert PageThere(e, op.task, v);
    }
    hide FirstFit;
  }

  // ----- over a run -----

  lemma {:induction false} TraceWhole(es: seq<Eager>, ops: seq<Op>, rs: seq<Result>, i: nat)
    requires Trace(es, ops, rs) && Whole(es[0]) && i <= |rs|
    ensures Whole(es[i])
  {
    hide Whole, Answers;
    if i > 0 {
      TraceWhole(es, ops, rs, i - 1);
      StepWhole(es[i - 1], ops[i - 1], rs[i - 1], es[i]);
    }
  }

  /** None of the operations from i to j - 1 stores to the byte or gives its page up. */
  ghost predicate Undisturbed(es: seq<Eager>, ops: seq<Op>, i: nat, j: nat, a: nat, v: nat, o: nat)
    requires j <= |ops| && j < |es|
  {
    forall m | i <= m < j :: !Disturbs(es[m], ops[m], a, v, o)
  }

  lemma {:induction false} KeptOver(es: seq<Eager>, ops: seq<Op>, rs: seq<Result>, i: nat, j: nat, a: nat, v: nat,
          o: nat, x: bv8)
    requires Trace(es, ops, rs) && Whole(es[0]) && i <= j <= |rs| && Reads(es[i], a, v, o, x)
    requires Undisturbed(es, ops, i, j, a, v, o)
    ensures Reads(es[j], a, v, o, x)
    decreases j
  {
    hide Whole, Answers, Reads, Disturbs;
    if i < j {
      KeptOver(es, ops, rs, i, j - 1, a, v, o, x);
      TraceWhole(es, ops, rs, j - 1);
      StepReads(es[j - 1], ops[j - 1], rs[j - 1], es[j], a, v, o, x);
    }
  }

  /** Operation i tells what byte o of page v of a is: it stored it, under one of the names
      of the page, or loaded it. */
  predicate Tells(es: seq<Eager>, ops: seq<Op>, rs: seq<Result>, i: nat, a: nat, v: nat, o: nat, x: bv8)
    requires i < |rs| && |rs| <= |ops| && i + 1 < |es|
  {
    match ops[i]
    case Store(t, w, p, byte) => rs[i] == Done && p == o && byte == x && SamePage(es[i + 1], t, w, a, v)
    case Load(t, w, p) => rs[i] == Loaded(x) && p == o && SamePage(es[i + 1], t, w, a, v)
    case _ => false
  }

  lemma TellsReads(es: seq<Eager>, ops: seq<Op>, rs: seq<Result>, i: nat, a: nat, v: nat, o: nat, x: bv8)
    requires Trace(es, ops, rs) && Whole(es[0]) && i < |rs| && Tells(es, ops, rs, i, a, v, o, x)
    ensures Reads(es[i + 1], a, v, o, x)
  {
    TraceWhole(es, ops, rs, i);
    if ops[i].Store? {
      StoredReads(es[i], ops[i].task, ops[i].page, o, x, es[i + 1], a, v);
    } else {
      LoadedReads(es[i], ops[i].task, ops[i].page, o, x, es[i + 1], a, v);
    }
  }

  lemma LoadedReads(e: Eager, t: nat, w: nat, o: nat, x: bv8, e1: Eager, a: nat, v: nat)
    requires Answers(e, Load(t, w, o), Loaded(x), e1) && SamePage(e1, t, w, a, v)
    ensures Reads(e1, a, v, o, x)
  {}

  /** Over every run, until the byte is stored to again or its page is given up, every load
      answers the last byte stored there. */
  lemma ReadsLastStored(es: seq<Eager>, ops: seq<Op>, rs: seq<Result>, i: nat, j: nat, a: nat, v: nat, o: nat, x: bv8)
    requires Trace(es, ops, rs) && Whole(es[0]) && i < j < |rs| && Tells(es, ops, rs, i, a, v, o, x)
    requires ops[j] == Load(a, v, o) && Undisturbed(es, ops, i + 1, j, a, v, o)
    ensures rs[j] == Loaded(x)
  {
    TellsReads(es, ops, rs, i, a, v, o, x);
    KeptOver(es, ops, rs, i + 1, j, a, v, o, x);
    ReadsThere(es[j], a, v, o, x);
    LoadReads(es[j], a, v, o, rs[j], es[j + 1]);
    hide Tells, Undisturbed, Answers, Whole;
  }

  /** The same for the child of a fork in between: it reads what its parent's page held at
      the fork, until it is disturbed itself. A store of the parent behind the fork disturbs
      it only if they share the page. */
  lemma ChildReadsStored(es: seq<Eager>, ops: seq<Op>, rs: seq<Result>, i: nat, k: nat, j: nat, a: nat, child: nat,
          v: nat, o: nat, x: bv8)
    requires Trace(es, ops, rs) && Whole(es[0]) && i < k < j < |rs| && Tells(es, ops, rs, i, a, v, o, x)
    requires ops[k] == Fork(a, child) && ops[j] == Load(child, v, o)
    requires Undisturbed(es, ops, i + 1, k, a, v, o) && Undisturbed(es, ops, k + 1, j, child, v, o)
    ensures rs[k] == Done ==> rs[j] == Loaded(x)
  {
    TellsReads(es, ops, rs, i, a, v, o, x);
    KeptOver(es, ops, rs, i + 1, k, a, v, o, x);
    if rs[k] == Done {
      assert Answers(es[k], ops[k], rs[k], es[k + 1]);
      ForkReads(es[k], a, child, a, v, o, x);
      assert es[k + 1] == es[k].(procs := es[k].procs[child := es[k].procs[a]]);
      KeptOver(es, ops, rs, k + 1, j, child, v, o, x);
      ReadsThere(es[j], child, v, o, x);
      LoadReads(es[j], child, v, o, rs[j], es[j + 1]);
    }
    hide Tells, Undisturbed, Answers, Whole;
  }
}

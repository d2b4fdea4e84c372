/** The user-memory half of src/kernel/memory.c, as the code runs it. */
module Memory {
  import opened Bits
  import opened Common
  import opened Paging
  import opened EagerCopy
  import opened CowRefinement

  class Memory {
    const startPage: nat
    const memoryMap: array<uint8>
    var freePages: int
    var ram: seq<Page>
    var tables: map<nat, Table>
    var spaces: map<nat, Space>
    var zero: Entry

    /** memory_map_init, mapping_init and the first task_to_user_mode: the kernel
        owns the frames below 16 MB, the first task has an empty address space. */
    constructor Boot(total: nat, start: nat, first: nat)
      requires 0 < start < KERNEL_PAGES <= total
      ensures Sound() && spaces.Keys == {first} && Abs(State()).procs[first].cells == map[]
      ensures fresh(memoryMap) && memoryMap.Length == total && startPage == start && freePages == total - start
    {
      startPage := start;
      memoryMap := new uint8[total](f => if f < KERNEL_PAGES then 1 else 0);
      freePages := total - start;
      ram := seq(total, _ => seq(PAGE_SIZE, _ => 0));
      tables := map[];
      spaces := map[first := Space(map[], KERNEL_PAGES, KERNEL_PAGES, seq(MMAP_PAGES, _ => false))];
      zero := Absent();
      new;
      BootCore(State(), first);
    }

    ghost function State(): Machine
      reads this, memoryMap
    {
      Machine(startPage, memoryMap[..], freePages, ram, tables, spaces, zero)
    }

    ghost predicate Exhausted()
      reads this, memoryMap
    {
      forall f | startPage <= f < memoryMap.Length :: memoryMap[f] != 0
    }

    /** get_page: the lowest free frame. */
    method GetPage() returns (r: Option<nat>)
      requires FreeExact(State())
      modifies this`freePages, memoryMap
      ensures r.None? ==> State() == old(State()) && Exhausted()
      ensures r.Some? ==>
                && KERNEL_PAGES <= r.value < memoryMap.Length && old(memoryMap[r.value]) == 0
                && (forall f | startPage <= f < r.value :: old(memoryMap[f]) != 0)
                && FreeExact(State())
                && State() == old(State().(count := State().count[r.value := 1], free := freePages - 1))
    {
      var i := startPage;
      while i < memoryMap.Length
        invariant startPage <= i <= memoryMap.Length
        invariant State() == old(State())
        invariant forall f | startPage <= f < i :: memoryMap[f] != 0
      {
        if memoryMap[i] == 0 {
          FreeFramesUpdate(memoryMap[..], i, 1);
          memoryMap[i] := 1;
          freePages := freePages - 1;
          assert memoryMap[..] == old(memoryMap[..])[i := 1];
          return Some(i);
        }
        i := i + 1;
      }
      return None;
    }

    /** put_page: one use of a frame given up; the assertions of the code hold. */
    method PutPage(f: nat)
      requires FreeExact(State()) && KERNEL_PAGES <= f < memoryMap.Length && memoryMap[f] >= 1
      modifies this`freePages, memoryMap
      ensures FreeExact(State())
      ensures State() == old(State().(count := State().count[f := memoryMap[f] - 1],
              free := freePages + Bit(memoryMap[f] == 1)))
    {
      assert f >= startPage && f < memoryMap.Length;
      FreeFramesUpdate(memoryMap[..], f, memoryMap[f] - 1);
      memoryMap[f] := memoryMap[f] - 1;
      assert memoryMap[..] == old(memoryMap[..])[f := old(memoryMap[f]) - 1];
      if memoryMap[f] == 0 {
        freePages := freePages + 1;
      }
      FreeBounded(State());
      assert 0 < freePages < memoryMap.Length;
    }

    /** get_pte with create: the table for page v, new and empty if there was none. */
    method GetPte(a: nat, v: nat) returns (ok: bool)
      requires Core(State()) && a in spaces && UserPage(v)
      modifies this`freePages, this`tables, this`spaces, memoryMap
      ensures Core(State()) && Unseen(old(State()), State())
      ensures ok ==> v / 1024 in spaces[a].dir && spaces[a].dir[v / 1024] in tables
      ensures !ok ==> Exhausted()
      ensures freePages >= old(freePages) - 1
      ensures old(v / 1024 in spaces[a].dir) ==> ok && State() == old(State())
    {
      var d := v / 1024;
      if d in spaces[a].dir {
        assert DirMaps(State(), a, d, spaces[a].dir[d]);
        return true;
      }
      var page := GetPage();
      if page.None? {
        return false;
      }
      spaces := spaces[a := spaces[a].(dir := spaces[a].dir[d := page.value])];
      tables := tables[page.value := seq(1024, _ => Absent())];
      NewTableKeepsCore(old(State()), State(), a, d, page.value);
      return true;
    }

    /** One field assignment of the code on the entry of page v. */
    method SetEntry(a: nat, v: nat, e: Entry)
      requires a in spaces && v / 1024 in spaces[a].dir && spaces[a].dir[v / 1024] in tables
      modifies this`tables
      ensures tables == old(tables[spaces[a].dir[v / 1024] := tables[spaces[a].dir[v / 1024]][v % 1024 := e]])
    {
      var t := spaces[a].dir[v / 1024];
      tables := tables[t := tables[t][v % 1024 := e]];
    }

    /** link_page: a present page is left as it is; an absent one gets the
        lowest free frame, with whatever bytes that frame holds. */
    method LinkPage(a: nat, v: nat) returns (ok: bool)
      requires Core(State()) && a in spaces && UserPage(v)
      modifies this`freePages, this`tables, this`spaces, memoryMap
      ensures Core(State()) && OnlyPage(old(State()), State(), a, v) && ram == old(ram)
      ensures old(CowSafe(State())) ==> CowSafe(State())
      ensures !ok ==> Exhausted()
      ensures freePages >= old(freePages) - 2
      ensures ok ==> v / 1024 in spaces[a].dir && spaces[a].dir[v / 1024] in tables && Look(State(), a, v).present
      ensures ok && old(Look(State(), a, v).present) ==> State() == old(State())
      ensures ok && !old(Look(State(), a, v).present) ==>
                var e := Look(State(), a, v);
                && e == EntryInit(e.index) && e.index < |ram| && memoryMap[e.index] == 1
                && Abs(State()) == PutCell(old(Abs(State())), a, v, Private(ram[e.index], true), ram[e.index])
    {
      hide Core, CowSafe, PutCell, Abs, SafeEntry;
      ok := GetPte(a, v);
      UnseenSame(old(State()), State());
      if !ok {
        return;
      }
      ghost var m := State();
      CoreFacts(m);
      var entry := tables[spaces[a].dir[v / 1024]][v % 1024];
      if entry.present {
        return;
      }
      var frame := GetPage();
      if frame.None? {
        return false;
      }
      SetEntry(a, v, EntryInit(frame.value));
      LinkedNew(m, State(), a, v, frame.value);
    }

    /** unlink_page: the page is gone, its frame has one use less. */
    method UnlinkPage(a: nat, v: nat)
      requires Core(State()) && a in spaces && UserPage(v)
      modifies this`freePages, this`tables, memoryMap
      ensures Core(State()) && OnlyPage(old(State()), State(), a, v) && ram == old(ram)
      ensures old(CowSafe(State())) ==> CowSafe(State())
      ensures !Look(State(), a, v).present
      ensures Abs(State()) == RemoveCell(old(Abs(State())), a, v)
    {
      ghost var m := State();
      if v / 1024 !in spaces[a].dir {
        RemoveAbsent(m, a, v);
        return;
      }
      assert DirMaps(m, a, v / 1024, spaces[a].dir[v / 1024]);
      var entry := tables[spaces[a].dir[v / 1024]][v % 1024];
      if !entry.present {
        RemoveAbsent(m, a, v);
        return;
      }
      assert Maps(m, a, v, entry.index);
      Named(m, a, v, entry.index);
      SetEntry(a, v, entry.(present := false));
      PutPage(entry.index);
      assert Remap(m, State(), a, v, entry.(present := false));
      RemapKeepsCore(m, State(), a, v, entry.(present := false));
      RemapLook(m, State(), a, v, entry.(present := false));
      RemapCowSafeIfSafe(m, State(), a, v, entry.(present := false));
      RemapAbs(m, State(), a, v, entry.(present := false));
    }

    /** copy_page: the bytes of frame src in the lowest free frame, mapped for the
        moment at page 0. */
    method CopyPage(src: nat) returns (r: Option<nat>)
      requires Core(State()) && src < |ram|
      modifies this`freePages, this`ram, this`zero, memoryMap
      ensures r.None? ==> State() == old(State()) && Exhausted()
      ensures r.Some? ==>
                && KERNEL_PAGES <= r.value < memoryMap.Length && old(memoryMap[r.value]) == 0
                && FreeExact(State())
                && State() == old(State().(count := State().count[r.value := 1], free := freePages - 1,
                   ram := ram[r.value := ram[src]],
                                           zero := EntryInit(r.value).(present := false)))
    {
      r := GetPage();
      if r.Some? {
        zero := EntryInit(r.value);
        ram := ram[r.value := ram[src]];
        zero := zero.(present := false);
      }
    }

    /** copy_page when the frame is a page table. */
    method CopyTable(src: nat) returns (r: Option<nat>)
      requires FreeExact(State()) && src in tables
      modifies this`freePages, this`tables, this`zero, memoryMap
      ensures r.None? ==> State() == old(State()) && Exhausted()
      ensures r.Some? ==>
                && KERNEL_PAGES <= r.value < memoryMap.Length && old(memoryMap[r.value]) == 0
                && FreeExact(State())
                && State() == old(State().(count := State().count[r.value := 1], free := freePages - 1,
                   tables := tables[r.value := tables[src]],
                                           zero := EntryInit(r.value).(present := false)))
    {
      r := GetPage();
      if r.Some? {
        zero := EntryInit(r.value);
        tables := tables[r.value := tables[src]];
        zero := zero.(present := false);
      }
    }

    /** The inner loop of copy_pde: private pages lose their write bit, every
        frame named is counted once more, and no 8-bit count overflows. */
    method ShareTable(pte: nat)
      requires FreeExact(State()) && pte in tables && TableUsable(tables[pte], memoryMap[..])
      modifies this`tables, memoryMap
      ensures FreeExact(State()) && TableShared(old(State()), State(), pte)
    {
      ghost var t := tables[pte];
      for tidx := 0 to 1024
        invariant pte in tables && tables == old(tables)[pte := tables[pte]]
        invariant forall i | 0 <= i < 1024 :: tables[pte][i] == if i < tidx then Protect(t[i]) else t[i]
        invariant forall g: nat | g < memoryMap.Length ::
                  memoryMap[g] == old(memoryMap[g]) + Bit(NamedBefore(t, tidx, g))
      {
        var entry := tables[pte][tidx];
        if entry.present {
          assert memoryMap[entry.index] > 0;
          if !entry.shared {
            tables := tables[pte := tables[pte][tidx := entry.(write := false)]];
          }
          memoryMap[entry.index] := memoryMap[entry.index] + 1;
          assert memoryMap[entry.index] < 255;
          assert t[tidx].present && t[tidx].index == entry.index;
        }
        assert forall g: nat ::
          NamedBefore(t, tidx + 1, g) == (NamedBefore(t, tidx, g) || (t[tidx].present && t[tidx].index == g));
      }
      assert tables[pte] == Protected(t);
      SameFree(old(memoryMap[..]), memoryMap[..]);
    }

    /** The inner loop of free_pde. */
    method FreeTable(pte: nat)
      requires FreeExact(State()) && pte in tables && TableUsable(tables[pte], memoryMap[..])
      modifies this`freePages, memoryMap
      ensures FreeExact(State())
      ensures forall g: nat | g < memoryMap.Length :: memoryMap[g] == old(memoryMap[g]) - Bit(InTable(tables[pte], g))
    {
      ghost var t := tables[pte];
      for tidx := 0 to 1024
        invariant FreeExact(State())
        invariant forall g: nat | g < memoryMap.Length ::
                  memoryMap[g] == old(memoryMap[g]) - Bit(NamedBefore(t, tidx, g))
      {
        var entry := tables[pte][tidx];
        if entry.present {
          assert memoryMap[entry.index] > 0;
          PutPage(entry.index);
          assert t[tidx].present && t[tidx].index == entry.index;
        }
        assert forall g: nat ::
          NamedBefore(t, tidx + 1, g) == (NamedBefore(t, tidx, g) || (t[tidx].present && t[tidx].index == g));
      }
    }

    /** One round of copy_pde. */
    method ForkOneTable(ghost m0: Machine, parent: nat, child: nat, pde: map<nat, nat>, didx: nat)
            returns (r: map<nat, nat>, ok: bool)
      requires |spaces| < TASK_NUMBER && 4 <= didx < 1023
      requires ForkState(m0, State(), parent, child, pde, didx) && didx in pde && didx in spaces[parent].dir
      modifies this`freePages, this`tables, this`zero, memoryMap
      ensures !ok ==> Exhausted() && FreeExact(State())
      ensures freePages >= old(freePages) - 1
      ensures ok ==> r.Keys == pde.Keys && ForkState(m0, State(), parent, child, r, didx + 1)
    {
      var pte := spaces[parent].dir[didx];
      ghost var x := State();
      ForkTableUsable(m0, x, parent, child, pde, didx);
      ShareTable(pte);
      ghost var x1 := State();
      var page := CopyTable(pte);
      if page.None? {
        return pde, false;
      }
      ForkRound(m0, x, x1, State(), parent, child, pde, didx, page.value);
      return pde[didx := page.value], true;
    }

    /** copy_pde and the address-space part of task_fork: afterwards the child
        sees exactly what the parent sees, and nobody's memory has changed. */
    method CopyPde(parent: nat, child: nat) returns (ok: bool)
      requires Core(State()) && CowSafe(State()) && Regions(State())
      requires parent in spaces && child !in spaces && |spaces| < TASK_NUMBER
      modifies this, memoryMap
      ensures !ok ==> Exhausted() && FreeExact(State())
      ensures freePages >= old(freePages) - 1019
      ensures ok ==>
                && Core(State()) && CowSafe(State()) && Regions(State()) && Forked(old(State()), State(), parent, child)
                && Abs(State()) == old(Abs(State()).(procs := Abs(State()).procs[child := Abs(State()).procs[parent]]))
    {
      hide Core, CowSafe, Regions, ForkState;
      ghost var m0 := State();
      var pde := spaces[parent].dir;
      ForkStart(m0, parent, child);
      for didx := 4 to 1023
        invariant spaces == old(spaces) && pde.Keys == spaces[parent].dir.Keys
        invariant ForkState(m0, State(), parent, child, pde, didx)
        invariant freePages >= old(freePages) - (didx - 4)
      {
        if didx in pde {
          pde, ok := ForkOneTable(m0, parent, child, pde, didx);
          if !ok {
            return;
          }
        } else {
          ForkSkip(m0, State(), parent, child, pde, didx);
        }
      }
      ForkEnd(m0, State(), parent, child, pde);
      spaces := spaces[child := spaces[parent].(dir := pde)];
      ok := true;
    }

    /** free_pde at the end of a task: its address space is gone, everyone else's is as before. */
    method FreePde(a: nat)
      requires Core(State()) && a in spaces && |spaces| <= TASK_NUMBER
      modifies this, memoryMap
      ensures Core(State()) && (old(CowSafe(State())) ==> CowSafe(State()))
              && (old(Regions(State())) ==> Regions(State()))
      ensures Abs(State()) == old(var procs := Abs(State()).procs - {a}; Eager(procs, Collect(procs, Objects(State()))))
    {
      hide Core, CowSafe, Regions, ExitState;
      ghost var m0 := State();
      ExitStart(m0, a);
      for didx := 4 to 1023
        invariant spaces == m0.spaces && ExitState(m0, State(), a, didx)
      {
        if didx in spaces[a].dir {
          ghost var x := State();
          ExitUsable(m0, x, a, didx);
          FreeTable(spaces[a].dir[didx]);
          PutPage(spaces[a].dir[didx]);
          ExitRound(m0, x, State(), a, didx);
        } else {
          ExitSkip(m0, State(), a, didx);
        }
      }
      ExitEnd(m0, State(), a);
      spaces := spaces - {a};
    }

    /** page_fault on a page that is there but must not be written. */
    method WriteFault(a: nat, v: nat) returns (r: Result)
      requires Core(State()) && CowSafe(State()) && Regions(State()) && a in spaces && UserPage(v)
      requires Look(State(), a, v).present && !Look(State(), a, v).write
      modifies this`freePages, this`ram, this`tables, this`zero, memoryMap
      ensures r == Done || r == Halt(false) || r == Halt(true)
      ensures r == Done ==> Core(State()) && CowSafe(State()) && Abs(State()) == old(Abs(State()))
      ensures r == Done ==>
              OnlyPage(old(State()), State(), a, v) && Look(State(), a, v).present && Look(State(), a, v).write
      ensures r == Halt(true) ==> Exhausted()
      ensures r == Halt(false) <==> old(Look(State(), a, v).shared || Look(State(), a, v).readonly)
    {
      hide Core, CowSafe, Regions, Abs;
      ghost var m := State();
      EntryFacts(m, a, v);
      var entry := tables[spaces[a].dir[v / 1024]][v % 1024];
      if entry.shared || entry.readonly {
        return Halt(false);
      }
      assert memoryMap[entry.index] > 0;
      if memoryMap[entry.index] == 1 {
        SetEntry(a, v, entry.(write := true));
        ReclaimInvisible(m, State(), a, v);
      } else {
        var page := CopyPage(entry.index);
        if page.None? {
          return Halt(true);
        }
        memoryMap[entry.index] := memoryMap[entry.index] - 1;
        SetEntry(a, v, EntryInit(page.value));
        assert State().count == m.count[page.value := 1][entry.index := m.count[entry.index] - 1];
        CopyInvisible(m, State(), a, v, page.value);
      }
      return Done;
    }

    /** link_page(0): the table is the kernel's. */
    method LinkNull() returns (ok: bool)
      requires Core(State()) && !zero.present
      modifies this`freePages, this`zero, memoryMap
      ensures !ok ==> Exhausted()
      ensures ok ==> NullLinked(old(State()), State(), zero.index)
    {
      var frame := GetPage();
      if frame.None? {
        return false;
      }
      zero := EntryInit(frame.value);
      return true;
    }

    /** The entry an access to page v goes through. */
    ghost function EntryAt(a: nat, v: nat): Entry
      requires a in spaces
      reads this, memoryMap
    {
      if v == 0 then zero else Look(State(), a, v)
    }

    /** page_fault: the code's answer to an access the MMU refused. Page 0 passes the
        code's tests; its entry is writable whenever it is there. */
    method PageFault(a: nat, v: nat, present: bool, write: bool) returns (r: Result)
      requires Core(State()) && CowSafe(State()) && Regions(State()) && a in spaces && (UserPage(v) || v == 0)
      requires present == EntryAt(a, v).present && (present ==> write && !EntryAt(a, v).write)
      requires v == 0 ==> (zero.present ==> zero.write)
      modifies this`freePages, this`ram, this`tables, this`spaces, this`zero, memoryMap
      ensures r == Done || r == Halt(false) || r == Halt(true)
      ensures r == Done ==> (ExactCounts(State()) <==> v != 0)
      ensures r == Done && v != 0 ==>
                Core(State()) && CowSafe(State()) && Regions(State()) && OnlyPage(old(State()), State(), a, v)
      ensures r == Done && v != 0 && present ==> Abs(State()) == old(Abs(State()))
      ensures r == Done && v != 0 && !present ==>
                var e := Look(State(), a, v);
                e == EntryInit(e.index) && e.index < |ram|
                && Abs(State()) == PutCell(old(Abs(State())), a, v, Private(ram[e.index], true), ram[e.index])
      ensures r == Done && v == 0 ==> NullLinked(old(State()), State(), zero.index)
      ensures r == Done ==> EntryAt(a, v).present && EntryAt(a, v).write && EntryAt(a, v).index < |ram|
      ensures r == Halt(true) ==> Exhausted()
      ensures r == Halt(false) <==>
              old(var e := EntryAt(a, v);
                  if present then e.shared || e.readonly else v < STACK_BOTTOM && v >= spaces[a].brk)
    {
      hide Core, CowSafe, Regions, Abs, PutCell, ExactCounts;
      ghost var m := State();
      if present {
        r := WriteFault(a, v);
        if r != Done {
          return;
        }
      } else if v >= STACK_BOTTOM || v < spaces[a].brk {
        if v == 0 {
          var ok := LinkNull();
          if !ok {
            return Halt(true);
          }
          CoreFacts(m);
          NullFaultMiscounts(m, State(), zero.index);
          return Done;
        }
        var ok := LinkPage(a, v);
        if !ok {
          return Halt(true);
        }
      } else {
        return Halt(false);
      }
      EntryFacts(State(), a, v);
      RegionsKept(m, State(), a, v);
      CountsExact(State());
      return Done;
    }

    /** The entry the MMU finds. */
    method Walk(a: nat, v: nat) returns (entry: Entry)
      requires a in spaces
      ensures entry == Look(State(), a, v)
    {
      var dir := spaces[a].dir;
      entry := if v / 1024 in dir && dir[v / 1024] in tables then tables[dir[v / 1024]][v % 1024] else Absent();
    }

    /** The MMU walk of an access, with a fault if it is refused: at most one is needed. */
    method Reach(a: nat, v: nat, write: bool) returns (r: Result, entry: Entry)
      requires Core(State()) && CowSafe(State()) && Regions(State()) && a in spaces && UserPage(v)
      modifies this`freePages, this`ram, this`tables, this`spaces, this`zero, memoryMap
      ensures r == Done || r.Halt?
      ensures r == Halt(false) <==>
              old(var p := Abs(State()).procs[a];
                if v in p.cells then write && !p.cells[v].writable else !Growable(p, v))
      ensures r == Halt(true) ==>
                Exhausted() && old(var p := Abs(State()).procs[a]; v in p.cells ==> write && p.cells[v].Private?)
      ensures r == Done ==>
                && Core(State()) && CowSafe(State()) && Regions(State()) && spaces.Keys == old(spaces.Keys)
                && entry == Look(State(), a, v) && entry.present && (write ==> entry.write) && entry.index < |ram|
                && Abs(State()) == if old(v in Abs(State()).procs[a].cells) then old(Abs(State()))
                                   else PutCell(old(Abs(State())), a, v, Private(ram[entry.index], true),
                                     ram[entry.index])
    {
      hide Core, CowSafe, Regions, PutCell, Cells, Objects;
      CellPresent(State(), a, v);
      WritableCell(State(), a, v);
      entry := Walk(a, v);
      r := Done;
      if !entry.present || (write && !entry.write) {
        r := PageFault(a, v, entry.present, write);
        if r.Halt? {
          return;
        }
        entry := Walk(a, v);
      }
      EntryFacts(State(), a, v);
    }

    /** A user-mode load. */
    method UserLoad(a: nat, v: nat, offset: nat) returns (r: Result)
      requires Core(State()) && CowSafe(State()) && Regions(State()) && a in spaces && UserPage(v) && offset < PAGE_SIZE
      modifies this, memoryMap
      ensures r == Halt(false) <==> Faults(old(Abs(State())), Load(a, v, offset))
      ensures r == Halt(true) ==> Exhausted() && MayExhaust(old(Abs(State())), Load(a, v, offset))
      ensures !r.Halt? ==>
                && Core(State()) && CowSafe(State()) && Regions(State()) && spaces.Keys == old(spaces.Keys)
                && Step(old(Abs(State())), Load(a, v, offset), r, Abs(State()))
                && Look(State(), a, v).present && Look(State(), a, v).index < |ram|
                && r == Loaded(ram[Look(State(), a, v).index][offset])
    {
      hide Core, CowSafe, Regions, PutCell, Cells;
      ghost var e0 := Abs(State());
      var entry;
      r, entry := Reach(a, v, false);
      if r.Halt? {
        return;
      }
      r := Loaded(ram[entry.index][offset]);
      ReadsCell(State(), a, v);
      if v !in e0.procs[a].cells {
        var found := ram[entry.index];
        assert r == Loaded(found[offset % PAGE_SIZE]) && Abs(State()) == PutCell(e0, a, v, Private(found, true), found);
      }
    }

    /** A user-mode store. */
    method UserStore(a: nat, v: nat, offset: nat, byte: bv8) returns (r: Result)
      requires Core(State()) && CowSafe(State()) && Regions(State()) && a in spaces && UserPage(v) && offset < PAGE_SIZE
      modifies this, memoryMap
      ensures r == Halt(false) <==> Faults(old(Abs(State())), Store(a, v, offset, byte))
      ensures r == Halt(true) ==> Exhausted() && MayExhaust(old(Abs(State())), Store(a, v, offset, byte))
      ensures !r.Halt? ==>
                && Core(State()) && CowSafe(State()) && Regions(State()) && spaces.Keys == old(spaces.Keys)
                && Step(old(Abs(State())), Store(a, v, offset, byte), r, Abs(State()))
                && Look(State(), a, v).present && Look(State(), a, v).index < |ram|
                && ram[Look(State(), a, v).index][offset] == byte
    {
      hide Core, CowSafe, Regions, PutCell, Cells;
      ghost var m0 := State();
      LiveAbs(m0);
      var entry;
      r, entry := Reach(a, v, true);
      if r.Halt? {
        return;
      }
      ghost var m := State();
      CowSafeIs(m);
      ram := ram[entry.index := ram[entry.index][offset := byte]];
      StoreAbs(m, State(), a, v, offset, byte);
      if v !in Abs(m0).procs[a].cells {
        var found := m.ram[entry.index];
        StoreAfterPut(Abs(m0), a, v, found, offset, byte);
        assert Abs(State()) == PutCell(Abs(m0), a, v, Private(Poke(found, offset, byte), true), found);
      }
    }

    /** The loop of sys_brk that gives pages up. */
    method UnlinkRange(a: nat, from: nat, to: nat)
      requires Core(State()) && CowSafe(State()) && Regions(State()) && a in spaces
      requires KERNEL_PAGES <= from <= to <= spaces[a].brk
      modifies this`freePages, this`tables, memoryMap
      ensures Core(State()) && CowSafe(State()) && Regions(State())
      ensures Abs(State()) == Unmapped(old(Abs(State())), a, from, to)
      ensures forall x: nat | from <= x < to :: !Look(State(), a, x).present
    {
      hide Core, CowSafe, Regions, RemoveCell, Abs;
      ghost var m0 := State();
      LiveAbs(m0);
      RegionFacts(m0, a);
      AbsSpace(m0, a);
      UnmapNone(Abs(m0), a, from);
      for page := from to to
        invariant Core(State()) && CowSafe(State()) && Regions(State())
        invariant Abs(State()) == Unmapped(Abs(m0), a, from, page)
        invariant forall x: nat | from <= x < page :: !Look(State(), a, x).present
      {
        ghost var m := State();
        UnlinkPage(a, page);
        RegionsKept(m, State(), a, page);
        UnmapNext(Abs(m0), a, from, page);
      }
    }

    /** sys_brk: shrinking gives the pages up, growing only moves the mark. */
    method SysBrk(a: nat, brk: nat) returns (r: Result)
      requires Core(State()) && CowSafe(State()) && Regions(State()) && a in spaces
      modifies this, memoryMap
      ensures r == if old(!(spaces[a].end <= brk <= MMAP_START)) then Halt(false)
                   else if old(brk > spaces[a].brk && brk - spaces[a].brk > freePages) then NoMemory else Done
      ensures r != Done ==> State() == old(State())
      ensures !r.Halt? ==>
                && Core(State()) && CowSafe(State()) && Regions(State()) && spaces.Keys == old(spaces.Keys)
                && Step(old(Abs(State())), Brk(a, brk), r, Abs(State()))
    {
      hide Core, CowSafe, Regions, Abs, Unmapped;
      if !(spaces[a].end <= brk <= MMAP_START) {
        return Halt(false);
      }
      CoreFacts(State());
      RegionFacts(State(), a);
      AbsSpace(State(), a);
      var oldBrk := spaces[a].brk;
      if oldBrk > brk {
        UnlinkRange(a, brk, oldBrk);
      } else if brk - oldBrk > freePages {
        return NoMemory;
      }
      ghost var m := State();
      spaces := spaces[a := spaces[a].(brk := brk)];
      RebookBrk(m, State(), a, brk);
      return Done;
    }

    /** One page of sys_munmap; e0 and vmap are what the call started from. */
    method MunmapOne(a: nat, page: nat, i: nat, ghost e0: Eager, ghost vmap: seq<bool>) returns (ok: bool)
      requires Core(State()) && CowSafe(State()) && Regions(State()) && a in spaces && a in e0.procs
      requires MMAP_START <= page && page + i <= STACK_TOP && |vmap| == MMAP_PAGES
      requires spaces[a].vmap == SetBits(vmap, page - MMAP_START, i, false)
      requires Abs(State()) == WithVmap(Unmapped(e0, a, page, page + i), a, spaces[a].vmap)
      modifies this, memoryMap
      ensures ok <==> page + i < STACK_TOP && vmap[page + i - MMAP_START]
      ensures ok ==>
                && Core(State()) && CowSafe(State()) && Regions(State())
                && spaces == old(spaces)[a := old(spaces[a]).(vmap := SetBits(vmap, page - MMAP_START, i + 1, false))]
                && Abs(State()) == WithVmap(Unmapped(e0, a, page, page + i + 1), a, spaces[a].vmap)
    {
      hide Core, CowSafe, Regions, RemoveCell, Abs, Unmapped;
      var p := page + i;
      ghost var m := State();
      ghost var before := Unmapped(e0, a, page, p);
      UnlinkPage(a, p);
      ghost var m1 := State();
      RemoveWithVmap(before, a, p, spaces[a].vmap);
      UnmapNext(e0, a, page, p);
      if p - MMAP_START >= |spaces[a].vmap| || !spaces[a].vmap[p - MMAP_START] {
        return false;
      }
      spaces := spaces[a := spaces[a].(vmap := spaces[a].vmap[p - MMAP_START := false])];
      RebookVmap(m1, State(), a, spaces[a].vmap);
      assert SetBits(vmap, page - MMAP_START, i + 1, false) == SetBits(vmap, page - MMAP_START, i,
        false)[p - MMAP_START := false];
      ClearMapping(m, m1, State(), a, p);
      return true;
    }

    /** sys_munmap: every page of the range must be a mapping, and all are given up. */
    method SysMunmap(a: nat, page: nat, count: nat) returns (r: Result)
      requires Core(State()) && CowSafe(State()) && Regions(State()) && a in spaces
      modifies this, memoryMap
      ensures r == Done || r == Halt(false)
      ensures r == Halt(false) <==> Faults(old(Abs(State())), Munmap(a, page, count))
      ensures r == Done ==>
                && Core(State()) && CowSafe(State()) && Regions(State()) && spaces.Keys == old(spaces.Keys)
                && Step(old(Abs(State())), Munmap(a, page, count), Done, Abs(State()))
    {
      hide Core, CowSafe, Regions, Unmapped, Abs, Step;
      ghost var m0 := State();
      ghost var e0 := Abs(m0);
      AbsSpace(m0, a);
      CoreFacts(m0);
      if !(MMAP_START <= page < STACK_BOTTOM) || PageAddress(PageAddress(page)) == 0 {
        return Halt(false);
      }
      LiveAbs(m0);
      UnmapNone(e0, a, page);
      ghost var vmap := spaces[a].vmap;
      assert SetBits(vmap, page - MMAP_START, 0, false) == vmap;
      for i := 0 to count
        invariant Core(State()) && CowSafe(State()) && Regions(State()) && page + i <= STACK_TOP
        invariant spaces.Keys == m0.spaces.Keys && spaces[a].vmap == SetBits(vmap, page - MMAP_START, i, false)
        invariant Abs(State()) == WithVmap(Unmapped(e0, a, page, page + i), a, spaces[a].vmap)
        invariant forall k | page - MMAP_START <= k < page - MMAP_START + i :: vmap[k]
      {
        var ok := MunmapOne(a, page, i, e0, vmap);
        if !ok {
          assert InRange(page + i, page, count);
          return Halt(false);
        }
      }
      MunmapStep(e0, a, page, count);
      return Done;
    }

    /** One page of sys_mmap. Over a page already present the flags change under
        whoever else uses the frame. */
    method MmapOne(a: nat, p: nat, write: bool, shared: bool, privat: bool) returns (ok: bool)
      requires Core(State()) && a in spaces && MMAP_START <= p < STACK_TOP
      modifies this, memoryMap
      ensures !ok ==> Exhausted() && FreeExact(State())
      ensures freePages >= old(freePages) - 2
      ensures ok ==>
                && Core(State()) && MmapOneSpaces(old(State()), State(), a, p) && spaces.Keys == old(spaces.Keys)
                && |spaces[a].vmap| == MMAP_PAGES
                && spaces[a].vmap == old(if |spaces[a].vmap| == MMAP_PAGES then spaces[a].vmap[p - MMAP_START := true]
                   else [])
      ensures ok && old(CowSafe(State()) && !Look(State(), a, p).present) ==>
                var c := CellOf(State(), Look(State(), a, p));
                CowSafe(State()) && OneMore(old(Abs(State())), Abs(State()), a, p, c) && c.writable == write
                  && c.Shared? == shared
      ensures ok && old(CowSafe(State()) && Look(State(), a, p).present
              && Look(State(), a, p).index < |State().count|) ==>
                (CowSafe(State()) <==> old(MayRemap(State(), a, p, write, shared)))
                  && (CowSafe(State()) <==> NoLeak(State()))
    {
      hide Core, CowSafe, PutCell, Abs, CellOf, OneMore, Remap, MmapOneSpaces;
      ghost var m0 := State();
      CoreFacts(m0);
      ok := LinkPage(a, p);
      CoreFacts(State());
      if !ok {
        return;
      }
      ghost var m1 := State();
      spaces := spaces[a := spaces[a].(vmap := spaces[a].vmap[p - MMAP_START := true])];
      ghost var m2 := State();
      RebookVmap(m1, m2, a, spaces[a].vmap);
      SetFlags(a, p, write, shared, privat);
      MmapOneDone(m0, m1, m2, State(), a, p, write, shared, privat);
    }

    /** The flags sys_mmap gives a linked page. */
    method SetFlags(a: nat, p: nat, write: bool, shared: bool, privat: bool)
      requires Core(State()) && a in spaces && UserPage(p) && Look(State(), a, p).present
      modifies this`tables
      ensures Remap(old(State()), State(), a, p, Reflag(old(Look(State(), a, p)), write, shared, privat))
    {
      ghost var m := State();
      EntryFacts(m, a, p);
      var entry := tables[spaces[a].dir[p / 1024]][p % 1024];
      var flagged := entry.(write := false, readonly := true);
      if write {
        flagged := flagged.(readonly := false, write := true);
      }
      if shared {
        flagged := flagged.(shared := true);
      }
      if privat {
        flagged := flagged.(privat := true);
      }
      SetEntry(a, p, flagged);
      assert flagged == Reflag(entry, write, shared, privat);
      ReflagCounts(m, a, p, flagged);
    }

    /** One round of the loop of sys_mmap: m0 and bits are what the loop started from. */
    method MmapRound(ghost m0: Machine, ghost bits: seq<bool>, a: nat, at: nat, i: nat, ghost count: nat, write: bool,
            shared: bool, privat: bool)
        returns (ok: bool)
      requires i < count && MMAP_START <= at && at + count <= STACK_TOP && |bits| == MMAP_PAGES
      requires MmapState(m0, State(), bits, a, at, i)
      requires CowSafe(m0) && FreshRange(Abs(m0).procs[a], at, count) ==>
                 CowSafe(State()) && MmapCells(Abs(m0), Abs(State()), a, at, i, write, shared)
      modifies this, memoryMap
      ensures !ok ==> Exhausted()
      ensures ok ==> MmapState(m0, State(), bits, a, at, i + 1)
      ensures ok && CowSafe(m0) && FreshRange(Abs(m0).procs[a], at, count) ==>
                CowSafe(State()) && MmapCells(Abs(m0), Abs(State()), a, at, i + 1, write, shared)
    {
      hide Core, CowSafe, Abs, MmapCells, OneMore, CellOf, Regions, MmapSoFar, MmapOneSpaces;
      ghost var m := State();
      FreshPage(m0, m, a, at, i, count);
      ok := MmapOne(a, at + i, write, shared, privat);
      if ok {
        MmapSoFarNext(m0, m, State(), a, at, i);
        assert SetBits(bits, at - MMAP_START, i + 1, true) == SetBits(bits, at - MMAP_START, i,
          true)[at + i - MMAP_START := true];
        AbsSpace(m0, a);
        if CowSafe(m0) && FreshRange(Abs(m0).procs[a], at, count) {
          MmapNext(Abs(m0), Abs(m), Abs(State()), a, at, i, write, shared, CellOf(State(), Look(State(), a, at + i)));
        }
      }
    }

    /** The address sys_mmap maps at: the one asked for, or the first run of clear bits,
        which are set at once. */
    method PlaceMapping(a: nat, page: nat, count: nat) returns (r: Option<nat>)
      requires Core(State()) && a in spaces
      modifies this`spaces
      ensures r.None? <==> !exists at: nat ::
              MMAP_START <= at < STACK_BOTTOM && MmapPlace(old(Abs(State())).procs[a], page, count, at)
      ensures r.Some? ==>
                && MMAP_START <= r.value < STACK_BOTTOM && MmapPlace(old(Abs(State())).procs[a], page, count, r.value)
                && (if page == 0 then r.value + count <= STACK_TOP else r.value == page)
                && a in spaces && spaces == old(spaces)[a := old(spaces)[a].(vmap := spaces[a].vmap)]
                   && |spaces[a].vmap| == MMAP_PAGES
                && SetBits(spaces[a].vmap, r.value - MMAP_START, count, true) == SetBits(old(spaces)[a].vmap,
                   r.value - MMAP_START, count, true)
    {
      hide Core, Abs;
      CoreFacts(State());
      AbsSpace(State(), a);
      ghost var p := Abs(State()).procs[a];
      var at := page;
      if page == 0 {
        if count == 0 {
          return None;
        }
        var start := FindRun(spaces[a].vmap, count);
        if start.None? {
          return None;
        }
        at := start.value + MMAP_START;
        spaces := spaces[a := spaces[a].(vmap := SetBits(spaces[a].vmap, start.value, count, true))];
      }
      OnlyPlace(p, page, count, at);
      if !(MMAP_START <= at < STACK_BOTTOM) {
        return None;
      }
      assert MmapPlace(p, page, count, at);
      return Some(at);
    }

    /** sys_mmap without a file. The frame counts stay exact whatever the range;
        on new pages it is the eager machine's mmap. */
    method SysMmap(a: nat, page: nat, count: nat, write: bool, shared: bool, privat: bool) returns (r: Result)
      requires Core(State()) && a in spaces && (page != 0 ==> page + count <= STACK_TOP)
      modifies this, memoryMap
      ensures r.Address? || r.Halt?
      ensures r == Halt(true) ==> Exhausted()
      ensures r == Halt(false) <==> Faults(old(Abs(State())), Mmap(a, page, count, write, shared, privat))
      ensures r.Address? ==>
              Core(State()) && spaces.Keys == old(spaces.Keys)
              && MmapPlace(old(Abs(State())).procs[a], page, count, r.page)
      ensures r.Address? && old(CowSafe(State()) && Regions(State())
              && FreshRange(Abs(State()).procs[a], r.page, count)) ==>
                && CowSafe(State()) && Regions(State())
                && Step(old(Abs(State())), Mmap(a, page, count, write, shared, privat), r, Abs(State()))
    {
      hide Core, CowSafe, Abs, MmapCells, Regions, MmapSoFar, MmapPlace, FreshRange;
      ghost var m0 := State();
      ghost var e0 := Abs(m0);
      AbsSpace(m0, a);
      CoreFacts(m0);
      var at := PlaceMapping(a, page, count);
      if at.None? {
        return Halt(false);
      }
      var ok := MmapRange(m0, a, at.value, count, write, shared, privat);
      if !ok {
        return Halt(true);
      }
      AbsSpace(State(), a);
      return Address(at.value);
    }

    /** The loop of sys_mmap: m0 is the machine the call found. */
    method MmapRange(ghost m0: Machine, a: nat, at: nat, count: nat, write: bool, shared: bool, privat: bool)
            returns (ok: bool)
      requires Core(m0) && a in m0.spaces && a in spaces && MMAP_START <= at && at + count <= STACK_TOP
      requires |m0.spaces[a].vmap| == |spaces[a].vmap| == MMAP_PAGES
      requires State() == m0.(spaces := m0.spaces[a := m0.spaces[a].(vmap := spaces[a].vmap)])
      requires SetBits(spaces[a].vmap, at - MMAP_START, count, true) == SetBits(m0.spaces[a].vmap, at - MMAP_START,
               count, true)
      modifies this, memoryMap
      ensures !ok ==> Exhausted()
      ensures ok ==> Core(State()) && spaces.Keys == m0.spaces.Keys
                     && spaces[a].vmap == SetBits(m0.spaces[a].vmap, at - MMAP_START, count, true)
      ensures ok && CowSafe(m0) && FreshRange(Abs(m0).procs[a], at, count) ==>
                && CowSafe(State()) && MmapCells(Abs(m0), Abs(State()), a, at, count, write, shared)
                && (Regions(m0) ==> Regions(State()))
    {
      hide Core, CowSafe, Abs, MmapCells, Regions, MmapSoFar, FreshRange;
      AbsSpace(m0, a);
      ghost var bits := spaces[a].vmap;
      MmapStart(m0, State(), a, at, write, shared);
      for i := 0 to count
        invariant MmapState(m0, State(), bits, a, at, i)
        invariant CowSafe(m0) && FreshRange(Abs(m0).procs[a], at, count) ==>
                    CowSafe(State()) && MmapCells(Abs(m0), Abs(State()), a, at, i, write, shared)
      {
        ok := MmapRound(m0, bits, a, at, i, count, write, shared, privat);
        if !ok {
          return;
        }
      }
      if Regions(m0) {
        MmapRegions(m0, State(), a, at, count);
      }
      ok := true;
    }

    ghost predicate Sound()
      reads this, memoryMap
    {
      Core(State()) && CowSafe(State()) && Regions(State()) && |spaces| <= TASK_NUMBER
    }

    /** What task_fork does to address spaces. */
    method ForkSpace(a: nat, child: nat) returns (r: Result)
      requires Sound() && a in spaces && child !in spaces && |spaces| < TASK_NUMBER
      modifies this, memoryMap
      ensures r == Done || r == Halt(true)
      ensures r == Halt(true) ==> Exhausted()
      ensures r == Done ==> Sound() && Step(old(Abs(State())), Fork(a, child), Done, Abs(State()))
    {
      hide Core, CowSafe, Regions, Step;
      SameTasks(State());
      ghost var e0 := Abs(State());
      var ok := CopyPde(a, child);
      r := if ok then Done else Halt(true);
      if ok {
        SameTasks(State());
        ForkStep(e0, a, child);
      }
    }

    /** What task_exit does to address spaces. */
    method ExitSpace(a: nat)
      requires Sound() && a in spaces
      modifies this, memoryMap
      ensures Sound() && Step(old(Abs(State())), Exit(a), Done, Abs(State()))
    {
      hide Core, CowSafe, Regions, Step;
      SameTasks(State());
      ghost var e0 := Abs(State());
      FreePde(a);
      SameTasks(State());
      ExitStep(e0, a);
    }

    /** Any operation of any task, refined by the eager machine. */
    method Execute(op: Op) returns (r: Result)
      requires Sound() && Applicable(Abs(State()), op)
      modifies this, memoryMap
      ensures r == Halt(false) <==> Faults(old(Abs(State())), op)
      ensures r == Halt(true) ==> Exhausted() && MayExhaust(old(Abs(State())), op)
      ensures !r.Halt? ==> Sound() && Step(old(Abs(State())), op, r, Abs(State()))
    {
      hide Core, CowSafe, Regions, Step, Faults, Abs;
      SameTasks(State());
      SimpleFaults(Abs(State()), op);
      AbsSpace(State(), op.task);
      match op {
        case Fork(a, child) =>
          if |spaces| >= TASK_NUMBER {
            return Halt(false);
          }
          r := ForkSpace(a, child);
        case Load(a, v, offset) => r := UserLoad(a, v, offset);
        case Store(a, v, offset, byte) => r := UserStore(a, v, offset, byte);
        case Brk(a, brk) => r := SysBrk(a, brk);
        case Mmap(a, page, count, write, shared, privat) => r := SysMmap(a, page, count, write, shared, privat);
        case Munmap(a, page, count) => r := SysMunmap(a, page, count);
        case Exit(a) =>
          ExitSpace(a);
          r := Done;
      }
    }

    /** Whether an operation can be given: the one condition a caller has to
        check is that an mmap does not fall on pages already mapped. */
    method CanApply(op: Op) returns (b: bool)
      requires Sound()
      ensures b <==> Applicable(Abs(State()), op)
    {
      hide Core, CowSafe, Regions;
      CoreFacts(State());
      SameTasks(State());
      if op.task !in spaces {
        return false;
      }
      AbsSpace(State(), op.task);
      match op {
        case Fork(_, child) => return child !in spaces;
        case Load(_, v, offset) => return KERNEL_PAGES <= v < USER_END && offset < PAGE_SIZE;
        case Store(_, v, offset, _) => return KERNEL_PAGES <= v < USER_END && offset < PAGE_SIZE;
        case Mmap(a, page, count, _, _, _) =>
          if page != 0 {
            if page + count > STACK_TOP {
              return false;
            }
            OnlyPlace(Abs(State()).procs[a], page, count, page);
            b := AllAbsent(a, page, count);
          } else if count > 0 {
            var start := FindRun(spaces[a].vmap, count);
            if start.Some? {
              OnlyPlace(Abs(State()).procs[a], page, count, MMAP_START + start.value);
              b := AllAbsent(a, MMAP_START + start.value, count);
            } else {
              b := true;
            }
          } else {
            b := true;
          }
        case _ => return true;
      }
    }

    method AllAbsent(a: nat, at: nat, count: nat) returns (b: bool)
      requires a in spaces
      ensures b <==> FreshRange(Abs(State()).procs[a], at, count)
    {
      for i := 0 to count
        invariant forall v: nat | InRange(v, at, i) :: v !in Cells(State(), a)
      {
        var entry := Walk(a, at + i);
        if entry.present && KERNEL_PAGES <= at + i < USER_END {
          assert InRange(at + i, at, count) && at + i in Abs(State()).procs[a].cells;
          return false;
        }
        assert forall v: nat | InRange(v, at, i + 1) :: v == at + i || InRange(v, at, i);
      }
      return true;
    }

    /** The place the kernel chooses for a mapping is free of pages unless it runs into the
        stack: an mmap that leaves the choice to the kernel applies otherwise. */
    lemma PlacedApplies(a: nat, count: nat, write: bool, shared: bool, privat: bool)
      requires Sound() && a in spaces
      requires forall at: nat | MmapPlace(Abs(State()).procs[a], 0, count, at) :: at + count <= STACK_BOTTOM
      ensures Applicable(Abs(State()), Mmap(a, 0, count, write, shared, privat))
    {
      hide Core, CowSafe;
      var m := State();
      CoreFacts(m);
      AbsSpace(m, a);
      forall at: nat | MmapPlace(Abs(m).procs[a], 0, count, at) ensures FreshRange(Abs(m).procs[a], at, count) {
        forall v: nat | InRange(v, at, count) ensures v !in Abs(m).procs[a].cells {
          assert !spaces[a].vmap[v - MMAP_START];
        }
      }
    }

    lemma SoundWhole()
      requires Sound()
      ensures Whole(Abs(State()))
    {
      LiveAbs(State());
    }

    /** Every run of operations is a run of the eager machine. It stops early only
        at a halt or before an operation that does not apply. */
    method Run(ops: seq<Op>) returns (rs: seq<Result>, ghost es: seq<Eager>)
      requires Sound()
      modifies this, memoryMap
      ensures Trace(es, ops, rs) && es[0] == old(Abs(State())) && Whole(es[0])
      ensures (rs != [] && rs[|rs| - 1].Halt?) || (Sound() && es[|rs|] == Abs(State()))
      ensures |rs| == |ops| || (rs != [] && rs[|rs| - 1].Halt?) || !Applicable(es[|rs|], ops[|rs|])
      ensures rs != [] && rs[|rs| - 1] == Halt(true) ==> Exhausted()
    {
      hide Sound, Step, Faults, Applicable, Answers;
      SoundWhole();
      rs, es := [], [Abs(State())];
      for i := 0 to |ops|
        invariant |rs| == i && Trace(es, ops, rs) && es[0] == old(Abs(State()))
        invariant Sound() && es[i] == Abs(State())
        invariant rs != [] ==> !rs[|rs| - 1].Halt?
      {
        ghost var e := Abs(State());
        var applicable := CanApply(ops[i]);
        if !applicable {
          return;
        }
        var r := Execute(ops[i]);
        ghost var e' := if r.Halt? then e else Abs(State());
        Answered(e, ops[i], r, e');
        rs := rs + [r];
        es := es + [e'];
        if r.Halt? {
          return;
        }
      }
    }
  }
  /** A state in which one process reads what another one stores (StoresExact) is three
      calls away: map a page, fork, and map the same address once more. */
  method MmapForkMmap(total: nat, start: nat) returns (mem: Memory)
    requires 0 < start < KERNEL_PAGES && KERNEL_PAGES + 1024 <= total
    ensures fresh(mem) && mem.spaces.Keys == {0, 1} && Core(mem.State()) && !NoLeak(mem.State())
  {
    hide Core, CowSafe, Regions, Abs, NoLeak, MmapSoFar, MmapOneSpaces;
    var p := MMAP_START;
    mem := new Memory.Boot(total, start, 0);
    ghost var m0 := mem.State();
    CellPresent(m0, 0, p);
    var ok := mem.MmapOne(0, p, true, false, true);
    if !ok { NoneFree(mem.State()); }
    assert ok;
    ghost var m1 := mem.State();
    OnePageRegions(m0, m1, 0, p);
    assert !Look(m1, 0, p).shared;
    assert |mem.spaces| == |mem.spaces.Keys| == 1;
    ok := mem.CopyPde(0, 1);
    if !ok { NoneFree(mem.State()); }
    assert ok;
    ghost var m2 := mem.State();
    ForkedTwice(m1, m2, 0, 1, p);
    ok := mem.MmapOne(0, p, true, false, true);
    if !ok { NoneFree(mem.State()); }
    assert ok;
  }
}

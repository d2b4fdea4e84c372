/** src/kernel/arena.c and the kernel page map of src/kernel/memory.c. */
module Arena {
  import opened Common
  import opened Bits
  import opened Bitmap
  import opened Sequences
  import opened Heap

  class KernelHeap {
    const pages: BitmapT
    var arenas: map<nat, Heap.Arena>
    var free: seq<seq<nat>>
    ghost var live: map<nat, nat>
    ghost var reserved: set<nat>

    ghost function Now(): State
      reads this, pages.bits
    {
      State(pages.View(), pages.offset, arenas, free, live, reserved)
    }

    /** arena_init over an empty page map. */
    constructor (length: nat, start: nat)
      ensures Inv(Now()) && fresh(pages.bits) && live.Keys == {} && reserved == {}
    {
      pages := new BitmapT(length, start);
      arenas := map[];
      free := seq(CLASSES, _ => []);
      live, reserved := map[], {};
    }

    /** alloc_kpage; None stands for its panic. */
    method AllocPages(count: nat) returns (page: Option<nat>)
      requires count > 0
      modifies pages.bits
      ensures page.None? ==> Now() == old(Now()) && forall j: nat :: !ClearRun(old(pages.View()), j, count)
      ensures page.Some? ==> page.value >= pages.offset && FirstFit(old(pages.View()), page.value - pages.offset, count)
      ensures page.Some? ==> Now() == WithPages(old(Now()), page.value, count, true)
    {
      page := pages.Scan(count);
    }

    /** free_kpage: every page must be in use. */
    method FreePages(page: nat, count: nat)
      requires forall q: nat | page <= q < page + count :: BitSet(Now(), q)
      requires page >= pages.offset
      modifies pages.bits
      ensures Now() == WithPages(old(Now()), page, count, false)
    {
      ghost var was := pages.View();
      for i := 0 to count
        invariant pages.View() == SetBits(was, page - pages.offset, i, false)
      {
        assert BitSet(old(Now()), page + i);
        var used := pages.Test(page + i);
        assert used;
        ghost var before := pages.View();
        pages.Set(page + i, false);
        assert pages.View() == before[page + i - pages.offset := false];
        assert pages.View() == SetBits(was, page - pages.offset, i + 1, false);
      }
    }

    /** alloc_kpage called by other parts of the kernel. */
    method TakePages(count: nat) returns (page: Option<nat>)
      requires Inv(Now()) && count > 0
      modifies this`reserved, pages.bits
      ensures Inv(Now()) && live == old(live)
      ensures page.Some? ==>
              old(reserved) !! Range(page.value, count) && reserved == old(reserved) + Range(page.value, count)
      ensures page.None? ==> Now() == old(Now())
    {
      hide Inv, BitsOf, Range, WithPages;
      page := AllocPages(count);
      if page.Some? {
        reserved := reserved + Range(page.value, count);
        ReserveKeeps(old(Now()), Now(), page.value, count);
      }
    }

    /** free_kpage called by other parts of the kernel. */
    method ReturnPages(page: nat, count: nat)
      requires Inv(Now()) && page >= pages.offset && count > 0 && Range(page, count) <= reserved
      modifies this`reserved, pages.bits
      ensures Inv(Now()) && live == old(live) && reserved == old(reserved) - Range(page, count)
    {
      ghost var h := Now();
      hide Inv, BitsOf, Range, WithPages;
      UnreserveKeeps(h, WithPages(h, page, count, false).(reserved := h.reserved - Range(page, count)), page, count);
      FreePages(page, count);
      reserved := reserved - Range(page, count);
    }

    /** The class loop of kmalloc. */
    method FindClass(size: nat) returns (c: nat)
      requires size <= 1024
      ensures c < CLASSES && BlockSize(c) >= size && forall d: nat | d < c :: BlockSize(d) < size
    {
      c := 0;
      while c < CLASSES - 1 && BlockSize(c) < size
        invariant c < CLASSES && forall d: nat | d < c :: BlockSize(d) < size
      {
        c := c + 1;
      }
      if c == CLASSES - 1 { assert BlockSize(c) == 1024; }
    }

    /** kmalloc's loop over a new arena: every block is pushed on the free list. */
    method FillClass(p: nat, c: nat)
      requires c < CLASSES == |free| && free[c] == []
      modifies this
      ensures Now() == old(Now()).(arenas := old(arenas)[p := Small(c, Total(c))],
              free := old(free)[c := BlockList(p, c, Total(c))])
    {
      ghost var was := free;
      arenas := arenas[p := Small(c, Total(c))];
      for i := 0 to Total(c)
        invariant free == was[c := BlockList(p, c, i)]
        invariant arenas == old(arenas)[p := Small(c, Total(c))] && live == old(live) && reserved == old(reserved)
      {
        free := free[c := [Block(p, c, i)] + free[c]];
      }
    }

    /** kmalloc's new arena for a class without free blocks. */
    method GrowClass(c: nat) returns (ok: bool)
      requires Inv(Now()) && c < CLASSES && free[c] == []
      modifies this, pages.bits
      ensures !ok ==> Now() == old(Now()) && forall j: nat :: !ClearRun(old(pages.View()), j, 1)
      ensures ok ==> Core(Now()) && free[c] != [] && NoneFullBut(Now(), PageOf(free[c][0])) && live == old(live)
    {
      ghost var h := Now();
      hide Inv, Core, NoneFullBut, WithPages, NoneFull, NewArena, BitsOf, ClearRun;
      InvCore(h);
      CoreShape(h);
      var page := AllocPages(1);
      if page.None? {
        return false;
      }
      var p := page.value;
      NewArenaKeeps(h, p, c);
      FillClass(p, c);
      NewArenaIs(h, p, c);
      BlockInPage(p, c, Total(c) - 1);
      return true;
    }

    /** list_pop and the arena's count. */
    method TakeHead(c: nat) returns (a: nat)
      requires c < CLASSES == |free| && free[c] != [] && PageOf(free[c][0]) in arenas
      requires arenas[PageOf(free[c][0])].Small? && arenas[PageOf(free[c][0])].count > 0
      modifies this
      ensures a == old(free[c][0]) && Now() == Pop(old(Now()), c)
    {
      a := free[c][0];
      free := free[c := free[c][1..]];
      var p := PageOf(a);
      arenas := arenas[p := Small(c, arenas[p].count - 1)];
      live := live[a := BlockSize(c)];
    }

    /** The end of kmalloc. */
    method PopBlock(c: nat) returns (a: nat)
      requires Core(Now()) && c < CLASSES && free[c] != []
      requires NoneFull(Now()) || NoneFullBut(Now(), PageOf(free[c][0]))
      modifies this
      ensures Inv(Now()) && a !in old(live) && live == old(live)[a := BlockSize(c)]
    {
      CoreShape(Now());
      PopKeeps(Now(), c);
      hide Inv, Core, NoneFull, NoneFullBut, Pop;
      a := TakeHead(c);
    }

    method AllocLarge(size: nat) returns (ptr: Option<nat>)
      requires Inv(Now()) && LargeCount(size) > 0
      modifies this, pages.bits
      ensures ptr.None? ==> Now() == old(Now()) && forall j: nat :: !ClearRun(old(pages.View()), j, LargeCount(size))
      ensures ptr.Some? ==> Inv(Now()) && ptr.value !in old(live)
                            && live == old(live)[ptr.value := LargeCount(size) * PAGE - HEADER]
    {
      hide Inv, WithPages, LargeCount;
      var count := LargeCount(size);
      var page := AllocPages(count);
      if page.None? {
        return None;
      }
      var p := page.value;
      NewLargeKeeps(old(Now()), p, count);
      arenas := arenas[p := Large(count)];
      live := live[p * PAGE + HEADER := count * PAGE - HEADER];
      NewLargeIs(old(Now()), p, count);
      return Some(p * PAGE + HEADER);
    }

    /** kmalloc: a block nobody holds, of at least the size asked for unless the
        page count wrapped round; None stands for the panic without pages. */
    method KMalloc(size: nat) returns (ptr: Option<nat>)
      requires Inv(Now()) && size < LIMIT && (size > 1024 ==> LargeCount(size) > 0)
      modifies this, pages.bits
      ensures Inv(Now())
      ensures ptr.None? ==> Now() == old(Now()) && var n := if size > 1024 then LargeCount(size) else 1;
              forall j: nat :: !ClearRun(old(pages.View()), j, n)
      ensures ptr.Some? ==>
              ptr.value !in old(live) && ptr.value in live && live == old(live)[ptr.value := live[ptr.value]]
      ensures ptr.Some? ==> (live[ptr.value] >= size <==> size + HEADER + PAGE - 1 < LIMIT)
      ensures ptr.Some? && size <= 1024 ==> live[ptr.value] == 16 || live[ptr.value] < 2 * size
    {
      if size > 1024 {
        LargeFits(size);
        ptr := AllocLarge(size);
        return;
      }
      var c := FindClass(size);
      assert c > 0 ==> BlockSize(c) == 2 * BlockSize(c - 1);
      if free[c] == [] {
        var ok := GrowClass(c);
        if !ok {
          return None;
        }
      }
      var a := PopBlock(c);
      return Some(a);
    }

    /** kfree: an arena whose blocks are all back goes back to the page map. */
    method KFree(ptr: nat)
      requires Inv(Now()) && ptr in live
      modifies this, pages.bits
      ensures Inv(Now()) && live == old(live) - {ptr}
    {
      ghost var h := Now();
      var p := PageOf(ptr);
      if arenas[p].Large? {
        var n := arenas[p].pages;
        DropLargeKeeps(h, p, n);
        FreePages(p, n);
        arenas := arenas - {p};
        live := live - {ptr};
        assert Now() == DropLarge(h, p, n);
        return;
      }
      var c := arenas[p].cls;
      assert SmallAt(h, p, c);
      PushKeeps(h, ptr, c);
      PushBlock(ptr);
      if arenas[p].count == Total(c) {
        FreeArena(p, c);
      }
    }

    /** kfree's list_push and count. */
    method PushBlock(ptr: nat)
      requires PageOf(ptr) in arenas && arenas[PageOf(ptr)].Small? && arenas[PageOf(ptr)].cls < CLASSES == |free|
      modifies this
      ensures Now() == Push(old(Now()), ptr, old(arenas)[PageOf(ptr)].cls)
    {
      var p := PageOf(ptr);
      var c := arenas[p].cls;
      free := free[c := [ptr] + free[c]];
      arenas := arenas[p := Small(c, arenas[p].count + 1)];
      live := live - {ptr};
    }

    /** kfree's loop over the blocks of an arena that is wholly free. */
    method RemoveBlocks(p: nat, c: nat)
      requires c < CLASSES == |free| && Distinct(free[c])
      requires forall a: nat | a in free[c] && PageOf(a) == p :: a in Blocks(p, c, Total(c))
      modifies this`free
      ensures free == old(free)[c := Others(old(free[c]), p)]
    {
      var all := free[c];
      var list := all;
      MinusNone(list);
      assert Blocks(p, c, 0) == {};
      for i := 0 to Total(c)
        invariant list == Minus(all, Blocks(p, c, i)) && free == old(free)
      {
        MinusOne(all, p, c, i);
        list := Without(list, Block(p, c, i));
      }
      MinusAll(all, p, c);
      free := free[c := list];
    }

    /** The end of kfree. */
    method FreeArena(p: nat, c: nat)
      requires Core(Now()) && NoneFullBut(Now(), p) && Full(Now(), p, c)
      modifies this, pages.bits
      ensures Inv(Now()) && live == old(live)
    {
      ghost var h := Now();
      hide Inv, Core, NoneFullBut, Full, DropArena, BitsOf, SetBits, Total, Blocks, PageOf, Others;
      DropFullKeeps(h, p, c);
      RemoveBlocks(p, c);
      FreePages(p, 1);
      arenas := arenas - {p};
    }
  }

  // ----- the list while an arena's blocks are being removed -----

  function Minus(list: seq<nat>, gone: set<nat>): seq<nat> {
    if list == [] then [] else if list[0] in gone then Minus(list[1..], gone) else [list[0]] + Minus(list[1..], gone)
  }

  lemma {:induction false} MinusIs(list: seq<nat>, gone: set<nat>)
    ensures forall a: nat :: a in Minus(list, gone) <==> a in list && a !in gone
  {
    if list != [] {
      MinusIs(list[1..], gone);
      assert list == [list[0]] + list[1..];
    }
  }

  lemma {:induction false} MinusNone(list: seq<nat>)
    ensures Minus(list, {}) == list
  {
    if list != [] { MinusNone(list[1..]); }
  }

  lemma {:induction false} MinusWithout(list: seq<nat>, gone: set<nat>, a: nat)
    requires Distinct(list) && a !in gone
    ensures Without(Minus(list, gone), a) == Minus(list, gone + {a})
  {
    if list != [] {
      assert list == [list[0]] + list[1..] && list[0] !in list[1..];
      MinusWithout(list[1..], gone, a);
      if list[0] == a {
        MinusSame(list[1..], gone, a);
      }
    }
  }

  lemma {:induction false} MinusSame(list: seq<nat>, gone: set<nat>, a: nat)
    requires a !in list
    ensures Minus(list, gone + {a}) == Minus(list, gone)
  {
    if list != [] {
      assert list == [list[0]] + list[1..];
      MinusSame(list[1..], gone, a);
    }
  }

  lemma MinusOne(list: seq<nat>, p: nat, c: nat, i: nat)
    requires Distinct(list) && c < CLASSES && i < Total(c)
    ensures Without(Minus(list, Blocks(p, c, i)), Block(p, c, i)) == Minus(list, Blocks(p, c, i + 1))
  {
    forall j: nat | j < i ensures Block(p, c, j) != Block(p, c, i) { BlocksApart(p, c, j, i); }
    assert Blocks(p, c, i + 1) == Blocks(p, c, i) + {Block(p, c, i)};
    MinusWithout(list, Blocks(p, c, i), Block(p, c, i));
  }

  lemma {:induction false} MinusOthers(list: seq<nat>, p: nat, gone: set<nat>)
    requires forall a: nat | a in list :: a in gone <==> PageOf(a) == p
    ensures Minus(list, gone) == Others(list, p)
  {
    if list != [] {
      assert list == [list[0]] + list[1..];
      MinusOthers(list[1..], p, gone);
    }
  }

  lemma MinusAll(list: seq<nat>, p: nat, c: nat)
    requires c < CLASSES && forall a: nat | a in list && PageOf(a) == p :: a in Blocks(p, c, Total(c))
    ensures Minus(list, Blocks(p, c, Total(c))) == Others(list, p)
  {
    BlocksOn(p, c);
    MinusOthers(list, p, Blocks(p, c, Total(c)));
  }
}

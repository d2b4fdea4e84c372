/** What src/kernel/arena.c keeps: pages cut into blocks of seven sizes, a free
    list for each size, and runs of pages for anything larger. */
module Heap {
  import opened Bits
  import opened Sequences

  const PAGE := 4096
  const HEADER := 16
  const CLASSES := 7
  const LIMIT := 0x1_0000_0000

  /** arena_t: for small arenas count is how many blocks are free. */
  datatype Arena = Small(cls: nat, count: nat) | Large(pages: nat)

  /** bits is kernel_map from page base on; live maps every block handed out to the
      bytes behind it, and reserved are the pages other code took. */
  datatype State = State(bits: seq<bool>, base: nat, arenas: map<nat, Arena>, free: seq<seq<nat>>,
                         live: map<nat, nat>, reserved: set<nat>)

  function BlockSize(c: nat): (r: nat)
    requires c < CLASSES
    ensures 16 <= r <= 1024
  {
    [16, 32, 64, 128, 256, 512, 1024][c]
  }

  function Total(c: nat): (r: nat)
    requires c < CLASSES
    ensures 3 <= r <= 255
  {
    (PAGE - HEADER) / BlockSize(c)
  }

  /** arena_get_block. */
  function Block(p: nat, c: nat, i: nat): nat
    requires c < CLASSES
  {
    p * PAGE + HEADER + i * BlockSize(c)
  }

  /** arena_get_arena, as a page number. */
  function PageOf(a: nat): nat { a / PAGE }

  /** Blocks stay inside the page of their arena, so the mask finds it again. */
  lemma BlockInPage(p: nat, c: nat, i: nat)
    requires c < CLASSES && i < Total(c)
    ensures PageOf(Block(p, c, i)) == p
    ensures p * PAGE + HEADER <= Block(p, c, i) && Block(p, c, i) + BlockSize(c) <= (p + 1) * PAGE
  {
    SizeTimes(c, i);
  }

  lemma SizeTimes(c: nat, i: nat)
    requires c < CLASSES && i < Total(c)
    ensures 0 <= i * BlockSize(c) && HEADER + i * BlockSize(c) + BlockSize(c) <= PAGE
  {
    if c == 0 {} else if c == 1 {} else if c == 2 {} else if c == 3 {} else if c == 4 {} else if c == 5 {} else {}
  }

  /** Two blocks of one arena do not overlap. */
  lemma BlocksApart(p: nat, c: nat, i: nat, j: nat)
    requires c < CLASSES && i < j
    ensures Block(p, c, i) + BlockSize(c) <= Block(p, c, j)
  {
    if c == 0 {} else if c == 1 {} else if c == 2 {} else if c == 3 {} else if c == 4 {} else if c == 5 {} else {}
  }

  /** The first n blocks of an arena. */
  function Blocks(p: nat, c: nat, n: nat): set<nat>
    requires c < CLASSES
  {
    set i: nat | i < n :: Block(p, c, i)
  }

  lemma {:induction false} BlocksCount(p: nat, c: nat, n: nat)
    requires c < CLASSES
    ensures |Blocks(p, c, n)| == n
  {
    if n > 0 {
      BlocksCount(p, c, n - 1);
      forall i: nat | i < n - 1 ensures Block(p, c, i) != Block(p, c, n - 1) { BlocksApart(p, c, i, n - 1); }
      assert Blocks(p, c, n) == Blocks(p, c, n - 1) + {Block(p, c, n - 1)};
    } else {
      assert Blocks(p, c, n) == {};
    }
  }

  predicate IsBlock(a: nat, c: nat)
    requires c < CLASSES
  {
    a in Blocks(PageOf(a), c, Total(c))
  }

  // ----- pages -----

  predicate BitSet(h: State, q: nat) { h.base <= q < h.base + |h.bits| && h.bits[q - h.base] }

  predicate Covers(h: State, p: nat, q: nat) {
    p in h.arenas && match h.arenas[p] case Small(_, _) => q == p case Large(n) => p <= q < p + n
  }

  ghost predicate PagesOk(h: State) {
    && (forall q: nat :: BitSet(h, q) <==> q in h.reserved || exists p: nat :: Covers(h, p, q))
    && (forall p: nat, r: nat, q: nat | Covers(h, p, q) && Covers(h, r, q) :: p == r)
    && (forall p: nat, q: nat | Covers(h, p, q) :: q !in h.reserved)
    && (forall p: nat | p in h.arenas :: Covers(h, p, p))
  }

  // ----- blocks -----

  predicate SmallAt(h: State, p: nat, c: nat) { p in h.arenas && h.arenas[p].Small? && h.arenas[p].cls == c }

  ghost function FreeOf(h: State, p: nat, c: nat): set<nat>
    requires c < |h.free|
  {
    set a | a in h.free[c] && PageOf(a) == p
  }

  ghost predicate ListsOk(h: State) {
    && |h.free| == CLASSES
    && (forall p: nat | p in h.arenas && h.arenas[p].Small? :: h.arenas[p].cls < CLASSES)
    && (forall c: nat | c < CLASSES :: Distinct(h.free[c]))
    && (forall c: nat, a: nat | c < CLASSES && a in h.free[c] :: SmallAt(h, PageOf(a), c) && IsBlock(a, c))
    // count is exact
    && (forall p: nat, c: nat | SmallAt(h, p, c) :: h.arenas[p].count == |FreeOf(h, p, c)|)
  }

  /** Every block is either free or handed out. */
  ghost predicate LiveOk(h: State)
    requires |h.free| == CLASSES
  {
    && (forall a: nat, c: nat | c < CLASSES && SmallAt(h, PageOf(a), c) ::
          a in h.live <==> IsBlock(a, c) && a !in h.free[c])
    && (forall a: nat, c: nat | c < CLASSES && SmallAt(h, PageOf(a), c) && a in h.live :: h.live[a] == BlockSize(c))
    && (forall a: nat | PageOf(a) in h.arenas && h.arenas[PageOf(a)].Large? ::
          a in h.live <==> a == PageOf(a) * PAGE + HEADER)
    && (forall a: nat | PageOf(a) in h.arenas && h.arenas[PageOf(a)].Large? && a in h.live ::
          h.live[a] == h.arenas[PageOf(a)].pages * PAGE - HEADER)
    && (forall a: nat | a in h.live :: PageOf(a) in h.arenas)
  }

  ghost predicate Core(h: State) { PagesOk(h) && ListsOk(h) && LiveOk(h) }

  /** No small arena but p is wholly free. */
  ghost predicate NoneFullBut(h: State, p: nat) {
    forall q: nat, c: nat | c < CLASSES && q != p && SmallAt(h, q, c) :: h.arenas[q].count < Total(c)
  }

  ghost predicate NoneFull(h: State) {
    forall q: nat, c: nat | c < CLASSES && SmallAt(h, q, c) :: h.arenas[q].count < Total(c)
  }

  ghost predicate Inv(h: State) { Core(h) && NoneFull(h) }

  // ----- what it means -----

  lemma LiveInside(h: State, a: nat)
    requires Core(h) && a in h.live
    ensures PageOf(a) * PAGE + HEADER <= a && h.live[a] > 0
    ensures match h.arenas[PageOf(a)]
            case Small(_, _) => a + h.live[a] <= (PageOf(a) + 1) * PAGE
            case Large(n) => a + h.live[a] == (PageOf(a) + n) * PAGE
  {
    var p := PageOf(a);
    assert Covers(h, p, p);
    if h.arenas[p].Small? {
      var c := h.arenas[p].cls;
      assert SmallAt(h, p, c) && IsBlock(a, c);
      var i: nat :| i < Total(c) && a == Block(p, c, i);
      BlockInPage(p, c, i);
    }
  }

  lemma ArenasApart(h: State, p: nat, q: nat)
    requires PagesOk(h) && p in h.arenas && q in h.arenas && p < q
    ensures match h.arenas[p] case Small(_, _) => p + 1 <= q case Large(n) => p + n <= q
  {
    assert Covers(h, q, q) && !Covers(h, p, q);
  }

  /** Blocks handed out never overlap: each lies behind the header of its arena
      and inside pages that are set in the map, its own and nobody else's. */
  lemma LiveApart(h: State, a: nat, b: nat)
    requires Core(h) && a in h.live && b in h.live && a < b
    ensures a + h.live[a] <= b
  {
    var p, q := PageOf(a), PageOf(b);
    LiveInside(h, a);
    LiveInside(h, b);
    if p != q {
      ArenasApart(h, p, q);
    } else if h.arenas[p].Small? {
      var c := h.arenas[p].cls;
      assert SmallAt(h, p, c) && IsBlock(a, c) && IsBlock(b, c);
      var i: nat :| i < Total(c) && a == Block(p, c, i);
      var j: nat :| j < Total(c) && b == Block(p, c, j);
      if i < j { BlocksApart(p, c, i, j); } else if j < i { BlocksApart(p, c, j, i); }
    }
  }

  // ----- taking and giving back pages -----

  function WithPages(h: State, p: nat, n: nat, value: bool): State {
    if p >= h.base then h.(bits := SetBits(h.bits, p - h.base, n, value)) else h
  }

  /** A run of free pages becomes an arena. */
  lemma AddPages(h: State, h': State, p: nat, n: nat, arena: Arena)
    requires PagesOk(h) && p >= h.base && n > 0 && ClearRun(h.bits, p - h.base, n)
    requires h'.bits == WithPages(h, p, n, true).bits && h'.base == h.base && h'.reserved == h.reserved
    requires h'.arenas == h.arenas[p := arena] && n == match arena case Small(_, _) => 1 case Large(k) => k
    ensures PagesOk(h') && p !in h.arenas
  {
    forall q: nat | p <= q < p + n ensures !BitSet(h, q) && (forall r: nat :: !Covers(h, r, q)) && q !in h.reserved {
      assert !h.bits[q - h.base];
    }
    assert p in h.arenas ==> Covers(h, p, p);
    assert forall q: nat :: Covers(h', p, q) <==> p <= q < p + n;
    assert forall r: nat, q: nat | r != p :: Covers(h', r, q) == Covers(h, r, q);
    assert forall q: nat :: BitSet(h', q) <==> BitSet(h, q) || p <= q < p + n;
    hide BitSet, Covers, WithPages;
    forall q: nat ensures BitSet(h', q) <==> q in h'.reserved || exists r: nat :: Covers(h', r, q) {
      if BitSet(h, q) && q !in h.reserved {
        var r: nat :| Covers(h, r, q);
        assert r != p ==> Covers(h', r, q);
      }
      if p <= q < p + n { assert Covers(h', p, q); }
    }
  }

  /** An arena's pages go back to the map. */
  lemma RemovePages(h: State, h': State, p: nat, n: nat)
    requires PagesOk(h) && p in h.arenas && n == match h.arenas[p] case Small(_, _) => 1 case Large(k) => k
    requires h'.bits == WithPages(h, p, n, false).bits && h'.base == h.base && h'.reserved == h.reserved
    requires h'.arenas == h.arenas - {p}
    ensures PagesOk(h') && p >= h.base && (forall q: nat | p <= q < p + n :: BitSet(h, q))
  {
    assert forall q: nat :: Covers(h, p, q) <==> p <= q < p + n;
    assert BitSet(h, p) by { assert Covers(h, p, p); }
    assert forall r: nat, q: nat | r != p :: Covers(h', r, q) == Covers(h, r, q);
    assert forall q: nat :: !Covers(h', p, q);
    assert forall q: nat :: BitSet(h', q) <==> BitSet(h, q) && !(p <= q < p + n);
    assert p >= h.base;
    hide BitSet, Covers, WithPages;
    assert forall q: nat | p <= q < p + n :: BitSet(h, q) by {
      forall q: nat | p <= q < p + n ensures BitSet(h, q) { assert Covers(h, p, q); }
    }
    forall q: nat ensures BitSet(h', q) <==> q in h'.reserved || exists r: nat :: Covers(h', r, q) {
      assert Covers(h, p, q) <==> p <= q < p + n;
      if BitSet(h', q) && q !in h.reserved {
        var r: nat :| Covers(h, r, q);
        assert Covers(h', r, q);
      }
    }
  }

  // ----- one block more or less on a free list -----

  /** a, whose arena is p, enters or leaves the free list of its class. */
  function SetFree(h: State, p: nat, c: nat, list: seq<nat>, count: nat, live: map<nat, nat>): State
    requires c < |h.free|
  {
    h.(free := h.free[c := list], arenas := h.arenas[p := Small(c, count)], live := live)
  }

  lemma SamePages(h: State, h': State, p: nat)
    requires PagesOk(h) && h'.bits == h.bits && h'.base == h.base && h'.reserved == h.reserved
    requires p in h.arenas && h.arenas[p].Small? && p in h'.arenas && h'.arenas[p].Small?
             && h'.arenas == h.arenas[p := h'.arenas[p]]
    ensures PagesOk(h')
  {
    assert forall r: nat, q: nat :: Covers(h', r, q) == Covers(h, r, q);
    assert forall q: nat :: BitSet(h', q) == BitSet(h, q);
    hide Covers, BitSet;
  }

  /** list is the free list of a's class without a, if a was on it, else with it. */
  ghost predicate Toggled(h: State, c: nat, a: nat, list: seq<nat>, count: nat, live: map<nat, nat>) {
    && |h.free| == CLASSES && c < CLASSES && SmallAt(h, PageOf(a), c) && IsBlock(a, c) && Distinct(list)
    && if a in h.free[c] then
         && (forall b :: b in list <==> b in h.free[c] && b != a)
         && live == h.live[a := BlockSize(c)] && count == h.arenas[PageOf(a)].count - 1
       else
         && (forall b :: b in list <==> b in h.free[c] || b == a)
         && live == h.live - {a} && count == h.arenas[PageOf(a)].count + 1
  }

  lemma ToggledCount(h: State, c: nat, a: nat, list: seq<nat>, count: nat, live: map<nat, nat>)
    requires ListsOk(h) && Toggled(h, c, a, list, count, live)
    ensures var h' := SetFree(h, PageOf(a), c, list, count, live);
            count == |FreeOf(h', PageOf(a), c)|
              && forall q: nat, d: nat | d < CLASSES && q != PageOf(a) :: FreeOf(h', q, d) == FreeOf(h, q, d)
  {
    var p := PageOf(a);
    var h' := SetFree(h, p, c, list, count, live);
    assert FreeOf(h', p, c) == if a in h.free[c] then FreeOf(h, p, c) - {a} else FreeOf(h, p, c) + {a};
    forall q: nat, d: nat | d < CLASSES && q != p ensures FreeOf(h', q, d) == FreeOf(h, q, d) {
      assert d != c ==> h'.free[d] == h.free[d];
    }
  }

  lemma ToggledLists(h: State, c: nat, a: nat, list: seq<nat>, count: nat, live: map<nat, nat>)
    requires ListsOk(h) && Toggled(h, c, a, list, count, live)
    ensures ListsOk(SetFree(h, PageOf(a), c, list, count, live))
  {
    var h' := SetFree(h, PageOf(a), c, list, count, live);
    ToggledCount(h, c, a, list, count, live);
    assert forall q: nat, d: nat :: SmallAt(h', q, d) == SmallAt(h, q, d);
    assert forall q: nat | q != PageOf(a) && q in h.arenas :: h'.arenas[q] == h.arenas[q];
    assert h'.free[c] == list && forall d: nat | d < CLASSES && d != c :: h'.free[d] == h.free[d];
    hide FreeOf, IsBlock, SmallAt, PageOf;
  }

  lemma ToggledLive(h: State, c: nat, a: nat, list: seq<nat>, count: nat, live: map<nat, nat>)
    requires ListsOk(h) && LiveOk(h) && Toggled(h, c, a, list, count, live)
    ensures LiveOk(SetFree(h, PageOf(a), c, list, count, live))
  {
    var h' := SetFree(h, PageOf(a), c, list, count, live);
    SetFreeIs(h, c, a, list, count, live);
    assert SmallAt(h, PageOf(a), c) ==> forall d: nat | SmallAt(h, PageOf(a), d) :: d == c;
    hide FreeOf, IsBlock, SmallAt, PageOf, ListsOk, SetFree;
  }

  lemma SetFreeIs(h: State, c: nat, a: nat, list: seq<nat>, count: nat, live: map<nat, nat>)
    requires c < |h.free| && SmallAt(h, PageOf(a), c)
    ensures var h' := SetFree(h, PageOf(a), c, list, count, live);
            && |h'.free| == |h.free| && h'.live == live && h'.free[c] == list
            && (forall d: nat | d < |h.free| && d != c :: h'.free[d] == h.free[d])
            && (forall q: nat, d: nat :: SmallAt(h', q, d) == SmallAt(h, q, d))
            && (forall q: nat :: q in h'.arenas <==> q in h.arenas)
            && (forall q: nat | q in h.arenas :: h.arenas[q].Large? <==> h'.arenas[q].Large?)
            && (forall q: nat | q in h.arenas && h.arenas[q].Large? :: h'.arenas[q] == h.arenas[q])
  {}

  /** Taking the block a off its list, or putting it back. */
  lemma ToggledKeeps(h: State, c: nat, a: nat, list: seq<nat>, count: nat, live: map<nat, nat>)
    requires Core(h) && Toggled(h, c, a, list, count, live)
    ensures Core(SetFree(h, PageOf(a), c, list, count, live))
  {
    SamePages(h, SetFree(h, PageOf(a), c, list, count, live), PageOf(a));
    hide PagesOk, LiveOk;
    ToggledLists(h, c, a, list, count, live);
    ToggledLive(h, c, a, list, count, live);
  }

  // ----- arenas come and go -----

  /** The blocks as kmalloc pushes them: the last one first. */
  function BlockList(p: nat, c: nat, n: nat): seq<nat>
    requires c < CLASSES
  {
    if n == 0 then [] else [Block(p, c, n - 1)] + BlockList(p, c, n - 1)
  }

  lemma {:induction false} BlockListIs(p: nat, c: nat, n: nat)
    requires c < CLASSES
    ensures Distinct(BlockList(p, c, n)) && forall a: nat :: a in BlockList(p, c, n) <==> a in Blocks(p, c, n)
  {
    if n > 0 {
      BlockListIs(p, c, n - 1);
      forall i: nat | i < n - 1 ensures Block(p, c, i) != Block(p, c, n - 1) { BlocksApart(p, c, i, n - 1); }
      assert Blocks(p, c, n) == Blocks(p, c, n - 1) + {Block(p, c, n - 1)};
      assert Block(p, c, n - 1) !in Blocks(p, c, n - 1);
      hide Block, Blocks;
      PushIs(BlockList(p, c, n - 1), Block(p, c, n - 1));
    }
  }

  lemma BlocksOn(p: nat, c: nat)
    requires c < CLASSES
    ensures forall a: nat | a in Blocks(p, c, Total(c)) :: PageOf(a) == p && IsBlock(a, c)
    ensures forall a: nat | PageOf(a) == p && IsBlock(a, c) :: a in Blocks(p, c, Total(c))
  {
    forall i: nat | i < Total(c) ensures PageOf(Block(p, c, i)) == p { BlockInPage(p, c, i); }
  }

  /** A page made into an arena whose blocks are all free. */
  function NewArena(h: State, p: nat, c: nat): State
    requires c < CLASSES == |h.free|
  {
    WithPages(h, p, 1, true).(arenas := h.arenas[p := Small(c, Total(c))],
      free := h.free[c := BlockList(p, c, Total(c))])
  }

  lemma NewArenaIs(h: State, p: nat, c: nat)
    requires c < CLASSES == |h.free| && p >= h.base
    ensures NewArena(h, p, c) ==
            h.(bits := WithPages(h, p, 1, true).bits, arenas := h.arenas[p := Small(c, Total(c))],
              free := h.free[c := BlockList(p, c, Total(c))])
  {}

  lemma NewArenaLists(h: State, p: nat, c: nat)
    requires ListsOk(h) && c < CLASSES && h.free[c] == [] && p !in h.arenas
    ensures ListsOk(NewArena(h, p, c))
  {
    var h' := NewArena(h, p, c);
    BlockListIs(p, c, Total(c));
    BlocksOn(p, c);
    BlocksCount(p, c, Total(c));
    assert FreeOf(h', p, c) == Blocks(p, c, Total(c));
    forall q: nat, d: nat | d < CLASSES && q != p ensures FreeOf(h', q, d) == FreeOf(h, q, d) {
      assert d != c ==> h'.free[d] == h.free[d];
    }
    assert forall q: nat, d: nat | q != p :: SmallAt(h', q, d) == SmallAt(h, q, d);
    assert forall d: nat :: SmallAt(h', p, d) <==> d == c;
    assert forall q: nat | q != p && q in h.arenas :: h'.arenas[q] == h.arenas[q];
    assert h'.arenas.Keys == h.arenas.Keys + {p} && h'.arenas[p] == Small(c, Total(c));
    assert h'.free[c] == BlockList(p, c, Total(c)) && forall d: nat | d < CLASSES && d != c :: h'.free[d] == h.free[d];
    assert forall q: nat, d: nat | SmallAt(h, q, d) :: q in h.arenas && d < CLASSES;
    hide FreeOf, IsBlock, SmallAt, PageOf, Blocks, BlockList, NewArena, Total;
  }

  lemma NewArenaLive(h: State, p: nat, c: nat)
    requires ListsOk(h) && LiveOk(h) && c < CLASSES && h.free[c] == [] && p !in h.arenas
    ensures LiveOk(NewArena(h, p, c))
  {
    var h' := NewArena(h, p, c);
    BlockListIs(p, c, Total(c));
    BlocksOn(p, c);
    assert forall q: nat, d: nat | q != p :: SmallAt(h', q, d) == SmallAt(h, q, d);
    assert forall d: nat :: SmallAt(h', p, d) <==> d == c;
    assert forall q: nat | q != p && q in h.arenas :: h'.arenas[q] == h.arenas[q];
    assert h'.arenas.Keys == h.arenas.Keys + {p} && h'.arenas[p] == Small(c, Total(c)) && h'.live == h.live;
    assert h'.free[c] == BlockList(p, c, Total(c)) && forall d: nat | d < CLASSES && d != c :: h'.free[d] == h.free[d];
    assert forall a: nat | PageOf(a) != p :: a !in h'.free[c];
    hide FreeOf, IsBlock, SmallAt, PageOf, Blocks, BlockList, NewArena, Total, ListsOk;
  }

  lemma NewArenaKeeps(h: State, p: nat, c: nat)
    requires Inv(h) && c < CLASSES && h.free[c] == [] && p >= h.base && ClearRun(h.bits, p - h.base, 1)
    ensures Core(NewArena(h, p, c)) && NoneFullBut(NewArena(h, p, c), p) && p !in h.arenas
  {
    var h' := NewArena(h, p, c);
    assert forall q: nat, d: nat | q != p && SmallAt(h', q, d) :: SmallAt(h, q, d) && h'.arenas[q] == h.arenas[q];
    AddPages(h, h', p, 1, Small(c, Total(c)));
    hide PagesOk, LiveOk, SmallAt, NewArena, WithPages, Total;
    NewArenaLists(h, p, c);
    NewArenaLive(h, p, c);
  }

  // ----- an arena all of whose blocks are free -----

  /** What is left of a free list when one arena's blocks have gone. */
  function Others(list: seq<nat>, p: nat): (r: seq<nat>)
  {
    if list == [] then [] else if PageOf(list[0]) == p then Others(list[1..], p) else [list[0]] + Others(list[1..], p)
  }

  lemma {:induction false} OthersIs(list: seq<nat>, p: nat)
    ensures forall a: nat :: a in Others(list, p) <==> a in list && PageOf(a) != p
    ensures Distinct(list) ==> Distinct(Others(list, p))
  {
    if list != [] {
      OthersIs(list[1..], p);
      assert list == [list[0]] + list[1..];
      hide PageOf;
      if Distinct(list) {
        assert Distinct(list[1..]) && list[0] !in list[1..];
        assert list[0] !in Others(list[1..], p);
      }
    }
  }

  function DropArena(h: State, p: nat, c: nat): State
    requires c < CLASSES == |h.free|
  {
    WithPages(h, p, 1, false).(arenas := h.arenas - {p}, free := h.free[c := Others(h.free[c], p)])
  }

  lemma DropArenaIs(h: State, p: nat, c: nat)
    requires c < CLASSES == |h.free| && p >= h.base
    ensures DropArena(h, p, c) ==
            h.(bits := WithPages(h, p, 1, false).bits, arenas := h.arenas - {p},
              free := h.free[c := Others(h.free[c], p)])
  {}

  lemma FullIsFree(h: State, p: nat, c: nat)
    requires ListsOk(h) && SmallAt(h, p, c) && h.arenas[p].count == Total(c)
    ensures FreeOf(h, p, c) == Blocks(p, c, Total(c))
  {
    BlocksOn(p, c);
    BlocksCount(p, c, Total(c));
    assert FreeOf(h, p, c) <= Blocks(p, c, Total(c));
    SameSize(FreeOf(h, p, c), Blocks(p, c, Total(c)));
  }

  lemma SameSize(a: set<nat>, b: set<nat>)
    requires a <= b && |a| == |b|
    ensures a == b
  {
    assert |b - a| == |b| - |a|;
  }

  lemma CountBound(h: State, p: nat, c: nat)
    requires ListsOk(h) && SmallAt(h, p, c)
    ensures h.arenas[p].count <= Total(c)
  {
    BlocksOn(p, c);
    BlocksCount(p, c, Total(c));
    assert FreeOf(h, p, c) <= Blocks(p, c, Total(c));
    assert |Blocks(p, c, Total(c)) - FreeOf(h, p, c)| == |Blocks(p, c, Total(c))| - |FreeOf(h, p, c)|;
  }

  lemma FullBlocks(h: State, p: nat, c: nat)
    requires Core(h) && SmallAt(h, p, c) && h.arenas[p].count == Total(c)
    ensures forall a: nat | a in h.free[c] && PageOf(a) == p :: a in Blocks(p, c, Total(c))
  {
    FullIsFree(h, p, c);
  }

  lemma DropArenaLists(h: State, p: nat, c: nat)
    requires ListsOk(h) && SmallAt(h, p, c)
    ensures ListsOk(DropArena(h, p, c))
  {
    var h' := DropArena(h, p, c);
    OthersIs(h.free[c], p);
    forall q: nat, d: nat | d < CLASSES && q != p ensures FreeOf(h', q, d) == FreeOf(h, q, d) {
      assert d != c ==> h'.free[d] == h.free[d];
    }
    assert forall q: nat, d: nat | q != p :: SmallAt(h', q, d) == SmallAt(h, q, d);
    assert forall d: nat :: !SmallAt(h', p, d) && (SmallAt(h, p, d) <==> d == c);
    assert forall q: nat | q in h'.arenas :: q in h.arenas && q != p && h'.arenas[q] == h.arenas[q];
    assert forall q: nat, d: nat | SmallAt(h, q, d) :: q in h.arenas && d < CLASSES;
    assert forall q: nat, d: nat | SmallAt(h', q, d) :: q in h'.arenas;
    assert h'.free[c] == Others(h.free[c], p) && forall d: nat | d < CLASSES && d != c :: h'.free[d] == h.free[d];
    hide FreeOf, IsBlock, SmallAt, PageOf, Others, DropArena, Total;
  }

  lemma DropArenaLive(h: State, p: nat, c: nat)
    requires ListsOk(h) && LiveOk(h) && SmallAt(h, p, c) && h.arenas[p].count == Total(c)
    ensures LiveOk(DropArena(h, p, c))
  {
    var h' := DropArena(h, p, c);
    FullIsFree(h, p, c);
    BlocksOn(p, c);
    OthersIs(h.free[c], p);
    assert forall a: nat | PageOf(a) == p :: a !in h.live by {
      forall a: nat | PageOf(a) == p ensures a !in h.live {
        if IsBlock(a, c) { assert a in FreeOf(h, p, c); }
      }
    }
    assert forall q: nat, d: nat | q != p :: SmallAt(h', q, d) == SmallAt(h, q, d);
    assert forall d: nat :: !SmallAt(h', p, d);
    assert forall q: nat | q != p && q in h.arenas :: q in h'.arenas && h'.arenas[q] == h.arenas[q];
    assert forall q: nat | q in h'.arenas :: q in h.arenas && q != p;
    assert h'.free[c] == Others(h.free[c], p) && h'.live == h.live
      && forall d: nat | d < CLASSES && d != c :: h'.free[d] == h.free[d];
    hide FreeOf, IsBlock, SmallAt, PageOf, Others, DropArena, Total, ListsOk, Blocks;
  }

  /** An arena that has become wholly free goes, and then none is left that is. */
  lemma DropArenaKeeps(h: State, p: nat, c: nat)
    requires Core(h) && NoneFullBut(h, p) && SmallAt(h, p, c) && h.arenas[p].count == Total(c)
    ensures Inv(DropArena(h, p, c)) && p >= h.base && BitSet(h, p)
  {
    var h' := DropArena(h, p, c);
    RemovePages(h, h', p, 1);
    DropArenaLists(h, p, c);
    DropArenaLive(h, p, c);
    assert forall q: nat, d: nat | SmallAt(h', q, d) :: q != p && SmallAt(h, q, d) && h'.arenas[q] == h.arenas[q];
    hide PagesOk, ListsOk, LiveOk, SmallAt, DropArena;
  }

  predicate Full(h: State, p: nat, c: nat) { c < CLASSES && SmallAt(h, p, c) && h.arenas[p].count == Total(c) }

  lemma DropFullKeeps(h: State, p: nat, c: nat)
    requires Core(h) && NoneFullBut(h, p) && Full(h, p, c)
    ensures c < CLASSES == |h.free| && p >= h.base && BitSet(h, p) && Distinct(h.free[c])
    ensures forall a: nat | a in h.free[c] && PageOf(a) == p :: a in Blocks(p, c, Total(c))
    ensures Inv(h.(bits := WithPages(h, p, 1, false).bits, arenas := h.arenas - {p},
            free := h.free[c := Others(h.free[c], p)]))
  {
    hide PagesOk, NoneFullBut, LiveOk, Inv;
    DropArenaKeeps(h, p, c);
    FullBlocks(h, p, c);
    DropArenaIs(h, p, c);
  }

  // ----- large runs -----

  function NewLarge(h: State, p: nat, n: nat): State
    requires n > 0
  {
    WithPages(h, p, n, true).(arenas := h.arenas[p := Large(n)], live := h.live[p * PAGE + HEADER := n * PAGE - HEADER])
  }

  function DropLarge(h: State, p: nat, n: nat): State {
    WithPages(h, p, n, false).(arenas := h.arenas - {p}, live := h.live - {p * PAGE + HEADER})
  }

  lemma NewLargeIs(h: State, p: nat, n: nat)
    requires n > 0
    ensures NewLarge(h, p, n) ==
            h.(bits := WithPages(h, p, n, true).bits, arenas := h.arenas[p := Large(n)],
              live := h.live[p * PAGE + HEADER := n * PAGE - HEADER])
  {}

  lemma LargeLists(h: State, h': State, p: nat)
    requires ListsOk(h) && h'.free == h.free && (p in h.arenas ==> h.arenas[p].Large?)
    requires h'.arenas == h.arenas - {p} || exists n: nat :: h'.arenas == h.arenas[p := Large(n)]
    ensures ListsOk(h')
  {
    assert forall q: nat, d: nat :: SmallAt(h', q, d) == SmallAt(h, q, d);
    assert forall q: nat, d: nat | d < CLASSES :: FreeOf(h', q, d) == FreeOf(h, q, d);
    assert forall q: nat | q in h'.arenas && h'.arenas[q].Small? :: q in h.arenas && h'.arenas[q] == h.arenas[q];
    assert forall q: nat, d: nat | SmallAt(h', q, d) :: q in h'.arenas && h'.arenas[q].Small? && d < CLASSES;
    hide FreeOf, IsBlock, SmallAt, PageOf;
  }

  lemma NewLargeKeeps(h: State, p: nat, n: nat)
    requires Inv(h) && n > 0 && p >= h.base && ClearRun(h.bits, p - h.base, n)
    ensures Inv(NewLarge(h, p, n)) && p * PAGE + HEADER !in h.live
  {
    var h' := NewLarge(h, p, n);
    AddPages(h, h', p, n, Large(n));
    LargeLists(h, h', p);
    assert PageOf(p * PAGE + HEADER) == p;
    assert forall q: nat, d: nat :: SmallAt(h', q, d) ==> SmallAt(h, q, d) && h'.arenas[q] == h.arenas[q];
    NewLargeLive(h, p, n);
    hide PagesOk, ListsOk, LiveOk, SmallAt, NewLarge, WithPages;
  }

  lemma NewLargeLive(h: State, p: nat, n: nat)
    requires |h.free| == CLASSES && LiveOk(h) && n > 0 && p !in h.arenas
    ensures LiveOk(NewLarge(h, p, n)) && p * PAGE + HEADER !in h.live
  {
    var h' := NewLarge(h, p, n);
    var a := p * PAGE + HEADER;
    assert PageOf(a) == p && a !in h.live;
    assert h'.free == h.free && h'.live == h.live[a := n * PAGE - HEADER] && h'.arenas == h.arenas[p := Large(n)];
    hide IsBlock, NewLarge, BlockSize;
    forall b: nat, c: nat | c < CLASSES && SmallAt(h', PageOf(b), c)
      ensures b in h'.live <==> IsBlock(b, c) && b !in h'.free[c]
      ensures b in h'.live ==> h'.live[b] == BlockSize(c)
    {
      assert SmallAt(h, PageOf(b), c) && b != a;
    }
    forall b: nat | PageOf(b) in h'.arenas && h'.arenas[PageOf(b)].Large?
      ensures b in h'.live <==> b == PageOf(b) * PAGE + HEADER
      ensures b in h'.live ==> h'.live[b] == h'.arenas[PageOf(b)].pages * PAGE - HEADER
    {
      assert PageOf(b) != p ==> PageOf(b) in h.arenas && h.arenas[PageOf(b)].Large? && b != a;
    }
    forall b: nat | b in h'.live ensures PageOf(b) in h'.arenas {
      assert b != a ==> b in h.live;
    }
  }

  lemma DropLargeKeeps(h: State, p: nat, n: nat)
    requires Inv(h) && p in h.arenas && h.arenas[p] == Large(n)
    ensures Inv(DropLarge(h, p, n)) && p >= h.base && forall q: nat | p <= q < p + n :: BitSet(h, q)
  {
    var h' := DropLarge(h, p, n);
    RemovePages(h, h', p, n);
    LargeLists(h, h', p);
    assert forall q: nat, d: nat :: SmallAt(h', q, d) ==> SmallAt(h, q, d) && h'.arenas[q] == h.arenas[q];
    DropLargeLive(h, p, n);
    hide PagesOk, ListsOk, LiveOk, SmallAt, DropLarge, WithPages, BitSet;
  }

  lemma DropLargeLive(h: State, p: nat, n: nat)
    requires |h.free| == CLASSES && LiveOk(h) && p in h.arenas && h.arenas[p] == Large(n)
    ensures LiveOk(DropLarge(h, p, n))
  {
    var h' := DropLarge(h, p, n);
    var a := p * PAGE + HEADER;
    assert PageOf(a) == p;
    assert forall q: nat, d: nat :: SmallAt(h', q, d) == SmallAt(h, q, d);
    assert forall q: nat | q != p ::
      (q in h'.arenas) == (q in h.arenas) && (q in h.arenas ==> h'.arenas[q] == h.arenas[q]);
    assert h'.free == h.free && h'.live == h.live - {a} && p !in h'.arenas;
    assert forall d: nat :: !SmallAt(h', p, d);
    hide IsBlock, SmallAt, PageOf, DropLarge;
  }

  // ----- pages other code takes -----

  function Range(p: nat, n: nat): set<nat> { set q: nat | q < p + n && InRange(q, p, n) }

  /** Nothing but the page map and its owners is different. */
  lemma SameBlocks(h: State, h': State)
    requires ListsOk(h) && LiveOk(h) && h'.arenas == h.arenas && h'.free == h.free && h'.live == h.live
    ensures ListsOk(h') && LiveOk(h') && (NoneFull(h) ==> NoneFull(h'))
  {
    assert forall q: nat, d: nat :: SmallAt(h', q, d) == SmallAt(h, q, d);
    assert forall q: nat, d: nat | d < CLASSES :: FreeOf(h', q, d) == FreeOf(h, q, d);
    assert forall q: nat, d: nat | SmallAt(h, q, d) :: q in h.arenas && h.arenas[q].Small? && d < CLASSES;
    hide SmallAt, FreeOf, IsBlock, PageOf;
  }

  /** Owners of pages follow the map. */
  lemma SameCovers(h: State, h': State)
    requires h'.arenas == h.arenas
    requires PagesOk(h) && forall q: nat :: BitSet(h', q) <==> (BitSet(h, q) && q !in h.reserved) || q in h'.reserved
    requires forall q: nat | BitSet(h, q) && q !in h.reserved :: q !in h'.reserved
    ensures PagesOk(h')
  {
    assert forall r: nat, q: nat :: Covers(h', r, q) == Covers(h, r, q);
    hide BitSet, Covers;
    forall q: nat ensures BitSet(h', q) <==> q in h'.reserved || exists r: nat :: Covers(h', r, q) {
      if BitSet(h, q) && q !in h.reserved {
        var r: nat :| Covers(h, r, q);
        assert Covers(h', r, q);
      }
    }
  }

  lemma MapBits(h: State, h': State, p: nat, n: nat, value: bool)
    requires p >= h.base && p + n <= h.base + |h.bits|
    requires h'.bits == WithPages(h, p, n, value).bits && h'.base == h.base
    ensures forall q: nat :: BitSet(h', q) <==> if InRange(q, p, n) then value else BitSet(h, q)
  {}

  lemma ReservedBits(h: State)
    requires PagesOk(h)
    ensures forall q: nat | q in h.reserved :: BitSet(h, q)
  {}

  lemma RunIsClear(h: State, p: nat, n: nat)
    requires p >= h.base && ClearRun(h.bits, p - h.base, n)
    ensures p + n <= h.base + |h.bits| && forall q: nat | InRange(q, p, n) :: !BitSet(h, q)
  {
    forall q: nat | InRange(q, p, n) ensures !BitSet(h, q) { assert !h.bits[q - h.base]; }
  }

  /** alloc_kpage for other code. */
  lemma ReserveKeeps(h: State, h': State, p: nat, n: nat)
    requires Inv(h) && p >= h.base && ClearRun(h.bits, p - h.base, n)
    requires h' == WithPages(h, p, n, true).(reserved := h.reserved + Range(p, n))
    ensures Inv(h') && h.reserved !! Range(p, n)
  {
    hide BitSet, Covers, ListsOk, LiveOk, NoneFull, PagesOk, ClearRun, InRange, Range;
    RunIsClear(h, p, n);
    MapBits(h, h', p, n, true);
    RangeIs(p, n);
    SameBlocks(h, h');
    ReservedBits(h);
    SameCovers(h, h');
  }

  lemma RangeIs(p: nat, n: nat)
    ensures forall q: nat :: q in Range(p, n) <==> InRange(q, p, n)
  {}

  /** free_kpage of pages taken so. */
  lemma UnreserveKeeps(h: State, h': State, p: nat, n: nat)
    requires Inv(h) && p >= h.base && n > 0 && Range(p, n) <= h.reserved
    requires h' == WithPages(h, p, n, false).(reserved := h.reserved - Range(p, n))
    ensures Inv(h') && forall q: nat | p <= q < p + n :: BitSet(h, q)
  {
    RangeIs(p, n);
    ReservedBits(h);
    assert BitSet(h, p + n - 1) by { assert InRange(p + n - 1, p, n); }
    MapBits(h, h', p, n, false);
    assert forall q: nat :: p <= q < p + n <==> InRange(q, p, n);
    hide BitSet, Covers, ListsOk, LiveOk, NoneFull, PagesOk, InRange, Range;
    SameBlocks(h, h');
    SameCovers(h, h');
  }

  // ----- kmalloc and kfree as a whole -----

  /** Pages for a request above 1024 bytes, in 32-bit arithmetic. */
  function LargeCount(size: nat): nat { ((size + HEADER) % LIMIT + PAGE - 1) % LIMIT / PAGE }

  /** The pages suffice exactly when the sum did not wrap round. */
  lemma LargeFits(size: nat)
    requires size < LIMIT
    ensures LargeCount(size) * PAGE - HEADER >= size <==> size + HEADER + PAGE - 1 < LIMIT
  {
    if size + HEADER + PAGE - 1 >= LIMIT {
      assert LargeCount(size) <= 1;
    }
  }

  /** The block kmalloc hands out is the head of the list. */
  function Pop(h: State, c: nat): State
    requires c < CLASSES == |h.free| && h.free[c] != [] && PageOf(h.free[c][0]) in h.arenas
             && h.arenas[PageOf(h.free[c][0])].Small?
    requires h.arenas[PageOf(h.free[c][0])].count > 0
  {
    var a := h.free[c][0];
    SetFree(h, PageOf(a), c, h.free[c][1..], h.arenas[PageOf(a)].count - 1, h.live[a := BlockSize(c)])
  }

  lemma PopAllowed(h: State, c: nat)
    requires ListsOk(h) && c < CLASSES && h.free[c] != []
    ensures var a := h.free[c][0]; SmallAt(h, PageOf(a), c) && IsBlock(a, c) && h.arenas[PageOf(a)].count > 0
  {
    var a := h.free[c][0];
    assert a in h.free[c];
    assert a in FreeOf(h, PageOf(a), c);
  }

  lemma PopToggles(h: State, c: nat)
    requires ListsOk(h) && LiveOk(h) && c < CLASSES && h.free[c] != []
    requires var a := h.free[c][0]; SmallAt(h, PageOf(a), c) && IsBlock(a, c) && h.arenas[PageOf(a)].count > 0
    ensures h.free[c][0] !in h.live
    ensures var a := h.free[c][0];
            Toggled(h, c, a, h.free[c][1..], h.arenas[PageOf(a)].count - 1, h.live[a := BlockSize(c)])
  {
    var a := h.free[c][0];
    assert h.free[c] == [a] + h.free[c][1..];
    hide LiveOk;
    assert a !in h.live by { HandedOut(h, a, c); }
  }

  lemma HandedOut(h: State, a: nat, c: nat)
    requires |h.free| == CLASSES && LiveOk(h) && c < CLASSES && SmallAt(h, PageOf(a), c)
    ensures a in h.live ==> a !in h.free[c]
  {}

  lemma SmallIs(h: State, c: nat, a: nat)
    requires ListsOk(h) && SmallAt(h, PageOf(a), c)
    ensures |h.free| == CLASSES && PageOf(a) in h.arenas && h.arenas[PageOf(a)].Small? && h.arenas[PageOf(a)].cls == c
  {}

  lemma PopKeeps(h: State, c: nat)
    requires Core(h) && c < CLASSES && h.free[c] != []
    requires NoneFull(h) || NoneFullBut(h, PageOf(h.free[c][0]))
    ensures var a := h.free[c][0];
            && PageOf(a) in h.arenas && h.arenas[PageOf(a)].Small? && h.arenas[PageOf(a)].count > 0 && Inv(Pop(h, c))
            && a !in h.live && Pop(h, c).live == h.live[a := BlockSize(c)]
  {
    hide PagesOk, ListsOk, LiveOk, Toggled, SmallAt, PageOf, IsBlock, NoneFull, NoneFullBut, Total, Inv;
    ListsNine(h);
    PopAllowed(h, c);
    PopToggles(h, c);
    SmallIs(h, c, h.free[c][0]);
    PopInv(h, c, h.free[c][0], PageOf(h.free[c][0]));
  }

  lemma ListsNine(h: State)
    requires ListsOk(h)
    ensures |h.free| == CLASSES
  {}

  lemma PopInv(h: State, c: nat, a: nat, p: nat)
    requires Core(h) && c < CLASSES == |h.free| && h.free[c] != [] && a == h.free[c][0] && p == PageOf(a)
    requires SmallAt(h, p, c) && p in h.arenas && h.arenas[p].Small? && h.arenas[p].count > 0
    requires NoneFull(h) || NoneFullBut(h, p)
    requires Toggled(h, c, a, h.free[c][1..], h.arenas[p].count - 1, h.live[a := BlockSize(c)])
    ensures Inv(Pop(h, c))
  {
    hide PagesOk, ListsOk, LiveOk, Toggled, SmallAt, PageOf, NoneFull, NoneFullBut, Total;
    CountBound(h, p, c);
    OneCount(h, Pop(h, c), p, c);
    ToggledKeeps(h, c, a, h.free[c][1..], h.arenas[p].count - 1, h.live[a := BlockSize(c)]);
  }

  /** Only arena p's count changes. */
  lemma OneCount(h: State, h': State, p: nat, c: nat)
    requires SmallAt(h, p, c) && c < CLASSES && p in h'.arenas && h'.arenas[p].Small?
             && h'.arenas == h.arenas[p := Small(c, h'.arenas[p].count)]
    ensures NoneFull(h) || NoneFullBut(h, p) ==> NoneFullBut(h', p)
    ensures NoneFullBut(h', p) && h'.arenas[p].count < Total(c) ==> NoneFull(h')
  {}

  function Push(h: State, a: nat, c: nat): State
    requires c < CLASSES == |h.free| && PageOf(a) in h.arenas && h.arenas[PageOf(a)].Small?
  {
    SetFree(h, PageOf(a), c, [a] + h.free[c], h.arenas[PageOf(a)].count + 1, h.live - {a})
  }

  lemma PushKeeps(h: State, a: nat, c: nat)
    requires Inv(h) && a in h.live && c < CLASSES && SmallAt(h, PageOf(a), c)
    ensures var h' := Push(h, a, c);
            && Core(h') && NoneFullBut(h', PageOf(a)) && SmallAt(h', PageOf(a), c)
               && h'.arenas[PageOf(a)].count <= Total(c)
            && (h'.arenas[PageOf(a)].count < Total(c) ==> Inv(h'))
  {
    var h' := Push(h, a, c);
    assert Toggled(h, c, a, [a] + h.free[c], h.arenas[PageOf(a)].count + 1, h.live - {a}) by {
      PushIs(h.free[c], a);
    }
    OneCount(h, h', PageOf(a), c);
    ToggledKeeps(h, c, a, [a] + h.free[c], h.arenas[PageOf(a)].count + 1, h.live - {a});
    CountBound(h', PageOf(a), c);
    hide PagesOk, ListsOk, Toggled, PageOf, IsBlock;
  }

  lemma CoreShape(h: State)
    requires Core(h)
    ensures |h.free| == CLASSES
    ensures forall p: nat | p in h.arenas && h.arenas[p].Small? ::
            h.arenas[p].cls < CLASSES && SmallAt(h, p, h.arenas[p].cls)
    ensures forall a: nat | a in h.live :: PageOf(a) in h.arenas
    ensures forall c: nat | c < CLASSES :: Distinct(h.free[c])
  {}

  lemma InvCore(h: State)
    ensures Inv(h) <==> Core(h) && NoneFull(h)
  {}
}

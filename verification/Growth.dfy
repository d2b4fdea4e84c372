/** What bmap does to a volume when it creates blocks: which zones it takes, when the
    trees stay well formed, and why they never do otherwise. */
module Growth {
  import opened Common
  import opened Volume

  // ----- which zones balloc takes -----

  predicate Allocatable(v: Vol, z: nat)
    requires Shaped(v)
  {
    v.first - 1 <= z < v.zones && HasBit(v, z) && !Used(v, z)
  }

  ghost function FreeBelow(v: Vol, z: nat): set<nat>
    requires Shaped(v)
  {
    set y: nat | y < z && v.first - 1 <= y && !Used(v, y)
  }

  /** The k zones balloc hands out next read as zeros. */
  ghost predicate ZerosAhead(v: Vol, k: int)
    requires Shaped(v)
  {
    forall z: nat | Allocatable(v, z) && |FreeBelow(v, z)| < k :: ZeroBlock(v.blocks[z])
  }

  /** v is v0 after balloc has handed out the lowest `taken` zones, as far as the free ones go:
      those left have moved up by as many places, and keep their bytes. */
  ghost predicate Ahead(v0: Vol, v: Vol, taken: nat) {
    && Shaped(v0) && Shaped(v)
    && (forall z: nat | Allocatable(v, z) ::
          Allocatable(v0, z) && |FreeBelow(v0, z)| == |FreeBelow(v, z)| + taken && v.blocks[z] == v0.blocks[z])
    && (forall z: nat | Allocatable(v0, z) && |FreeBelow(v0, z)| >= taken :: Allocatable(v, z))
  }

  lemma AheadNext(v0: Vol, v: Vol, v': Vol, taken: nat, more: nat)
    requires Ahead(v0, v, taken) && Ahead(v, v', more)
    ensures Ahead(v0, v', taken + more)
  {
    hide Allocatable, FreeBelow;
  }

  /** The index blocks on the way to n that are not there yet. */
  function Missing(v: Vol, n: Node): nat {
    match n
    case Root(_, _) => 0
    case Sub(p, _) => Missing(v, p) + if Zone(v, p) == 0 then 1 else 0
  }

  /** The zones bmap takes to bring n to life. */
  function Needed(v: Vol, n: Node): nat { if Zone(v, n) != 0 then 0 else Missing(v, n) + 1 }

  /** The zones bmap would take for index blocks read as zeros. */
  ghost predicate Clean(v: Vol, n: Node)
    requires Shaped(v)
  {
    ZerosAhead(v, Missing(v, n))
  }

  lemma PresentAbove(v: Vol, n: Node)
    ensures Zone(v, n) != 0 ==> Missing(v, n) == 0
  {
    if n.Sub? { PresentAbove(v, n.parent); }
  }

  /** What a caller can look at before a write: a direct block, a block whose index
      blocks are there, or a volume whose free zones were never used. */
  lemma CleanWhen(v: Vol, ino: nat, b: nat)
    requires Shaped(v)
    ensures b < DIRECT_BLOCK ==> Clean(v, NodeFor(ino, b))
    ensures NodeFor(ino, b).Sub? && Zone(v, NodeFor(ino, b).parent) != 0 ==> Clean(v, NodeFor(ino, b))
    ensures CleanFree(v) && Used(v, v.first - 1) ==> Clean(v, NodeFor(ino, b))
  {
    var n := NodeFor(ino, b);
    if n.Sub? { PresentAbove(v, n.parent); }
  }

  // ----- a slot is set -----

  /** array[index] = balloc(): the lowest free zone in a slot of the inode or of an index block. */
  ghost predicate SlotSet(v: Vol, v': Vol, ino: nat, buf: Option<nat>, index: nat, z: uint16) {
    && Shaped(v) && Shaped(v') && |v'.zmaps| == |v.zmaps|
    && (if buf.None? then ino in v.inodes && index < 9 else 0 < buf.value < |v.blocks| && index < BLOCK_INDEXES)
    && v' == (if buf.None? then v.(zmaps := v'.zmaps,
       inodes := v.inodes[ino := v.inodes[ino].(zone := v.inodes[ino].zone[index := z])])
              else v.(zmaps := v'.zmaps, blocks := v.blocks[buf.value := SetWord(v.blocks[buf.value], index, z)]))
    && (forall y: nat :: Used(v', y) == (Used(v, y) || y == z))
    && Allocatable(v, z) && FreeBelow(v, z) == {}
  }

  lemma LowestIs(v: Vol, z: nat)
    requires Shaped(v) && forall y: nat | v.first - 1 <= y < z :: Used(v, y)
    ensures FreeBelow(v, z) == {}
  {}

  lemma SameMaps(v: Vol, v1: Vol)
    requires Shaped(v) && v1.first == v.first && v1.zones == v.zones && v1.zmaps == v.zmaps && |v1.blocks| == |v.blocks|
    ensures Shaped(v1) && forall y: nat :: Used(v1, y) == Used(v, y)
  {}

  /** Only an empty slot is set, so no place that holds a zone moves: on any volume. */
  lemma SlotZones(v: Vol, v': Vol, ino: nat, buf: Option<nat>, index: nat, z: uint16, m: Node)
    requires SlotSet(v, v', ino, buf, index, z)
    requires if buf.None? then v.inodes[ino].zone[index] == 0 else Word(v.blocks[buf.value], index) == 0
    ensures Zone(v, m) != 0 ==> Zone(v', m) == Zone(v, m)
  {
    if m.Sub? {
      SlotZones(v, v', ino, buf, index, z, m.parent);
      if buf.Some? { SetWordWords(v.blocks[buf.value], index, z); }
    }
  }

  lemma SlotWritten(v: Vol, v': Vol, ino: nat, buf: Option<nat>, index: nat, n: Node, z: uint16)
    requires SlotSet(v, v', ino, buf, index, z) && At(v, ino, buf, index, n) && Zone(v, n) == 0
    ensures At(v', ino, buf, index, n) && Zone(v', n) == z
    ensures forall m | Zone(v, m) != 0 :: Zone(v', m) == Zone(v, m)
    ensures forall m :: Valid(v', m) == Valid(v, m)
  {
    SlotIs(v, ino, buf, index, n);
    forall m | Zone(v, m) != 0 ensures Zone(v', m) == Zone(v, m) { SlotZones(v, v', ino, buf, index, z, m); }
    forall m ensures Valid(v', m) == Valid(v, m) { ValidSame(v, v', m); }
    if n.Sub? { SetWordWords(v.blocks[buf.value], index, z); }
  }

  lemma SlotGrown(v: Vol, v': Vol, ino: nat, buf: Option<nat>, index: nat, n: Node, z: uint16)
    requires TreesWF(v) && SlotSet(v, v', ino, buf, index, z) && At(v, ino, buf, index, n) && Zone(v, n) == 0
    ensures Grown(v, v', n, z)
  {}

  // ----- zones placed, and zones nobody placed -----

  /** v is v0 with the zones `added` stored at the empty nodes `places`; whatever else
      v0 kept is still where it was. */
  ghost predicate Placed(v0: Vol, v: Vol, added: seq<nat>, places: seq<Node>) {
    && Shaped(v0) && Shaped(v) && |places| == |added|
    && v.first == v0.first && v.zones == v0.zones && |v.zmaps| == |v0.zmaps| && |v.blocks| == |v0.blocks|
    && v.inodes.Keys == v0.inodes.Keys
    && (forall y: nat :: Used(v, y) == (Used(v0, y) || y in added))
    && (forall m | Zone(v0, m) != 0 :: Zone(v, m) == Zone(v0, m))
    && (forall k | 0 <= k < |places| ::
       Zone(v0, places[k]) == 0 && Valid(v, places[k]) && Zone(v, places[k]) == added[k] != 0)
  }

  /** A node holds a zone number that bmap did not store there. */
  ghost predicate Stale(v0: Vol, v: Vol, places: seq<Node>) {
    exists q :: Valid(v, q) && Zone(v0, q) == 0 && Zone(v, q) != 0 && q !in places
  }

  /** Such a number is a zone of another place, or of none: the trees are not well formed. */
  lemma StaleBreaks(v0: Vol, v: Vol, added: seq<nat>, places: seq<Node>)
    requires TreesWF(v0) && Placed(v0, v, added, places) && Stale(v0, v, places)
    ensures !TreesWF(v)
  {
    if TreesWF(v) {
      var q :| Valid(v, q) && Zone(v0, q) == 0 && Zone(v, q) != 0 && q !in places;
      var w: nat := Zone(v, q);
      if Used(v0, w) {
        assert Reached(v0, w);
        var m :| Valid(v0, m) && Zone(v0, m) == w;
        ValidSame(v0, v, m);
      }
    }
  }

  lemma PlacedNext(v0: Vol, v: Vol, v': Vol, added: seq<nat>, places: seq<Node>, ino: nat, buf: Option<nat>,
          index: nat, n: Node, z: uint16)
    requires Placed(v0, v, added, places) && SlotSet(v, v', ino, buf, index, z) && At(v, ino, buf, index, n)
             && Zone(v, n) == 0 && z != 0
    ensures Placed(v0, v', added + [z as nat], places + [n])
    ensures Stale(v0, v, places) ==> Stale(v0, v', places + [n])
  {
    SlotWritten(v, v', ino, buf, index, n, z);
    hide Zone, Valid, Used, At;
    PlacedAdds(v0, v, v', added, places, n, z);
    if Stale(v0, v, places) {
      var q :| Valid(v, q) && Zone(v0, q) == 0 && Zone(v, q) != 0 && q !in places;
      assert Valid(v', q) && Zone(v', q) == Zone(v, q) && q !in places + [n];
    }
  }

  lemma PlacedAdds(v0: Vol, v: Vol, v': Vol, added: seq<nat>, places: seq<Node>, n: Node, z: uint16)
    requires Placed(v0, v, added, places) && Shaped(v') && v'.first == v.first && v'.zones == v.zones
             && |v'.zmaps| == |v.zmaps|
    requires |v'.blocks| == |v.blocks| && v'.inodes.Keys == v.inodes.Keys && Zone(v, n) == 0 && Valid(v', n)
             && Zone(v', n) == z
    requires forall y: nat :: Used(v', y) == (Used(v, y) || y == z)
    requires forall m | Zone(v, m) != 0 :: Zone(v', m) == Zone(v, m)
    requires forall m :: Valid(v', m) == Valid(v, m)
    requires z != 0
    ensures Placed(v0, v', added + [z as nat], places + [n])
  {
    hide Zone, Valid, Used;
  }

  // ----- one round of bmap -----

  /** The zones taken so far for leaf: v0 is the volume bmap found. */
  ghost predicate Progress(v0: Vol, v: Vol, leaf: Node, added: seq<nat>, places: seq<Node>) {
    && Placed(v0, v, added, places)
    && (TreesWF(v) ==>
          && Extends(v0, v, leaf, added) && (Clean(v0, leaf) <==> Clean(v, leaf))
          && |added| + Needed(v, leaf) == Needed(v0, leaf) && Ahead(v0, v, |added|)
          && (CleanFree(v0) ==> CleanFree(v)))
    && (!TreesWF(v) ==> Stale(v0, v, places) && !Clean(v0, leaf))
  }

  lemma ProgressNone(v: Vol, leaf: Node)
    requires TreesWF(v)
    ensures Progress(v, v, leaf, [], [])
  {}

  lemma GrowProgress(v0: Vol, v: Vol, v': Vol, leaf: Node, added: seq<nat>, places: seq<Node>, ino: nat,
          buf: Option<nat>, index: nat, n: Node, z: uint16)
    requires TreesWF(v0) && Progress(v0, v, leaf, added, places) && Below(leaf, n) && Height(leaf) == 0
             && Valid(v0, leaf)
    requires SlotSet(v, v', ino, buf, index, z) && At(v, ino, buf, index, n) && Zone(v, n) == 0
    ensures Progress(v0, v', leaf, added + [z as nat], places + [n]) && z != 0
  {
    ProgressParts(v0, v, leaf, added, places);
    hide *;
    SlotFacts(v0, v, v', leaf, added, places, ino, buf, index, n, z);
    PlacedNext(v0, v, v', added, places, ino, buf, index, n, z);
    var added', places' := added + [z as nat], places + [n];
    assert |added'| == |added| + 1;
    if !TreesWF(v) {
      StaleBreaks(v0, v', added', places');
      ProgressBroken(v0, v', leaf, added', places');
    } else {
      SlotGrown(v, v', ino, buf, index, n, z);
      if Height(n) > 0 && !ZeroBlock(v.blocks[z]) {
        DirtyIndex(v0, v, v', leaf, added, places, n, z);
        ProgressBroken(v0, v', leaf, added', places');
      } else {
        CleanIndex(v0, v, v', leaf, added, n, z);
        GrownAhead(v, v', n, z);
        AheadNext(v0, v, v', |added|, 1);
        ProgressSound(v0, v', leaf, added', places');
      }
    }
  }

  lemma ProgressParts(v0: Vol, v: Vol, leaf: Node, added: seq<nat>, places: seq<Node>)
    requires Progress(v0, v, leaf, added, places)
    ensures Shaped(v0) && Shaped(v) && Placed(v0, v, added, places)
    ensures TreesWF(v) ==>
              && Extends(v0, v, leaf, added) && (Clean(v0, leaf) <==> Clean(v, leaf))
              && |added| + Needed(v, leaf) == Needed(v0, leaf) && Ahead(v0, v, |added|)
              && (CleanFree(v0) ==> CleanFree(v))
    ensures !TreesWF(v) ==> Stale(v0, v, places) && !Clean(v0, leaf)
  {}

  lemma ProgressBroken(v0: Vol, v: Vol, leaf: Node, added: seq<nat>, places: seq<Node>)
    requires Shaped(v0) && Placed(v0, v, added, places) && !TreesWF(v) && Stale(v0, v, places) && !Clean(v0, leaf)
    ensures Progress(v0, v, leaf, added, places)
  {
    hide TreesWF, Clean, Stale;
  }

  lemma ProgressSound(v0: Vol, v: Vol, leaf: Node, added: seq<nat>, places: seq<Node>)
    requires Shaped(v0) && Shaped(v) && Placed(v0, v, added, places) && TreesWF(v) && Extends(v0, v, leaf, added)
    requires (Clean(v0, leaf) <==> Clean(v, leaf)) && |added| + Needed(v, leaf) == Needed(v0, leaf)
    requires Ahead(v0, v, |added|) && (CleanFree(v0) ==> CleanFree(v))
    ensures Progress(v0, v, leaf, added, places)
  {
    hide TreesWF, Clean, Stale, Placed, Extends, Ahead, CleanFree, Needed;
  }

  lemma SlotFacts(v0: Vol, v: Vol, v': Vol, leaf: Node, added: seq<nat>, places: seq<Node>, ino: nat,
          buf: Option<nat>, index: nat, n: Node, z: uint16)
    requires TreesWF(v0) && Placed(v0, v, added, places) && Valid(v0, leaf)
    requires SlotSet(v, v', ino, buf, index, z) && At(v, ino, buf, index, n)
    ensures z != 0 && z < |v.blocks| && Shaped(v) && Valid(v, leaf) && (n.Sub? ==> Zone(v, n.parent) != 0)
    ensures Allocatable(v, z) && FreeBelow(v, z) == {}
  {
    hide Zone, Valid, ZonesUsed, ZonesOnce, ZonesAll, FreeBelow;
    ValidSame(v0, v, leaf);
  }

  lemma SlotKeeps(v: Vol, v': Vol, ino: nat, buf: Option<nat>, index: nat, n: Node, z: uint16)
    requires SlotSet(v, v', ino, buf, index, z) && At(v, ino, buf, index, n) && Zone(v, n) == 0
    ensures Shaped(v') && v'.inodes.Keys == v.inodes.Keys && At(v', ino, buf, index, n) && Zone(v', n) == z
  {
    SlotWritten(v, v', ino, buf, index, n, z);
  }

  /** What the loop of bmap knows at a return. */
  ghost predicate Outcome(v0: Vol, v: Vol, leaf: Node, added: seq<nat>) {
    TreesWF(v) ==>
      && Extends(v0, v, leaf, added) && |added| + Needed(v, leaf) == Needed(v0, leaf) && Ahead(v0, v, |added|)
      && (CleanFree(v0) ==> CleanFree(v))
  }

  lemma ProgressEnds(v0: Vol, v: Vol, leaf: Node, added: seq<nat>, places: seq<Node>, n: Node)
    requires Progress(v0, v, leaf, added, places) && Valid(v, n)
    ensures Shaped(v0) && Shaped(v) && Outcome(v0, v, leaf, added)
    ensures TreesWF(v) ==> Zone(v, n) < |v.blocks|
    ensures TreesWF(v) <== Clean(v0, leaf)
    ensures n == leaf && Zone(v, n) != 0 ==> (TreesWF(v) <==> Clean(v0, leaf))
  {
    PresentAbove(v, leaf);
  }

  lemma ProgressFull(v0: Vol, v: Vol, leaf: Node, added: seq<nat>, places: seq<Node>)
    requires Progress(v0, v, leaf, added, places) && Shaped(v) && forall z: nat :: !Allocatable(v, z)
    ensures Shaped(v0) && Outcome(v0, v, leaf, added) && (TreesWF(v) <==> Clean(v0, leaf))
  {}

  lemma MissingAbove(v: Vol, m: Node, n: Node)
    requires Below(m, n) && m != n && Zone(v, n) == 0
    ensures Missing(v, m) > 0
  {
    if m.parent != n { MissingAbove(v, m.parent, n); }
  }

  /** An index block with something in it: the call was not clean, and its words stay. */
  lemma DirtyIndex(v0: Vol, v: Vol, v': Vol, leaf: Node, added: seq<nat>, places: seq<Node>, n: Node, z: uint16)
    requires TreesWF(v0) && TreesWF(v) && Placed(v0, v, added, places) && (Clean(v0, leaf) ==> Clean(v, leaf))
    requires Grown(v, v', n, z) && Height(n) > 0 == Height(leaf) && Below(leaf, n) && !ZeroBlock(v.blocks[z])
    requires Allocatable(v, z) && FreeBelow(v, z) == {}
    ensures !TreesWF(v') && Stale(v0, v', places + [n]) && !Clean(v0, leaf)
  {
    IndexBlockSound(v, v', n, z);
    var i := NonzeroWord(v.blocks[z]);
    StaleWord(v, v', n, z, i);
    var q := Sub(n, i);
    assert Zone(v, q) == 0;
    assert q !in places + [n];
    MissingAbove(v, leaf, n);
  }

  /** A zone that reads as zeros, or a data block: the next call sees the same. */
  lemma CleanIndex(v0: Vol, v: Vol, v': Vol, leaf: Node, added: seq<nat>, n: Node, z: uint16)
    requires TreesWF(v) && Extends(v0, v, leaf, added) && Grown(v, v', n, z) && Below(leaf, n) && Height(leaf) == 0
    requires Height(n) > 0 ==> ZeroBlock(v.blocks[z])
    requires Valid(v, leaf) && (n.Sub? ==> Zone(v, n.parent) != 0)
    requires Allocatable(v, z) && FreeBelow(v, z) == {}
    ensures TreesWF(v') && Extends(v0, v', leaf, added + [z as nat]) && (CleanFree(v) ==> CleanFree(v'))
    ensures Clean(v, leaf) <==> Clean(v', leaf)
    ensures Needed(v, leaf) == Needed(v', leaf) + 1
  {
    GrownKeepsTrees(v, v', n, z);
    ExtendsGrown(v0, v, v', leaf, added, n, z);
    GrownAll(v, v', n, z);
    GrownMissing(v, v', n, z, leaf);
    EmptyAbove(v, leaf, n);
    if n == leaf {
      if n.Sub? { PresentAbove(v, n.parent); }
    } else {
      if Below(leaf, n) { LeafHigher(leaf, n); }
      GrownZeros(v, v', n, z, Missing(v, leaf));
    }
  }

  lemma LeafHigher(leaf: Node, n: Node)
    requires Below(leaf, n) && leaf != n && Height(leaf) == 0
    ensures Height(n) > 0
  {
    BelowHeight(leaf, n);
  }

  lemma {:induction false} GrownMissing(v: Vol, v': Vol, n: Node, z: uint16, m: Node)
    requires Zone(v, n) == 0 && z != 0 && Valid(v, m)
    requires forall q | Valid(v, q) :: Zone(v', q) == if q == n then z else Zone(v, q)
    ensures Missing(v', m) == Missing(v, m) - if Below(m, n) && m != n then 1 else 0
    decreases m
  {
    if m.Sub? {
      GrownMissing(v, v', n, z, m.parent);
      if m == n && Below(m.parent, n) { BelowHeight(m.parent, n); }
    }
  }

  lemma GrownAhead(v: Vol, v': Vol, n: Node, z: uint16)
    requires TreesWF(v) && Grown(v, v', n, z) && Allocatable(v, z) && FreeBelow(v, z) == {}
    ensures Ahead(v, v', 1)
  {
    GrownFree(v, v', n, z);
    hide TreesWF, Grown, Zone, Valid, HasBit;
    forall y: nat | y != z ensures Allocatable(v', y) <==> Allocatable(v, y) {}
    forall y: nat | Allocatable(v, y) && y != z ensures |FreeBelow(v', y)| == |FreeBelow(v, y)| - 1 {
      assert y !in FreeBelow(v, z);
      assert z in FreeBelow(v, y);
      assert FreeBelow(v', y) == FreeBelow(v, y) - {z as nat};
    }
  }

  lemma GrownZeros(v: Vol, v': Vol, n: Node, z: uint16, k: nat)
    requires TreesWF(v) && Grown(v, v', n, z) && Allocatable(v, z) && FreeBelow(v, z) == {} && ZeroBlock(v.blocks[z])
    ensures ZerosAhead(v, k) <==> ZerosAhead(v', k - 1)
  {
    GrownAhead(v, v', n, z);
    hide TreesWF, Grown, ZeroBlock;
    forall y: nat | Allocatable(v, y) && |FreeBelow(v, y)| == 0 ensures y == z {
      assert FreeBelow(v, y) == {};
      assert y !in FreeBelow(v, z) && z !in FreeBelow(v, y);
    }
  }

  lemma GrownFree(v: Vol, v': Vol, n: Node, z: uint16)
    requires TreesWF(v) && Grown(v, v', n, z)
    ensures Shaped(v) && Shaped(v') && v'.first == v.first && v'.zones == v.zones && |v'.blocks| == |v.blocks|
    ensures forall y: nat :: HasBit(v', y) == HasBit(v, y) && Used(v', y) == (Used(v, y) || y == z)
    ensures forall y: nat | y < |v.blocks| && !Used(v, y) :: v'.blocks[y] == v.blocks[y]
  {}

  // ----- several blocks in a row -----

  /** The empty places on the way to n, from the top, but those in `have`: what bmap fills. */
  function PathBut(v: Vol, n: Node, have: set<Node>): seq<Node> {
    if Zone(v, n) != 0 || n in have then []
    else
      match n
      case Root(_, _) => [n]
      case Sub(p, _) => PathBut(v, p, have) + [n]
  }

  /** The places a write to blocks lo to hi fills, in its order, each of them once: the
      k-th zone balloc hands out goes to the k-th of them. */
  function Plan(v: Vol, ino: nat, lo: nat, hi: nat, have: set<Node>): seq<Node>
    decreases hi - lo
  {
    if lo >= hi || lo >= TOTAL_BLOCK then []
    else
      var path := PathBut(v, NodeFor(ino, lo), have);
      path + Plan(v, ino, lo + 1, hi, have + set n | n in path)
  }

  /** The zones that go to index blocks of the plan read as zeros. */
  ghost predicate IndexZeros(v: Vol, plan: seq<Node>)
    requires Shaped(v)
  {
    forall z: nat | Allocatable(v, z) && |FreeBelow(v, z)| < |plan| && Height(plan[|FreeBelow(v, z)|]) > 0 ::
      ZeroBlock(v.blocks[z])
  }

  /** What a caller has to look at before a write to blocks lo to hi. */
  ghost predicate Ready(v: Vol, ino: nat, lo: nat, hi: nat)
    requires Shaped(v)
  {
    IndexZeros(v, Plan(v, ino, lo, hi, {}))
  }

  lemma {:induction false} PathIs(v: Vol, n: Node)
    ensures var path := PathBut(v, n, {});
            && |path| == Needed(v, n) && (forall m :: m in path <==> Below(n, m) && Zone(v, m) == 0)
            && (path != [] ==> path[|path| - 1] == n)
            && forall j, k | 0 <= j < k < |path| :: Height(path[j]) > Height(path[k])
    decreases n
  {
    if Zone(v, n) != 0 {
      forall m | Below(n, m) ensures Zone(v, m) != 0 { EmptyAbove(v, n, m); }
    } else if n.Sub? {
      PathIs(v, n.parent);
      PresentAbove(v, n.parent);
      var path := PathBut(v, n.parent, {});
      forall k | 0 <= k < |path| ensures Height(path[k]) > Height(n) {
        assert path[k] in path;
        BelowHeight(n.parent, path[k]);
      }
    }
  }

  /** For one block it is what bmap needs. */
  lemma PathClean(v: Vol, leaf: Node)
    requires Shaped(v) && Height(leaf) == 0
    ensures IndexZeros(v, PathBut(v, leaf, {})) <==> Clean(v, leaf)
  {
    PathIs(v, leaf);
    PresentAbove(v, leaf);
    hide Zone, Allocatable, FreeBelow, ZeroBlock, PathBut, Below, Missing;
  }

  lemma PathSame(v: Vol, v1: Vol, n: Node, have: set<Node>, have1: set<Node>)
    requires Valid(v, n)
    requires forall m | Valid(v, m) :: Zone(v, m) != 0 || m in have <==> Zone(v1, m) != 0 || m in have1
    ensures PathBut(v, n, have) == PathBut(v1, n, have1)
  {
    if n.Sub? { PathSame(v, v1, n.parent, have, have1); }
  }

  /** The plan depends only on which places are filled. */
  lemma PlanSame(v: Vol, v1: Vol, ino: nat, lo: nat, hi: nat, have: set<Node>, have1: set<Node>)
    requires ino in v.inodes
    requires forall m | Valid(v, m) :: Zone(v, m) != 0 || m in have <==> Zone(v1, m) != 0 || m in have1
    ensures Plan(v, ino, lo, hi, have) == Plan(v1, ino, lo, hi, have1)
    decreases hi - lo
  {
    hide Zone, Valid, PathBut, NodeFor;
    if lo < hi && lo < TOTAL_BLOCK {
      NodeForValid(v, ino, lo);
      PathSame(v, v1, NodeFor(ino, lo), have, have1);
      var path := set n | n in PathBut(v, NodeFor(ino, lo), have);
      PlanSame(v, v1, ino, lo + 1, hi, have + path, have1 + path);
    }
  }

  /** A plan in two parts: the second starts where the zones of the first are gone. */
  lemma IndexZerosSplit(v: Vol, v1: Vol, path: seq<Node>, rest: seq<Node>)
    requires Ahead(v, v1, |path|)
    ensures IndexZeros(v, path + rest) <==> IndexZeros(v, path) && IndexZeros(v1, rest)
  {
    hide FreeBelow, HasBit, Used, Height, ZeroBlock;
    if IndexZeros(v, path + rest) {
      forall z: nat | Allocatable(v, z) && |FreeBelow(v, z)| < |path| && Height(path[|FreeBelow(v, z)|]) > 0
        ensures ZeroBlock(v.blocks[z])
      {
        assert (path + rest)[|FreeBelow(v, z)|] == path[|FreeBelow(v, z)|];
      }
      forall z: nat | Allocatable(v1, z) && |FreeBelow(v1, z)| < |rest| && Height(rest[|FreeBelow(v1, z)|]) > 0
        ensures ZeroBlock(v1.blocks[z])
      {
        assert (path + rest)[|FreeBelow(v, z)|] == rest[|FreeBelow(v1, z)|];
      }
    }
  }

  lemma ExtendsFills(v: Vol, v1: Vol, leaf: Node, added: seq<nat>)
    requires Extends(v, v1, leaf, added) && Zone(v1, leaf) != 0
    ensures forall m | Valid(v, m) :: Zone(v1, m) != 0 <==> Zone(v, m) != 0 || m in PathBut(v, leaf, {})
  {
    PathIs(v, leaf);
    hide PathBut;
    forall m | Valid(v, m) ensures Zone(v1, m) != 0 <==> Zone(v, m) != 0 || (Below(leaf, m) && Zone(v, m) == 0) {
      EmptyAbove(v1, leaf, m);
    }
  }

  /** The condition is exact: a write is ready if and only if bmap's call for its first block
      is clean and, behind it, the rest is ready. */
  lemma ReadyStep(v: Vol, v1: Vol, ino: nat, b: nat, hi: nat, added: seq<nat>)
    requires ino in v.inodes && b < hi && b < TOTAL_BLOCK && Extends(v, v1, NodeFor(ino, b), added)
    requires |added| == Needed(v, NodeFor(ino, b)) && Zone(v1, NodeFor(ino, b)) != 0 && Ahead(v, v1, |added|)
    ensures Ready(v, ino, b, hi) <==> Clean(v, NodeFor(ino, b)) && Ready(v1, ino, b + 1, hi)
  {
    var leaf := NodeFor(ino, b);
    var path := PathBut(v, leaf, {});
    NodeForValid(v, ino, b);
    PathIs(v, leaf);
    PathClean(v, leaf);
    ExtendsFills(v, v1, leaf, added);
    PlanNext(v, v1, ino, b, hi);
    hide *;
    IndexZerosSplit(v, v1, path, Plan(v1, ino, b + 1, hi, {}));
    ReadyIs(v, ino, b, hi);
    ReadyIs(v1, ino, b + 1, hi);
  }

  lemma ReadyIs(v: Vol, ino: nat, lo: nat, hi: nat)
    requires Shaped(v)
    ensures Ready(v, ino, lo, hi) <==> IndexZeros(v, Plan(v, ino, lo, hi, {}))
  {}

  lemma PlanNext(v: Vol, v1: Vol, ino: nat, b: nat, hi: nat)
    requires ino in v.inodes && b < hi && b < TOTAL_BLOCK
    requires forall m | Valid(v, m) :: Zone(v1, m) != 0 <==> Zone(v, m) != 0 || m in PathBut(v, NodeFor(ino, b), {})
    ensures Plan(v, ino, b, hi, {}) == PathBut(v, NodeFor(ino, b), {}) + Plan(v1, ino, b + 1, hi, {})
  {
    hide Zone, Valid, PathBut, NodeFor;
    var have := set n | n in PathBut(v, NodeFor(ino, b), {});
    assert {} + have == have;
    PlanSame(v, v1, ino, b + 1, hi, have, {});
  }

  lemma ReadyClean(v: Vol, ino: nat, lo: nat, hi: nat)
    requires Shaped(v) && ino in v.inodes && Ready(v, ino, lo, hi) && lo < hi && lo < TOTAL_BLOCK
    ensures Clean(v, NodeFor(ino, lo))
  {
    var path := PathBut(v, NodeFor(ino, lo), {});
    NodeForValid(v, ino, lo);
    hide NodeFor, PathBut, Allocatable, FreeBelow, ZeroBlock, Height, Clean;
    PathClean(v, NodeFor(ino, lo));
    assert Plan(v, ino, lo, hi, {})[..|path|] == path;
  }

  /** A block that is there takes nothing. */
  lemma ReadyPast(v: Vol, ino: nat, b: nat, hi: nat)
    requires Shaped(v) && b < hi && b < TOTAL_BLOCK && Zone(v, NodeFor(ino, b)) != 0
    ensures Ready(v, ino, b, hi) <==> Ready(v, ino, b + 1, hi)
  {
    assert {} + (set n: Node | n in []) == {};
  }

  /** For one block the condition is that of bmap. */
  lemma ReadyOne(v: Vol, ino: nat, b: nat)
    requires Shaped(v) && ino in v.inodes && b < TOTAL_BLOCK
    ensures Ready(v, ino, b, b + 1) <==> Clean(v, NodeFor(ino, b))
  {
    var path := PathBut(v, NodeFor(ino, b), {});
    NodeForValid(v, ino, b);
    PathClean(v, NodeFor(ino, b));
    assert Plan(v, ino, b, b + 1, {}) == path + [] == path;
  }

  /** A write whose index blocks are there fills data blocks only. */
  lemma {:induction false} PlanFlat(v: Vol, ino: nat, lo: nat, hi: nat, have: set<Node>)
    requires ino in v.inodes && forall b: nat | lo <= b < hi && b < TOTAL_BLOCK :: Missing(v, NodeFor(ino, b)) == 0
    ensures forall n | n in Plan(v, ino, lo, hi, have) :: Height(n) == 0
    decreases hi - lo
  {
    if lo < hi && lo < TOTAL_BLOCK {
      NodeForValid(v, ino, lo);
      var leaf := NodeFor(ino, lo);
      var path := PathBut(v, leaf, have);
      PlanFlat(v, ino, lo + 1, hi, have + set n | n in path);
      if leaf.Sub? { assert PathBut(v, leaf.parent, have) == []; }
      assert forall n | n in path :: n == leaf;
    }
  }

  lemma ReadyWhen(v: Vol, ino: nat, lo: nat, hi: nat)
    requires TreesWF(v) && ino in v.inodes
    ensures (forall b: nat | lo <= b < hi && b < TOTAL_BLOCK :: Missing(v, NodeFor(ino, b)) == 0) ==>
              Ready(v, ino, lo, hi)
    ensures hi <= DIRECT_BLOCK ==> Ready(v, ino, lo, hi)
    ensures CleanFree(v) ==> Ready(v, ino, lo, hi)
  {
    if forall b: nat | lo <= b < hi && b < TOTAL_BLOCK :: Missing(v, NodeFor(ino, b)) == 0 {
      PlanFlat(v, ino, lo, hi, {});
      hide Plan;
      forall z: nat | |FreeBelow(v, z)| < |Plan(v, ino, lo, hi, {})|
        ensures Height(Plan(v, ino, lo, hi, {})[|FreeBelow(v, z)|]) == 0
      {
        assert Plan(v, ino, lo, hi, {})[|FreeBelow(v, z)|] in Plan(v, ino, lo, hi, {});
      }
    }
  }

  lemma FreeBelowNext(v: Vol, z: nat)
    requires Shaped(v) && v.first - 1 <= z
    ensures |FreeBelow(v, z + 1)| == |FreeBelow(v, z)| + if Used(v, z) then 0 else 1
  {
    assert FreeBelow(v, z + 1) == FreeBelow(v, z) + if Used(v, z) then {} else {z};
  }
}

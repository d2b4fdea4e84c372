/** What inode_truncate frees: the zones below an inode, each reached once. */
module Truncation {
  import opened Common
  import opened FileContent
  import opened Growth
  import opened Volume

  // ----- truncating -----

  /** Zone z is kept at n or below it. */
  ghost predicate HeldBelow(v: Vol, n: Node, z: nat) {
    z != 0 && exists m :: Valid(v, m) && Below(m, n) && Zone(v, m) == z
  }

  ghost predicate HeldBy(v: Vol, ino: nat, z: nat) {
    z != 0 && exists m :: Valid(v, m) && Owner(m) == ino && Zone(v, m) == z
  }

  /** bfree looks for the bit of z in the map where balloc set it. */
  predicate Freeable(v: Vol, z: nat) { BfreeMap(z) == HolderMap(v, z) }

  /** On a volume with one map every zone can be freed. */
  lemma OneMapFreeable(v: Vol, z: nat)
    requires Shaped(v) && v.zones <= BLOCK_BITS && v.first <= z < v.zones
    ensures Freeable(v, z)
  {}

  /** In general bfree finds the bit exactly for the zones that are far enough
      into the range of numbers its choice of map goes by. */
  lemma FreeableExactly(v: Vol, z: nat)
    requires 2 <= v.first <= z
    ensures Freeable(v, z) <==> (z - 1) % BLOCK_BITS >= v.first - 2
  {
    var a, d := z - 1, v.first - 2;
    assert a == a / BLOCK_BITS * BLOCK_BITS + a % BLOCK_BITS;
    if a % BLOCK_BITS >= d {
      assert (a - d) / BLOCK_BITS == a / BLOCK_BITS;
    }
  }

  lemma BelowChild(m: Node, n: Node)
    requires Below(m, n) && m != n
    ensures exists i :: Below(m, Sub(n, i))
  {
    if m.parent == n { assert Below(m, Sub(n, m.j)); }
      else { BelowChild(m.parent, n); var i :| Below(m.parent, Sub(n, i)); assert Below(m, Sub(n, i)); }
  }

  lemma BelowValid(v: Vol, m: Node, n: Node)
    requires Valid(v, m) && Below(m, n)
    ensures Valid(v, n) && Owner(m) == Owner(n) && Height(m) <= Height(n)
  {}

  lemma ChildrenApart(m: Node, n: Node, i: nat, i': nat)
    requires Below(m, Sub(n, i)) && Below(m, Sub(n, i'))
    ensures i == i'
  {
    if m != Sub(n, i) && m != Sub(n, i') { ChildrenApart(m.parent, n, i, i'); }
    else if m == Sub(n, i) && m != Sub(n, i') { BelowHeight(m.parent, Sub(n, i')); }
    else if m != Sub(n, i) { BelowHeight(m.parent, Sub(n, i)); }
  }

  /** What is below a node is the node and what is below its children. */
  lemma HeldSplits(v: Vol, n: Node, z: nat)
    requires Valid(v, n)
    ensures HeldBelow(v, n, z) <==> (z != 0 && Zone(v, n) == z) || exists i: nat ::
            i < BLOCK_INDEXES && HeldBelow(v, Sub(n, i), z)
  {
    if HeldBelow(v, n, z) && Zone(v, n) != z {
      var m :| Valid(v, m) && Below(m, n) && Zone(v, m) == z;
      BelowChild(m, n);
      var i :| Below(m, Sub(n, i));
      BelowValid(v, m, Sub(n, i));
      assert HeldBelow(v, Sub(n, i), z);
    }
    if z != 0 && Zone(v, n) == z { assert Below(n, n); }
    if i: nat :| i < BLOCK_INDEXES && HeldBelow(v, Sub(n, i), z) {
      var m :| Valid(v, m) && Below(m, Sub(n, i)) && Zone(v, m) == z;
      BelowUp(m, n, i);
    }
  }

  lemma BelowUp(m: Node, n: Node, i: nat)
    requires Below(m, Sub(n, i))
    ensures Below(m, n) && m != n
  {
    BelowHeight(m, Sub(n, i));
    if m != Sub(n, i) { BelowUp(m.parent, n, i); }
  }

  /** The zones below a child are its own: no sibling's and not the parent's. */
  lemma HeldApart(v: Vol, n: Node, i: nat, i': nat, z: nat)
    requires TreesWF(v) && HeldBelow(v, Sub(n, i), z)
    ensures HeldBelow(v, Sub(n, i'), z) ==> i == i'
    ensures Valid(v, n) && Zone(v, n) != z
    ensures Used(v, z) && v.first <= z < v.zones
  {
    var m :| Valid(v, m) && Below(m, Sub(n, i)) && Zone(v, m) == z;
    BelowValid(v, m, Sub(n, i));
    BelowUp(m, n, i);
    if HeldBelow(v, Sub(n, i'), z) {
      var m' :| Valid(v, m') && Below(m', Sub(n, i')) && Zone(v, m') == z;
      ChildrenApart(m, n, i, i');
    }
  }

  lemma EmptyHolds(v: Vol, n: Node)
    ensures Zone(v, n) == 0 ==> forall z: nat :: !HeldBelow(v, n, z)
  {
    if Zone(v, n) == 0 {
      forall m | Below(m, n) ensures Zone(v, m) == 0 { EmptyAbove(v, m, n); }
    }
  }

  lemma HeldSelf(v: Vol, n: Node)
    requires TreesWF(v) && Valid(v, n) && Zone(v, n) != 0
    ensures HeldBelow(v, n, Zone(v, n)) && v.first <= Zone(v, n) < v.zones && Used(v, Zone(v, n))
  {
    assert Below(n, n);
  }

  lemma LeafHolds(v: Vol, n: Node)
    requires Valid(v, n) && Height(n) == 0
    ensures forall z: nat :: HeldBelow(v, n, z) <==> z != 0 && Zone(v, n) == z
  {
    forall z: nat ensures HeldBelow(v, n, z) <==> z != 0 && Zone(v, n) == z {
      HeldSplits(v, n, z);
      forall i: nat | i < BLOCK_INDEXES ensures !HeldBelow(v, Sub(n, i), z) {
        forall m | Valid(v, m) ensures !Below(m, Sub(n, i)) {
          if Below(m, Sub(n, i)) { BelowValid(v, m, Sub(n, i)); }
        }
      }
    }
  }

  lemma FreeableIs(v0: Vol, v: Vol, z: nat)
    requires Shaped(v) && v.first == v0.first
    ensures Freeable(v0, z) <==> BfreeMap(z) == HolderMap(v, z)
    ensures Used(v, z) ==> HasBit(v, z)
  {}

  /** Freed by the first i rounds of the loop over the index block of n. */
  ghost predicate FreedBefore(v: Vol, n: Node, i: nat, z: nat) {
    exists k: nat :: k < i && HeldBelow(v, Sub(n, k), z)
  }

  lemma ChildSlot(v: Vol, n: Node, i: nat)
    requires TreesWF(v) && Valid(v, n) && Height(n) > 0 && Zone(v, n) != 0 && i < BLOCK_INDEXES
    ensures At(v, Owner(n), Some(Zone(v, n)), i, Sub(n, i)) && Height(Sub(n, i)) == Height(n) - 1
  {}

  lemma ChildHeld(v: Vol, n: Node, i: nat, z: nat)
    requires TreesWF(v) && Valid(v, n) && i < BLOCK_INDEXES && HeldBelow(v, Sub(n, i), z)
    ensures HeldBelow(v, n, z) && !FreedBefore(v, n, i, z) && Used(v, z)
  {
    HeldSplits(v, n, z);
    HeldApart(v, n, i, i, z);
    forall k: nat | k < i ensures !HeldBelow(v, Sub(n, k), z) { HeldApart(v, n, i, k, z); }
  }

  lemma FreedNext(v: Vol, n: Node, i: nat)
    ensures forall z: nat :: FreedBefore(v, n, i + 1, z) <==> FreedBefore(v, n, i, z) || HeldBelow(v, Sub(n, i), z)
  {
    hide HeldBelow;
    forall z: nat ensures FreedBefore(v, n, i + 1, z) <==> FreedBefore(v, n, i, z) || HeldBelow(v, Sub(n, i), z) {
      if FreedBefore(v, n, i + 1, z) {
        var k: nat :| k < i + 1 && HeldBelow(v, Sub(n, k), z);
        if k < i { assert FreedBefore(v, n, i, z); }
      }
      if FreedBefore(v, n, i, z) {
        var k: nat :| k < i && HeldBelow(v, Sub(n, k), z);
        assert k < i + 1;
      }
      if HeldBelow(v, Sub(n, i), z) { assert i < i + 1; }
    }
  }

  lemma ParentLeft(v: Vol, n: Node)
    requires TreesWF(v) && Valid(v, n)
    ensures !FreedBefore(v, n, BLOCK_INDEXES, Zone(v, n))
  {
    forall k: nat | k < BLOCK_INDEXES ensures !HeldBelow(v, Sub(n, k), Zone(v, n)) {
      if HeldBelow(v, Sub(n, k), Zone(v, n)) { HeldApart(v, n, k, k, Zone(v, n)); }
    }
  }

  lemma AllFreed(v: Vol, n: Node)
    requires Valid(v, n)
    ensures forall z: nat :: HeldBelow(v, n, z) <==> (z != 0 && Zone(v, n) == z) || FreedBefore(v, n, BLOCK_INDEXES, z)
  {
    forall z: nat ensures HeldBelow(v, n, z) <==> (z != 0 && Zone(v, n) == z) || FreedBefore(v, n, BLOCK_INDEXES, z) {
      HeldSplits(v, n, z);
    }
  }

  /** Freed with the first `slots` slots of the inode. */
  ghost predicate FreedSlots(v: Vol, ino: nat, slots: nat, z: nat) {
    exists k: nat :: k < slots && k < 9 && HeldBelow(v, Root(ino, k), z)
  }

  lemma NoSlots(v: Vol, ino: nat)
    ensures forall z: nat :: !FreedSlots(v, ino, 0, z)
  {}

  function RootOf(m: Node): Node {
    match m
    case Root(_, _) => m
    case Sub(p, _) => RootOf(p)
  }

  lemma RootOfBelow(v: Vol, m: Node)
    requires Valid(v, m)
    ensures Below(m, RootOf(m)) && RootOf(m).Root? && RootOf(m).ino == Owner(m) && RootOf(m).slot < 9
  {}

  lemma BelowRoot(m: Node, ino: nat, slot: nat)
    requires Below(m, Root(ino, slot))
    ensures RootOf(m) == Root(ino, slot) && Owner(m) == ino
  {}

  lemma AllSlots(v: Vol, ino: nat)
    ensures forall z: nat :: FreedSlots(v, ino, 9, z) <==> HeldBy(v, ino, z)
  {
    forall z: nat ensures FreedSlots(v, ino, 9, z) <==> HeldBy(v, ino, z) {
      if FreedSlots(v, ino, 9, z) {
        var k: nat :| k < 9 && HeldBelow(v, Root(ino, k), z);
        var m :| Valid(v, m) && Below(m, Root(ino, k)) && Zone(v, m) == z;
        BelowRoot(m, ino, k);
      }
      if HeldBy(v, ino, z) {
        var m :| Valid(v, m) && Owner(m) == ino && Zone(v, m) == z;
        RootOfBelow(v, m);
        assert HeldBelow(v, Root(ino, RootOf(m).slot), z);
      }
    }
  }

  lemma SlotHeld(v: Vol, ino: nat, slot: nat, z: nat)
    requires TreesWF(v) && HeldBelow(v, Root(ino, slot), z) && slot < 9
    ensures Used(v, z) && !FreedSlots(v, ino, slot, z) && HeldBy(v, ino, z)
  {
    var m :| Valid(v, m) && Below(m, Root(ino, slot)) && Zone(v, m) == z;
    BelowRoot(m, ino, slot);
    forall k: nat | k < slot ensures !HeldBelow(v, Root(ino, k), z) {
      if HeldBelow(v, Root(ino, k), z) {
        var m' :| Valid(v, m') && Below(m', Root(ino, k)) && Zone(v, m') == z;
        BelowRoot(m', ino, k);
      }
    }
  }

  lemma FreedSlotNext(v: Vol, ino: nat, slot: nat)
    requires slot < 9
    ensures forall z: nat :: FreedSlots(v, ino, slot + 1, z) <==>
            FreedSlots(v, ino, slot, z) || HeldBelow(v, Root(ino, slot), z)
  {
    hide HeldBelow;
    forall z: nat ensures FreedSlots(v, ino, slot + 1, z) <==>
      FreedSlots(v, ino, slot, z) || HeldBelow(v, Root(ino, slot), z) {
      if FreedSlots(v, ino, slot + 1, z) {
        var k: nat :| k < slot + 1 && k < 9 && HeldBelow(v, Root(ino, k), z);
        if k < slot { assert FreedSlots(v, ino, slot, z); }
      }
      if FreedSlots(v, ino, slot, z) {
        var k: nat :| k < slot && k < 9 && HeldBelow(v, Root(ino, k), z);
        assert k < slot + 1;
      }
      if HeldBelow(v, Root(ino, slot), z) { assert slot < slot + 1; }
    }
  }

  /** v' is v with file ino emptied: its zones, and no others, are free again. */
  ghost predicate Truncated(v: Vol, v': Vol, ino: nat) {
    && ino in v.inodes && Shaped(v) && Shaped(v')
    && v'.first == v.first && v'.zones == v.zones && |v'.zmaps| == |v.zmaps| && v'.blocks == v.blocks
    && v'.inodes == v.inodes[ino := v.inodes[ino].(zone := seq(9, _ => 0), size := 0)]
    && forall z: nat :: Used(v', z) == (Used(v, z) && !HeldBy(v, ino, z))
  }

  lemma TruncatedZones(v: Vol, v': Vol, ino: nat, n: Node)
    requires Truncated(v, v', ino) && Valid(v, n)
    ensures Valid(v', n) && Zone(v', n) == if Owner(n) == ino then 0 else Zone(v, n)
  {
    ValidSame(v, v', n);
    if n.Sub? { TruncatedZones(v, v', ino, n.parent); }
  }

  /** Truncation keeps the trees well formed and every other file's bytes; the
      freed zones keep theirs, so free zones stay clean exactly when all of them
      held zeros. */
  lemma TruncateKeeps(v: Vol, v': Vol, ino: nat)
    requires TreesWF(v) && Truncated(v, v', ino)
    ensures TreesWF(v')
    ensures CleanFree(v') <==> CleanFree(v) && forall z: nat | HeldBy(v, ino, z) && z < |v.blocks| ::
            ZeroBlock(v.blocks[z])
    ensures Content(v', ino) == []
    ensures forall j | j in v.inodes && j != ino && Mapped(v, j) :: Mapped(v', j) && Content(v', j) == Content(v, j)
  {
    forall n ensures Valid(v', n) == Valid(v, n) { ValidSame(v, v', n); }
    forall n | Valid(v, n) ensures Zone(v', n) == if Owner(n) == ino then 0
      else Zone(v, n) { TruncatedZones(v, v', ino, n); }
    TruncateTrees(v, v', ino);
    HeldInUse(v, ino);
    forall j | j in v.inodes && j != ino && Mapped(v, j) ensures Mapped(v', j) && Content(v', j) == Content(v, j) {
      TruncateOthers(v, v', ino, j);
    }
  }

  lemma HeldInUse(v: Vol, ino: nat)
    requires TreesWF(v)
    ensures forall z: nat | HeldBy(v, ino, z) :: Used(v, z) && v.first <= z < v.zones
  {}

  lemma TruncateOthers(v: Vol, v': Vol, ino: nat, j: nat)
    requires Truncated(v, v', ino) && j in v.inodes && j != ino && Mapped(v, j)
    requires forall n | Valid(v, n) :: Zone(v', n) == if Owner(n) == ino then 0 else Zone(v, n)
    ensures Mapped(v', j) && Content(v', j) == Content(v, j)
  {
    forall b: nat | b * BLOCK_SIZE < v.inodes[j].size
      ensures b < TOTAL_BLOCK && Zone(v', NodeFor(j, b)) == Zone(v, NodeFor(j, b)) != 0 {
      NodeForValid(v, j, b);
    }
    forall k: nat | k < v.inodes[j].size ensures ByteAt(v', j, k) == ByteAt(v, j, k) {
      assert k / BLOCK_SIZE * BLOCK_SIZE < v.inodes[j].size;
    }
  }

  lemma TruncateTrees(v: Vol, v': Vol, ino: nat)
    requires TreesWF(v) && Truncated(v, v', ino)
    requires forall n :: Valid(v', n) == Valid(v, n)
    requires forall n | Valid(v, n) :: Zone(v', n) == if Owner(n) == ino then 0 else Zone(v, n)
    ensures TreesWF(v')
  {
    hide Valid, Zone, Owner;
    forall n | Valid(v', n) && Zone(v', n) != 0 ensures v'.first <= Zone(v', n) < v'.zones && Used(v', Zone(v', n)) {
      NotHeld(v, ino, n);
    }
    forall z: nat | v'.first <= z < v'.zones && Used(v', z) ensures Reached(v', z) {
      assert Reached(v, z);
      var n :| Valid(v, n) && Zone(v, n) == z;
      assert Owner(n) == ino ==> HeldBy(v, ino, z);
      assert Valid(v', n) && Zone(v', n) == z;
    }
  }

  lemma NotHeld(v: Vol, ino: nat, n: Node)
    requires TreesWF(v) && Valid(v, n) && Owner(n) != ino
    ensures !HeldBy(v, ino, Zone(v, n))
  {}

  // ----- runs of writes and truncations -----

  datatype FileOp = Write(ino: nat, offset: nat, data: seq<byte>) | Truncate(ino: nat)

  ghost predicate AllMapped(v: Vol) { forall i | i in v.inodes :: Mapped(v, i) }

  /** The files of a volume. */
  function Contents(v: Vol): map<nat, seq<byte>> { map i | i in v.inodes :: Content(v, i) }

  /** What an operation does to the files as byte strings. */
  function Applied(fs: map<nat, seq<byte>>, op: FileOp): map<nat, seq<byte>> {
    match op
    case Write(i, offset, data) => if i in fs && offset <= |fs[i]| then fs[i := Splice(fs[i], offset, data)] else fs
    case Truncate(i) => if i in fs then fs[i := []] else fs
  }

  function AppliedAll(fs: map<nat, seq<byte>>, ops: seq<FileOp>): map<nat, seq<byte>> {
    if ops == [] then fs else Applied(AppliedAll(fs, ops[..|ops| - 1]), ops[|ops| - 1])
  }

  /** A write inside a file or at its end whose index blocks are there or will be clean;
      a truncation of a file. */
  ghost predicate Allowed(v: Vol, op: FileOp) {
    && op.ino in v.inodes
    && match op
       case Write(i, offset, data) => offset <= v.inodes[i].size && CanWrite(v, i, offset, |data|)
       case Truncate(i) => v.inodes[i].mode != Special
  }

  lemma LastBlock(n: nat)
    ensures n <= DIRECT_BLOCK * BLOCK_SIZE ==> EndBlock(n) <= DIRECT_BLOCK
  {}

  /** With free zones that read as zeros every write inside a file or at its end is allowed,
      and every truncation of a file always; below the first index block every such write is. */
  lemma AllowedWhen(v: Vol, op: FileOp)
    requires TreesWF(v) && op.ino in v.inodes
    ensures op.Truncate? && v.inodes[op.ino].mode != Special ==> Allowed(v, op)
    ensures op.Write? && op.offset <= v.inodes[op.ino].size && CleanFree(v) ==> Allowed(v, op)
    ensures op.Write? && op.offset <= v.inodes[op.ino].size && op.offset + |op.data| <= DIRECT_BLOCK * BLOCK_SIZE ==>
              Allowed(v, op)
  {
    hide TreesWF, Ready, CleanFree, EndBlock;
    if op.Write? {
      ReadyWhen(v, op.ino, op.offset / BLOCK_SIZE, EndBlock(op.offset + |op.data|));
      LastBlock(op.offset + |op.data|);
    }
  }

  /** Why an operation on v can end in a failed assertion, on the way to v'. */
  ghost predicate Fails(v: Vol, op: FileOp, v': Vol)
    requires op.ino in v.inodes
  {
    match op
    case Write(i, offset, data) =>
      || v.inodes[i].mode != File || offset + |data| > TOTAL_BLOCK * BLOCK_SIZE
      || (Shaped(v') && forall z: nat :: !Allocatable(v', z))
    case Truncate(i) => exists z: nat :: HeldBy(v, i, z) && !Freeable(v, z)
  }

  lemma WroteAll(v: Vol, v': Vol, ino: nat, offset: nat, data: seq<byte>)
    requires AllMapped(v) && ino in v.inodes && offset <= v.inodes[ino].size && Wrote(v, v', ino, offset, data)
    ensures AllMapped(v') && Contents(v') == Applied(Contents(v), Write(ino, offset, data))
  {
    hide Mapped, Content, WrittenSoFar;
    ContentSize(v, ino);
  }

  lemma TruncatedAll(v: Vol, v': Vol, ino: nat)
    requires TreesWF(v) && AllMapped(v) && Truncated(v, v', ino)
    ensures TreesWF(v') && AllMapped(v') && Contents(v') == Applied(Contents(v), Truncate(ino))
  {
    EmptiedMapped(v, v', ino);
    hide Mapped, Content, TreesWF, HeldBy, Used, Shaped, Truncated, CleanFree, ZeroBlock;
    TruncateKeeps(v, v', ino);
  }

  lemma EmptiedMapped(v: Vol, v': Vol, ino: nat)
    requires Truncated(v, v', ino)
    ensures v'.inodes.Keys == v.inodes.Keys && ino in v'.inodes && Mapped(v', ino)
  {}

  lemma WroteTrees(v: Vol, v': Vol, ino: nat, offset: nat, data: seq<byte>)
    requires Wrote(v, v', ino, offset, data)
    ensures TreesWF(v')
  {}

  lemma AppliedNone(fs: map<nat, seq<byte>>)
    ensures AppliedAll(fs, []) == fs
  {}

  lemma AppliedNext(fs: map<nat, seq<byte>>, ops: seq<FileOp>, n: nat)
    requires n < |ops|
    ensures AppliedAll(fs, ops[..n + 1]) == Applied(AppliedAll(fs, ops[..n]), ops[n])
  {
    assert ops[..n + 1][..n] == ops[..n];
  }
}

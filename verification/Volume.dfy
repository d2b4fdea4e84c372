/** A Minix volume as a value: zone bitmaps, zone contents and inodes; the tree
    of zones below an inode; and what allocation, growth and release do to it. */
module Volume {
  import opened Bits
  import opened Common

  const BLOCK_SIZE := 1024
  const BLOCK_BITS := 8192
  const ZMAP_NR := 8
  const BLOCK_INDEXES := 512
  const DIRECT_BLOCK := 7
  const TOTAL_BLOCK := DIRECT_BLOCK + BLOCK_INDEXES + BLOCK_INDEXES * BLOCK_INDEXES

  type byte = x: int | 0 <= x < 256
  type uint16 = x: int | 0 <= x < 0x1_0000
  type Block = b: seq<byte> | |b| == BLOCK_SIZE witness seq(BLOCK_SIZE, _ => 0)
  type Zones = z: seq<uint16> | |z| == 9 witness seq(9, _ => 0)

  /** A zone block read as an array of 16-bit zone numbers. */
  function Word(b: Block, i: nat): uint16
    requires i < BLOCK_INDEXES
  {
    var lo: int, hi: int := b[2 * i], b[2 * i + 1];
    lo + 256 * hi
  }

  function SetWord(b: Block, i: nat, w: uint16): Block
    requires i < BLOCK_INDEXES
  {
    b[2 * i := w % 256][2 * i + 1 := w / 256]
  }

  lemma SetWordWords(b: Block, i: nat, w: uint16)
    requires i < BLOCK_INDEXES
    ensures forall j: nat | j < BLOCK_INDEXES :: Word(SetWord(b, i, w), j) == if j == i then w else Word(b, j)
  {}

  datatype Mode = File | Dir | Special

  datatype Inode = Inode(mode: Mode, zone: Zones, size: nat)

  /** first is the number of the first data zone; bit b of the concatenated maps
      stands for zone first - 1 + b. */
  datatype Vol = Vol(first: nat, zones: nat, zmaps: seq<seq<bool>>, blocks: seq<Block>, inodes: map<nat, Inode>)

  predicate Shaped(v: Vol) {
    && 1 <= v.first <= v.zones <= |v.blocks| && v.zones < 0x1_0000
    && 1 <= |v.zmaps| <= ZMAP_NR && forall i | 0 <= i < |v.zmaps| :: |v.zmaps[i]| == BLOCK_BITS
  }

  /** The bit of zone z is set. */
  predicate Used(v: Vol, z: nat)
    requires Shaped(v)
  {
    var b := z - (v.first - 1);
    0 <= b < |v.zmaps| * BLOCK_BITS && v.zmaps[b / BLOCK_BITS][b % BLOCK_BITS]
  }

  /** The maps have a bit for zone z. */
  predicate HasBit(v: Vol, z: nat) { v.first - 1 <= z < v.first - 1 + |v.zmaps| * BLOCK_BITS }

  // ----- the tree -----

  /** A place where a zone number is kept: a slot of an inode or of the index block kept at parent. */
  datatype Node = Root(ino: nat, slot: nat) | Sub(parent: Node, j: nat)

  /** Levels of index blocks below slot i of an inode, counting its own zone. */
  function Level(slot: nat): nat {
    if slot < DIRECT_BLOCK then 0 else if slot == DIRECT_BLOCK then 1 else 2
  }

  function Height(n: Node): int {
    match n
    case Root(_, slot) => Level(slot)
    case Sub(p, _) => Height(p) - 1
  }

  predicate Valid(v: Vol, n: Node) {
    match n
    case Root(ino, slot) => ino in v.inodes && slot < 9
    case Sub(p, j) => Valid(v, p) && j < BLOCK_INDEXES && Height(p) > 0
  }

  function Zone(v: Vol, n: Node): uint16 {
    match n
    case Root(ino, slot) => if ino in v.inodes && slot < 9 then v.inodes[ino].zone[slot] else 0
    case Sub(p, j) => var z := Zone(v, p); if 0 < z < |v.blocks| && j < BLOCK_INDEXES then Word(v.blocks[z], j) else 0
  }

  function Owner(n: Node): nat {
    match n
    case Root(ino, _) => ino
    case Sub(p, _) => Owner(p)
  }

  predicate Below(m: Node, n: Node) {
    m == n || (m.Sub? && Below(m.parent, n))
  }

  /** The set bits are the reserved one and exactly the zones of the trees, each
      reached from one place only. */
  ghost predicate TreesWF(v: Vol) {
    Shaped(v) && Used(v, v.first - 1) && ZonesUsed(v) && ZonesOnce(v) && ZonesAll(v)
  }

  ghost predicate ZonesUsed(v: Vol)
    requires Shaped(v)
  {
    forall n | Valid(v, n) && Zone(v, n) != 0 :: v.first <= Zone(v, n) < v.zones && Used(v, Zone(v, n))
  }

  ghost predicate ZonesOnce(v: Vol) {
    forall m, n | Valid(v, m) && Valid(v, n) && Zone(v, m) == Zone(v, n) != 0 :: m == n
  }

  ghost predicate Reached(v: Vol, z: nat) {
    exists n :: Valid(v, n) && Zone(v, n) == z
  }

  ghost predicate ZonesAll(v: Vol)
    requires Shaped(v)
  {
    forall z: nat | v.first <= z < v.zones && Used(v, z) :: Reached(v, z)
  }

  predicate ZeroBlock(b: Block) { forall i | 0 <= i < BLOCK_SIZE :: b[i] == 0 }

  /** Every free zone reads as zeros: what an index block needs, as none is ever cleared. */
  predicate CleanFree(v: Vol) {
    Shaped(v) && forall z: nat | v.first <= z < v.zones && !Used(v, z) :: ZeroBlock(v.blocks[z])
  }

  /** The node of logical block b of a file: the split over 7, 512 and 512 * 512. */
  function NodeFor(ino: nat, b: nat): Node {
    if b < DIRECT_BLOCK then Root(ino, b)
    else if b - DIRECT_BLOCK < BLOCK_INDEXES then Sub(Root(ino, 7), b - DIRECT_BLOCK)
    else var c := b - DIRECT_BLOCK - BLOCK_INDEXES; Sub(Sub(Root(ino, 8), c / BLOCK_INDEXES), c % BLOCK_INDEXES)
  }

  lemma NodeForValid(v: Vol, ino: nat, b: nat)
    requires ino in v.inodes && b < TOTAL_BLOCK
    ensures Valid(v, NodeFor(ino, b)) && Height(NodeFor(ino, b)) == 0 && Owner(NodeFor(ino, b)) == ino
  {
    assert Height(Root(ino, 8)) == 2 && Height(Root(ino, 7)) == 1;
    if b >= DIRECT_BLOCK + BLOCK_INDEXES {
      assert Owner(NodeFor(ino, b).parent) == ino && Height(NodeFor(ino, b).parent) == 1;
    }
  }

  /** The logical block kept at a place: the slots of an inode in order, then the entries of
      its index block, then those of the index blocks below its last slot, one after another. */
  function BlockAt(n: Node): nat {
    match n
    case Root(_, slot) => slot
    case Sub(Root(_, _), j) => 7 + j
    case Sub(Sub(_, i), j) => 7 + 512 + 512 * i + j
  }

  lemma TopHeight(n: Node)
    ensures Height(n) <= 2 && (n.Sub? ==> Height(n) < 2)
  {}

  /** NodeFor and BlockAt undo each other, on all blocks and on all places that hold data. */
  lemma PlacesInOrder(v: Vol, ino: nat, b: nat, n: Node)
    requires b < TOTAL_BLOCK
    ensures BlockAt(NodeFor(ino, b)) == b
    ensures Valid(v, n) && Height(n) == 0 ==> BlockAt(n) < TOTAL_BLOCK && NodeFor(Owner(n), BlockAt(n)) == n
  {
    if Valid(v, n) && Height(n) == 0 && n.Sub? {
      assert Valid(v, n.parent) && Height(n.parent) == 1;
      if n.parent.Sub? {
        assert Valid(v, n.parent.parent) && Height(n.parent.parent) == 2;
        TopHeight(n.parent.parent);
        assert n.parent.parent == Root(Owner(n.parent.parent), 8);
        assert (512 * n.parent.j + n.j) / 512 == n.parent.j && (512 * n.parent.j + n.j) % 512 == n.j;
      }
    }
  }

  /** Distinct logical blocks have distinct places. */
  lemma NodeForInjective(ino: nat, b: nat, ino': nat, b': nat)
    requires b < TOTAL_BLOCK && b' < TOTAL_BLOCK && NodeFor(ino, b) == NodeFor(ino', b')
    ensures ino == ino' && b == b'
  {}

  /** On a well-formed volume distinct logical blocks are in distinct zones, none
      of which is an index zone. */
  lemma BlocksDistinct(v: Vol, ino: nat, b: nat, n: Node)
    requires TreesWF(v) && ino in v.inodes && b < TOTAL_BLOCK && Zone(v, NodeFor(ino, b)) != 0
    requires Valid(v, n) && Zone(v, n) == Zone(v, NodeFor(ino, b))
    ensures Height(n) == 0 && Owner(n) == ino && forall b': nat | b' < TOTAL_BLOCK && n == NodeFor(ino, b') :: b' == b
  {
    NodeForValid(v, ino, b);
    assert n == NodeFor(ino, b);
  }

  // ----- changing a volume -----

  /** Writing zones that no index node of v uses moves no zone. */
  lemma SameZones(v: Vol, v': Vol, n: Node)
    requires v'.inodes == v.inodes && |v'.blocks| == |v.blocks|
    requires forall p | Valid(v, p) && Height(p) > 0 && 0 < Zone(v, p) < |v.blocks| ::
             v'.blocks[Zone(v, p)] == v.blocks[Zone(v, p)]
    requires Valid(v, n)
    ensures Zone(v', n) == Zone(v, n)
  {
    if n.Sub? { SameZones(v, v', n.parent); }
  }

  /** Storing zone z, free and clean until now, at node n, which was empty. */
  ghost predicate Grown(v: Vol, v': Vol, n: Node, z: uint16) {
    && Shaped(v) && Shaped(v') && Valid(v, n) && Zone(v, n) == 0 && v.first <= z < v.zones && !Used(v, z)
       && HasBit(v, z)
    && v'.first == v.first && v'.zones == v.zones && |v'.zmaps| == |v.zmaps|
    && (forall y: nat :: Used(v', y) == (Used(v, y) || y == z))
    && match n
       case Root(ino, slot) =>
         && v'.blocks == v.blocks
         && v'.inodes == v.inodes[ino := v.inodes[ino].(zone := v.inodes[ino].zone[slot := z])]
       case Sub(p, j) =>
         && 0 < Zone(v, p) < |v.blocks|
         && v'.inodes == v.inodes
         && v'.blocks == v.blocks[Zone(v, p) := SetWord(v.blocks[Zone(v, p)], j, z)]
  }

  lemma ValidSame(v: Vol, v': Vol, n: Node)
    requires v'.inodes.Keys == v.inodes.Keys
    ensures Valid(v', n) == Valid(v, n)
  {}

  lemma ZeroWords(b: Block)
    requires ZeroBlock(b)
    ensures forall i: nat | i < BLOCK_INDEXES :: Word(b, i) == 0
  {}

  /** Only node n gets a zone; below it everything still reads as empty. */
  lemma GrownZones(v: Vol, v': Vol, n: Node, z: uint16, m: Node)
    requires TreesWF(v) && Grown(v, v', n, z) && Valid(v, m)
    requires Height(n) > 0 ==> ZeroBlock(v.blocks[z])
    ensures Zone(v', m) == if m == n then z else Zone(v, m)
  {
    if m.Sub? {
      GrownZones(v, v', n, z, m.parent);
      GrownNotUsed(v, v', n, z, m.parent);
      GrownWord(v, v', n, z, m.parent, m.j);
    }
  }

  lemma GrownNotUsed(v: Vol, v': Vol, n: Node, z: uint16, p: Node)
    requires TreesWF(v) && Grown(v, v', n, z) && Valid(v, p)
    ensures Zone(v, p) != z
  {}

  /** The word a child of p is read from. */
  lemma GrownWord(v: Vol, v': Vol, n: Node, z: uint16, p: Node, j: nat)
    requires TreesWF(v) && Grown(v, v', n, z) && Valid(v, Sub(p, j)) && Zone(v, p) != z
    requires Zone(v', p) == if p == n then z else Zone(v, p)
    requires Height(n) > 0 ==> ZeroBlock(v.blocks[z])
    ensures Zone(v', Sub(p, j)) == if Sub(p, j) == n then z else Zone(v, Sub(p, j))
  {
    if p == n {
      ZeroWords(v.blocks[z]);
      if n.Sub? { assert Zone(v, n.parent) != z; }
    } else if n.Sub? {
      SetWordWords(v.blocks[Zone(v, n.parent)], n.j, z);
      if Zone(v, p) == Zone(v, n.parent) { assert p == n.parent || Zone(v, p) == 0; }
    }
  }

  lemma GrownAll(v: Vol, v': Vol, n: Node, z: uint16)
    requires TreesWF(v) && Grown(v, v', n, z) && (Height(n) > 0 ==> ZeroBlock(v.blocks[z]))
    ensures forall m :: Valid(v', m) == Valid(v, m)
    ensures forall m | Valid(v, m) :: Zone(v', m) == if m == n then z else Zone(v, m)
  {
    forall m ensures Valid(v', m) == Valid(v, m) { ValidSame(v, v', m); }
    forall m | Valid(v, m) ensures Zone(v', m) == if m == n then z else Zone(v, m) { GrownZones(v, v', n, z, m); }
  }

  /** A grown tree is well formed again; free zones stay clean. */
  lemma GrownKeepsTrees(v: Vol, v': Vol, n: Node, z: uint16)
    requires TreesWF(v) && Grown(v, v', n, z)
    requires Height(n) > 0 ==> ZeroBlock(v.blocks[z])
    ensures TreesWF(v')
    ensures CleanFree(v) ==> CleanFree(v')
  {
    GrownAll(v, v', n, z);
    if n.Sub? { assert Used(v, Zone(v, n.parent)); }
    assert forall y: nat | y < v.zones && !Used(v, y) :: v'.blocks[y] == v.blocks[y];
    hide Valid, Zone, Height, ZonesUsed, ZonesOnce, ZonesAll;
    GrownReached(v, v', n, z);
    GrownOnce(v, v', n, z);
  }

  lemma GrownOnce(v: Vol, v': Vol, n: Node, z: uint16)
    requires Shaped(v) && Shaped(v') && ZonesUsed(v) && ZonesOnce(v) && !Used(v, z) && v.first <= z < v.zones
    requires v'.first == v.first && v'.zones == v.zones
    requires forall m :: Valid(v', m) == Valid(v, m)
    requires forall m | Valid(v, m) :: Zone(v', m) == if m == n then z else Zone(v, m)
    requires forall y: nat :: Used(v', y) == (Used(v, y) || y == z)
    ensures ZonesUsed(v') && ZonesOnce(v')
  {
    hide Valid, Zone, Used, Shaped;
  }

  lemma GrownReached(v: Vol, v': Vol, n: Node, z: uint16)
    requires Shaped(v) && Shaped(v') && Valid(v', n) && Zone(v', n) == z && ZonesAll(v)
    requires v'.first == v.first && v'.zones == v.zones && Zone(v, n) == 0 < v.first
    requires forall m :: Valid(v', m) == Valid(v, m)
    requires forall m | Valid(v, m) :: Zone(v', m) == if m == n then z else Zone(v, m)
    requires forall y: nat :: Used(v', y) == (Used(v, y) || y == z)
    ensures ZonesAll(v')
  {
    hide Valid, Zone, Used;
    forall y: nat | v'.first <= y < v'.zones && Used(v', y) ensures Reached(v', y) {
      if y != z {
        assert Reached(v, y);
        var m :| Valid(v, m) && Zone(v, m) == y;
        assert Valid(v', m) && Zone(v', m) == y;
      }
    }
  }

  // ----- an empty volume -----

  /** A volume with nothing but the reserved bit set, zeroed data zones and empty inodes. */
  lemma BlankKeeps(v: Vol)
    requires Shaped(v) && (forall z: nat :: Used(v, z) == (z == v.first - 1))
    requires (forall i | i in v.inodes :: v.inodes[i].zone == seq(9, _ => 0))
             && forall z: nat | z < v.zones :: ZeroBlock(v.blocks[z])
    ensures TreesWF(v) && CleanFree(v)
  {
    forall n ensures Zone(v, n) == 0 { BlankZone(v, n); }
    hide Used, Zone, Valid;
  }

  lemma {:induction false} BlankZone(v: Vol, n: Node)
    requires forall i | i in v.inodes :: v.inodes[i].zone == seq(9, _ => 0)
    ensures Zone(v, n) == 0
    decreases n
  {
    if n.Sub? { BlankZone(v, n.parent); }
  }

  // ----- bits and zones -----

  function ZoneOfBit(v: Vol, i: nat, bit: nat): int { bit + i * BLOCK_BITS + v.first - 1 }

  lemma BitPlace(v: Vol, i: nat, bit: nat)
    requires Shaped(v) && i < |v.zmaps| && bit < BLOCK_BITS
    ensures HasBit(v, ZoneOfBit(v, i, bit)) && Used(v, ZoneOfBit(v, i, bit)) == v.zmaps[i][bit]
  {
    var b := ZoneOfBit(v, i, bit) - (v.first - 1);
    assert b / BLOCK_BITS == i && b % BLOCK_BITS == bit;
  }

  lemma BitSet(v: Vol, v': Vol, i: nat, bit: nat, value: bool)
    requires Shaped(v) && i < |v.zmaps| && bit < BLOCK_BITS
    requires v' == v.(zmaps := v.zmaps[i := v.zmaps[i][bit := value]])
    ensures Shaped(v')
    ensures forall z: nat :: Used(v', z) == if z == ZoneOfBit(v, i, bit) then value else Used(v, z)
  {
    forall z: nat ensures Used(v', z) == if z == ZoneOfBit(v, i, bit) then value else Used(v, z) {
      var b := z - (v.first - 1);
      if 0 <= b < |v.zmaps| * BLOCK_BITS && b / BLOCK_BITS == i && b % BLOCK_BITS == bit {
        assert b == i * BLOCK_BITS + bit;
      }
    }
  }

  lemma FullMap(v: Vol, i: nat)
    requires Shaped(v) && i < |v.zmaps| && forall j: nat :: !ClearRun(v.zmaps[i], j, 1)
    requires forall z: nat | v.first - 1 <= z < v.first - 1 + i * BLOCK_BITS :: Used(v, z)
    ensures forall z: nat | v.first - 1 <= z < v.first - 1 + (i + 1) * BLOCK_BITS :: Used(v, z)
  {
    forall z: nat | v.first - 1 + i * BLOCK_BITS <= z < v.first - 1 + (i + 1) * BLOCK_BITS ensures Used(v, z) {
      var b := z - (v.first - 1);
      assert b / BLOCK_BITS == i;
      assert !ClearRun(v.zmaps[i], b % BLOCK_BITS, 1);
    }
  }

  lemma LowestClear(v: Vol, i: nat, bit: nat)
    requires Shaped(v) && i < |v.zmaps| && FirstFit(v.zmaps[i], bit, 1)
    requires forall z: nat | v.first - 1 <= z < v.first - 1 + i * BLOCK_BITS :: Used(v, z)
    ensures forall z: nat | v.first - 1 <= z < ZoneOfBit(v, i, bit) :: Used(v, z)
  {
    forall z: nat | v.first - 1 + i * BLOCK_BITS <= z < ZoneOfBit(v, i, bit) ensures Used(v, z) {
      var b := z - (v.first - 1);
      assert b / BLOCK_BITS == i;
      assert !ClearRun(v.zmaps[i], b % BLOCK_BITS, 1);
    }
  }

  // ----- growing the path to one leaf -----

  ghost predicate IndexZone(v: Vol, z: nat) {
    z != 0 && exists p :: Valid(v, p) && Height(p) > 0 && Zone(v, p) == z
  }

  ghost predicate SameModes(v: Vol, v': Vol) {
    forall i | i in v.inodes && i in v'.inodes :: v'.inodes[i].mode == v.inodes[i].mode
  }

  /** v' is v with zones stored at some empty nodes on the way to leaf, and nothing else changed. */
  ghost predicate Extends(v: Vol, v': Vol, leaf: Node, added: seq<nat>) {
    && v'.first == v.first && v'.zones == v.zones && |v'.blocks| == |v.blocks| && v'.inodes.Keys == v.inodes.Keys
    && Shaped(v) && Shaped(v') && |v'.zmaps| == |v.zmaps|
    && (forall i | i in v.inodes :: v'.inodes[i].size == v.inodes[i].size) && SameModes(v, v')
    && (forall m | Valid(v, m) && (Zone(v, m) != 0 || !Below(leaf, m)) :: Zone(v', m) == Zone(v, m))
    && (forall z: nat :: Used(v', z) == (Used(v, z) || z in added))
    // zones that hold data, or held nothing, keep their bytes
    && (forall z: nat | z < |v.blocks| && !IndexZone(v', z) :: v'.blocks[z] == v.blocks[z])
    && (added == [] ==> v' == v)
  }

  lemma ExtendsGrown(v0: Vol, v: Vol, v': Vol, leaf: Node, added: seq<nat>, n: Node, z: uint16)
    requires Extends(v0, v, leaf, added) && TreesWF(v) && Grown(v, v', n, z) && Below(leaf, n)
    requires Height(n) > 0 ==> ZeroBlock(v.blocks[z])
    ensures Extends(v0, v', leaf, added + [z])
  {
    hide TreesWF, Grown, Zone, Height, Used, Below, IndexZone, Shaped;
    GrownAll(v, v', n, z);
    forall m ensures Valid(v0, m) == Valid(v, m) { ValidSame(v0, v, m); }
    hide Valid;
    GrownBlocks(v, v', n, z);
    GrownSizes(v, v', n, z);
    assert forall y: nat | y < |v.blocks| && !IndexZone(v', y) :: v'.blocks[y] == v0.blocks[y];
  }

  lemma GrownSizes(v: Vol, v': Vol, n: Node, z: uint16)
    requires Grown(v, v', n, z)
    ensures v'.inodes.Keys == v.inodes.Keys && forall i | i in v.inodes :: v'.inodes[i].size == v.inodes[i].size
    ensures |v'.blocks| == |v.blocks| && v'.first == v.first && v'.zones == v.zones && |v'.zmaps| == |v.zmaps|
    ensures SameModes(v, v')
    ensures Shaped(v) && Shaped(v') && Zone(v, n) == 0 && v != v'
            && forall y: nat :: Used(v', y) == (Used(v, y) || y == z)
  {}

  lemma GrownBlocks(v: Vol, v': Vol, n: Node, z: uint16)
    requires TreesWF(v) && Grown(v, v', n, z)
    requires forall m :: Valid(v', m) == Valid(v, m)
    requires forall m | Valid(v, m) :: Zone(v', m) == if m == n then z else Zone(v, m)
    ensures forall y: nat | y < |v.blocks| && !IndexZone(v', y) :: v'.blocks[y] == v.blocks[y]
    ensures forall y: nat | IndexZone(v, y) :: IndexZone(v', y)
  {
    if n.Sub? {
      assert Valid(v', n.parent) && Height(n.parent) > 0 && n.parent != n && Zone(v', n.parent) == Zone(v, n.parent);
    }
    forall y: nat | IndexZone(v, y) ensures IndexZone(v', y) {
      var p :| Valid(v, p) && Height(p) > 0 && Zone(v, p) == y;
      assert Valid(v', p) && Zone(v', p) == y;
    }
  }

  // ----- bmap, one level at a time -----

  /** index in buf (an index block, or the inode itself) is where node n keeps its zone. */
  predicate At(v: Vol, ino: nat, buf: Option<nat>, index: nat, n: Node) {
    && Valid(v, n)
    && if buf.None? then n == Root(ino, index)
       else n.Sub? && n.j == index && Zone(v, n.parent) == buf.value && 0 < buf.value < |v.blocks|
  }

  lemma SlotIs(v: Vol, ino: nat, buf: Option<nat>, index: nat, n: Node)
    requires At(v, ino, buf, index, n)
    ensures if buf.None? then ino in v.inodes && index < 9 else 0 < buf.value < |v.blocks| && index < BLOCK_INDEXES
    ensures Zone(v, n) == if buf.None? then v.inodes[ino].zone[index] else Word(v.blocks[buf.value], index)
  {}

  /** With level levels of index blocks left, leaf is the descendant of n that left and divider spell. */
  predicate OnPath(leaf: Node, n: Node, level: nat, divider: nat, left: nat) {
    && Height(n) == level
    && match level
       case 0 => leaf == n
       case 1 => divider == 1 && left < BLOCK_INDEXES && leaf == Sub(n, left)
       case _ => level == 2 && divider == BLOCK_INDEXES && left < BLOCK_INDEXES * BLOCK_INDEXES
                 && leaf == Sub(Sub(n, left / BLOCK_INDEXES), left % BLOCK_INDEXES)
  }

  lemma PathStart(ino: nat, block: nat, index: nat, level: nat, divider: nat, left: nat)
    requires block < TOTAL_BLOCK
    requires if block < DIRECT_BLOCK then index == block && level == 0
             else if block - DIRECT_BLOCK < BLOCK_INDEXES then index == 7 && level == 1 && divider == 1
               && left == block - DIRECT_BLOCK
             else index == 8 && level == 2 && divider == BLOCK_INDEXES && left == block - DIRECT_BLOCK - BLOCK_INDEXES
    ensures index < 9 && OnPath(NodeFor(ino, block), Root(ino, index), level, divider, left)
  {}

  lemma GoDown(v: Vol, leaf: Node, n: Node, level: nat, divider: nat, left: nat)
    requires OnPath(leaf, n, level, divider, left) && level > 0 && Valid(v, n) && 0 < Zone(v, n) < |v.blocks|
    ensures divider > 0 && left / divider < BLOCK_INDEXES
    ensures OnPath(leaf, Sub(n, left / divider), level - 1, divider / BLOCK_INDEXES, left % divider)
    ensures At(v, Owner(n), Some(Zone(v, n)), left / divider, Sub(n, left / divider))
  {
    assert Height(Sub(n, left / divider)) == level - 1;
  }

  lemma BelowPath(leaf: Node, n: Node, level: nat, divider: nat, left: nat)
    requires OnPath(leaf, n, level, divider, left)
    ensures Below(leaf, n)
  {
    if level == 2 { assert Below(leaf.parent, n); }
  }

  /** An empty node has only empty nodes below it. */
  lemma EmptyAbove(v: Vol, m: Node, n: Node)
    ensures Below(m, n) && Zone(v, n) == 0 ==> Zone(v, m) == 0
  {
    if m != n && m.Sub? { EmptyAbove(v, m.parent, n); }
  }

  lemma TreesShaped(v: Vol)
    requires TreesWF(v)
    ensures Shaped(v) && Used(v, v.first - 1)
  {}

  /** The map bfree picks for zone z, and the map that holds its bit. */
  function BfreeMap(z: nat): nat { if z == 0 then 0 else (z - 1) / BLOCK_BITS }

  function HolderMap(v: Vol, z: nat): int { (z - (v.first - 1)) / BLOCK_BITS }

  lemma BfreeChoice(v: Vol, z: nat, i: nat)
    requires Shaped(v) && z < v.zones && z <= BLOCK_BITS * (i + 1) && (i > 0 ==> z > BLOCK_BITS * i)
    ensures i == BfreeMap(z)
    ensures var bit := z - (BLOCK_BITS * i + v.first - 1);
            && (i == HolderMap(v, z) && HasBit(v, z) <==> i < |v.zmaps| && 0 <= bit < BLOCK_BITS)
            && (i < |v.zmaps| && 0 <= bit < BLOCK_BITS ==> Used(v, z) == v.zmaps[i][bit])
  {}

  lemma BelowHeight(m: Node, n: Node)
    requires Below(m, n)
    ensures Height(m) <= Height(n) && (m != n ==> Height(m) < Height(n))
  {}

  // ----- index blocks are never cleared -----

  lemma GrownElsewhere(v: Vol, v': Vol, n: Node, z: uint16, m: Node)
    requires TreesWF(v) && Grown(v, v', n, z) && Valid(v, m) && !Below(m, n)
    ensures Zone(v', m) == Zone(v, m)
  {
    if m.Sub? {
      GrownElsewhere(v, v', n, z, m.parent);
      if n.Sub? { SetWordWords(v.blocks[Zone(v, n.parent)], n.j, z); }
    }
  }

  lemma GrownHere(v: Vol, v': Vol, n: Node, z: uint16)
    requires TreesWF(v) && Grown(v, v', n, z)
    ensures Zone(v', n) == z && Valid(v', n)
  {
    ValidSame(v, v', n);
    if n.Sub? {
      if Below(n.parent, n) { BelowHeight(n.parent, n); }
      GrownElsewhere(v, v', n, z, n.parent);
      SetWordWords(v.blocks[Zone(v, n.parent)], n.j, z);
    }
  }

  /** A zone taken for an index block keeps its old bytes, and they are read as
      zone numbers: the trees stay well formed exactly when it held zeros. */
  lemma IndexBlockSound(v: Vol, v': Vol, n: Node, z: uint16)
    requires TreesWF(v) && Grown(v, v', n, z) && Height(n) > 0
    ensures TreesWF(v') <==> ZeroBlock(v.blocks[z])
  {
    if ZeroBlock(v.blocks[z]) {
      GrownKeepsTrees(v, v', n, z);
    } else if TreesWF(v') {
      var i := NonzeroWord(v.blocks[z]);
      StaleWord(v, v', n, z, i);
    }
  }

  lemma NonzeroWord(b: Block) returns (i: nat)
    requires !ZeroBlock(b)
    ensures i < BLOCK_INDEXES && Word(b, i) != 0
  {
    var k :| 0 <= k < BLOCK_SIZE && b[k] != 0;
    i := k / 2;
  }

  /** A number left in a new index zone is taken for a zone of the file. */
  lemma StaleWord(v: Vol, v': Vol, n: Node, z: uint16, i: nat)
    requires TreesWF(v) && Grown(v, v', n, z) && Height(n) > 0 && i < BLOCK_INDEXES && Word(v.blocks[z], i) != 0
    ensures Valid(v', Sub(n, i)) && Zone(v', Sub(n, i)) == Word(v.blocks[z], i) && !TreesWF(v')
  {
    hide TreesWF, Grown, Used;
    GrownHere(v, v', n, z);
    GrownSizes(v, v', n, z);
    KeptBlock(v, v', n, z);
    var w := Word(v.blocks[z], i);
    assert Zone(v', Sub(n, i)) == w && Valid(v', Sub(n, i));
    if Used(v, w) && v.first <= w < v.zones {
      var m := Reacher(v, w);
      EmptyAbove(v, m, n);
      GrownElsewhere(v, v', n, z, m);
      ValidSame(v, v', m);
      OnePlace(v', m, Sub(n, i));
    } else if w == z {
      OnePlace(v', n, Sub(n, i));
    } else {
      UsedPlace(v', Sub(n, i));
    }
  }

  lemma KeptBlock(v: Vol, v': Vol, n: Node, z: uint16)
    requires TreesWF(v) && Grown(v, v', n, z)
    ensures z < |v.blocks| == |v'.blocks| && v'.blocks[z] == v.blocks[z]
    ensures v'.inodes.Keys == v.inodes.Keys && z != 0
  {
    if n.Sub? { assert Used(v, Zone(v, n.parent)); }
  }

  lemma Reacher(v: Vol, w: nat) returns (m: Node)
    requires TreesWF(v) && Used(v, w) && v.first <= w < v.zones
    ensures Valid(v, m) && Zone(v, m) == w
  {
    assert Reached(v, w);
    m :| Valid(v, m) && Zone(v, m) == w;
  }

  lemma OnePlace(v: Vol, m: Node, n: Node)
    requires Valid(v, m) && Valid(v, n) && Zone(v, m) == Zone(v, n) != 0
    ensures TreesWF(v) ==> m == n
  {}

  lemma UsedPlace(v: Vol, n: Node)
    requires Valid(v, n) && Zone(v, n) != 0
    ensures TreesWF(v) ==> v.first <= Zone(v, n) < v.zones && Used(v, Zone(v, n))
  {}
}

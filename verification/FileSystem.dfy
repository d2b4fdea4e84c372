/** src/fs/bitmap.c and src/fs/inode.c: allocation, bmap, read, write, truncate.
    Blocks are read and written in place, as through a transparent buffer cache. */
module FileSystem {
  import opened Bits
  import opened Common
  import opened FileContent
  import opened Growth
  import opened Truncation
  import opened Volume

  class FileSystem {
    const first: nat
    const zones: nat
    var zmaps: seq<seq<bool>>
    var blocks: seq<Block>
    var inodes: map<nat, Inode>

    function State(): Vol
      reads this
    {
      Vol(first, zones, zmaps, blocks, inodes)
    }

    /** A freshly made volume whose data zones read as zeros. */
    constructor (first: nat, zones: nat, maps: nat, inos: set<nat>)
      requires 1 <= first <= zones < 0x1_0000 && 1 <= maps <= ZMAP_NR
      ensures TreesWF(State()) && CleanFree(State()) && inodes.Keys == inos
      ensures forall i | i in inos :: Content(State(), i) == [] && Mapped(State(), i)
    {
      this.first, this.zones := first, zones;
      zmaps := seq(maps, i => seq(BLOCK_BITS, b => i == 0 && b == 0));
      blocks := seq(zones, _ => seq(BLOCK_SIZE, _ => 0));
      inodes := map i | i in inos :: Inode(File, seq(9, _ => 0), 0);
      new;
      BlankKeeps(State());
    }

    /** balloc: the lowest clear bit of the maps, unless it is past the last zone. */
    method Balloc() returns (r: Option<uint16>)
      requires Shaped(State())
      modifies this`zmaps
      ensures Shaped(State()) && |zmaps| == old(|zmaps|)
      ensures r.Some? ==>
                && first - 1 <= r.value < zones && HasBit(State(), r.value) && !Used(old(State()), r.value)
                && (forall z: nat :: Used(State(), z) == (Used(old(State()), z) || z == r.value))
                && (forall z: nat | first - 1 <= z < r.value :: Used(old(State()), z))
      ensures r.None? ==> State() == old(State()) && forall z: nat | z < zones && HasBit(State(), z) :: Used(State(), z)
    {
      for i := 0 to ZMAP_NR
        invariant State() == old(State()) && i <= |zmaps|
        invariant forall z: nat | first - 1 <= z < first - 1 + i * BLOCK_BITS :: Used(State(), z)
      {
        if i == |zmaps| {
          return None;
        }
        var bit := FindRun(zmaps[i], 1);
        if bit.Some? {
          var z := bit.value + i * BLOCK_BITS + first - 1;
          BitPlace(State(), i, bit.value);
          LowestClear(State(), i, bit.value);
          if z >= zones {
            return None;
          }
          zmaps := zmaps[i := zmaps[i][bit.value := true]];
          BitSet(old(State()), State(), i, bit.value, true);
          return Some(z);
        }
        FullMap(State(), i);
      }
      return None;
    }

    /** bfree: every assertion of the code is a way to fail. */
    method Bfree(z: nat) returns (ok: bool)
      requires Shaped(State())
      modifies this`zmaps
      ensures ok <==> z < zones && HasBit(State(), z) && Used(old(State()), z) && BfreeMap(z) == HolderMap(State(), z)
      ensures Shaped(State()) && |zmaps| == old(|zmaps|)
      ensures ok ==> forall y: nat :: Used(State(), y) == (Used(old(State()), y) && y != z)
      ensures !ok ==> State() == old(State())
    {
      if z >= zones {
        return false;
      }
      for i := 0 to ZMAP_NR
        invariant State() == old(State()) && (i > 0 ==> z > BLOCK_BITS * i)
      {
        if z > BLOCK_BITS * (i + 1) {
          continue;
        }
        BfreeChoice(State(), z, i);
        if i >= |zmaps| || z < BLOCK_BITS * i + first - 1 {
          return false;
        }
        var bit := z - (BLOCK_BITS * i + first - 1);
        if bit >= BLOCK_BITS || !zmaps[i][bit] {
          return false;
        }
        zmaps := zmaps[i := zmaps[i][bit := false]];
        BitSet(old(State()), State(), i, bit, false);
        return true;
      }
      return false;
    }

    /** The place a bmap round works on: a slot of the inode or of an index block. */
    function ReadSlot(ino: nat, buf: Option<nat>, index: nat): uint16
      requires if buf.None? then ino in inodes && index < 9 else buf.value < |blocks| && index < BLOCK_INDEXES
      reads this
    {
      if buf.None? then inodes[ino].zone[index] else Word(blocks[buf.value], index)
    }

    /** array[index] = balloc(). */
    method GrowSlot(ino: nat, buf: Option<nat>, index: nat) returns (r: Option<uint16>)
      requires Shaped(State())
      requires if buf.None? then ino in inodes && index < 9 else 0 < buf.value < |blocks| && index < BLOCK_INDEXES
      modifies this
      ensures r.None? ==> State() == old(State()) && Full()
      ensures r.Some? ==> SlotSet(old(State()), State(), ino, buf, index, r.value)
    {
      ghost var v := State();
      hide Used;
      r := Balloc();
      ghost var v1 := State();
      if r.Some? {
        if buf.None? {
          inodes := inodes[ino := inodes[ino].(zone := inodes[ino].zone[index := r.value])];
        } else {
          blocks := blocks[buf.value := SetWord(blocks[buf.value], index, r.value)];
        }
        LowestIs(v, r.value);
        SameMaps(v1, State());
      }
    }

    /** No zone is left. */
    ghost predicate Full()
      requires Shaped(State())
      reads this
    {
      forall z: nat :: !Allocatable(State(), z)
    }

    /** Where bmap starts: a direct slot, or the slot of one of the two index zones. */
    method Split(ino: nat, block: nat) returns (index: nat, level: nat, divider: nat, left: nat)
      requires block < TOTAL_BLOCK
      ensures index < 9 && OnPath(NodeFor(ino, block), Root(ino, index), level, divider, left)
    {
      index, level, divider, left := block, 0, 1, block;
      if block >= DIRECT_BLOCK {
        left := left - DIRECT_BLOCK;
        if left < BLOCK_INDEXES {
          index, level, divider := DIRECT_BLOCK, 1, 1;
        } else {
          left := left - BLOCK_INDEXES;
          index, level, divider := DIRECT_BLOCK + 1, 2, BLOCK_INDEXES;
        }
      }
      PathStart(ino, block, index, level, divider, left);
    }

    /** The step of bmap on one slot: read it, after filling it if it is empty and create
        is set. None when no zone is left. */
    method Fill(ino: nat, buf: Option<nat>, index: nat, create: bool, ghost n: Node,
                ghost v0: Vol, ghost leaf: Node, ghost added: seq<nat>, ghost places: seq<Node>)
        returns (r: Option<uint16>, ghost more: seq<nat>, ghost at: seq<Node>)
      requires Shaped(State()) && At(State(), ino, buf, index, n) && Below(leaf, n) && Height(leaf) == 0
               && Valid(v0, leaf)
      requires TreesWF(v0) ==> Progress(v0, State(), leaf, added, places)
      modifies this
      ensures Shaped(State()) && inodes.Keys == old(inodes.Keys) && At(State(), ino, buf, index, n)
      ensures !create || Zone(old(State()), n) != 0 ==> State() == old(State()) && r.Some?
      ensures TreesWF(v0) ==> Progress(v0, State(), leaf, more, at)
      ensures r.None? ==> Full()
      ensures r.Some? ==> r.value == Zone(State(), n) && (create && TreesWF(v0) ==> r.value != 0)
    {
      hide TreesWF, Progress, SlotSet, Below, Zone, At;
      more, at := added, places;
      ghost var v := State();
      SlotIs(v, ino, buf, index, n);
      if ReadSlot(ino, buf, index) == 0 && create {
        r := GrowSlot(ino, buf, index);
        if r.None? {
          return;
        }
        SlotKeeps(v, State(), ino, buf, index, n, r.value);
        if TreesWF(v0) { GrowProgress(v0, v, State(), leaf, added, places, ino, buf, index, n, r.value); }
        more, at := added + [r.value as nat], places + [n];
        SlotIs(State(), ino, buf, index, n);
      }
      r := Some(ReadSlot(ino, buf, index));
    }

    /** bmap: the zone of logical block `block`; with create, missing zones are
        allocated on the way down. None is a failed assertion, or a zone number that
        lies behind the device. On well-formed trees a call that creates leaves them well
        formed exactly when the zones it would take for index blocks read as zeros. */
    method Bmap(ino: nat, block: nat, create: bool) returns (r: Option<uint16>, ghost added: seq<nat>)
      requires Shaped(State()) && ino in inodes
      modifies this
      ensures Shaped(State()) && inodes.Keys == old(inodes.Keys)
      ensures !create || block >= TOTAL_BLOCK ==> State() == old(State())
      ensures r.Some? ==> block < TOTAL_BLOCK && r.value == Zone(State(), NodeFor(ino, block))
      ensures r.Some? && Zone(old(State()), NodeFor(ino, block)) != 0 ==> State() == old(State())
      ensures old(TreesWF(State())) && !create ==> (r.None? <==> block >= TOTAL_BLOCK)
      ensures old(TreesWF(State())) && create && block < TOTAL_BLOCK ==>
                (TreesWF(State()) <==> Clean(old(State()), NodeFor(ino, block)))
      ensures old(TreesWF(State())) && TreesWF(State()) ==>
                && Extends(old(State()), State(), NodeFor(ino, block), added)
                && |added| + Needed(State(), NodeFor(ino, block)) == Needed(old(State()), NodeFor(ino, block))
                && Ahead(old(State()), State(), |added|)
                && (old(CleanFree(State())) ==> CleanFree(State()))
                && (create && r.Some? ==> r.value != 0) && (create && r.None? ==> block >= TOTAL_BLOCK || Full())
    {
      hide TreesWF, CleanFree, Extends, Progress, Clean, Needed, NodeFor, Full, Ahead;
      added := [];
      ghost var places: seq<Node> := [];
      ghost var v0 := State();
      ghost var leaf := NodeFor(ino, block);
      if TreesWF(v0) { ProgressNone(v0, leaf); }
      if block >= TOTAL_BLOCK {
        if TreesWF(v0) { ProgressEnds(v0, v0, leaf, [], [], Root(ino, 0)); }
        return None, added;
      }
      NodeForValid(v0, ino, block);
      var index: nat, level: nat, divider: nat, left: nat := Split(ino, block);
      var buf: Option<nat> := None;
      ghost var n := Root(ino, index);
      while true
        invariant Shaped(State()) && inodes.Keys == v0.inodes.Keys
        invariant At(State(), ino, buf, index, n) && OnPath(leaf, n, level, divider, left)
        invariant TreesWF(v0) ==> Progress(v0, State(), leaf, added, places)
        invariant !create || Zone(v0, leaf) != 0 ==> State() == v0
        decreases level
      {
        BelowPath(leaf, n, level, divider, left);
        EmptyAbove(State(), leaf, n);
        var z;
        z, added, places := Fill(ino, buf, index, create, n, v0, leaf, added, places);
        if z.None? {
          if TreesWF(v0) { EndsFull(v0, leaf, added, places); }
          return None, added;
        }
        if TreesWF(v0) { ProgressEnds(v0, State(), leaf, added, places, n); }
        if level == 0 || z.value == 0 {
          EmptyAbove(State(), leaf, n);
          return z, added;
        }
        if z.value >= |blocks| {
          return None, added;
        }
        GoDown(State(), leaf, n, level, divider, left);
        buf := Some(z.value);
        index := left / divider;
        left := left % divider;
        divider := divider / BLOCK_INDEXES;
        level := level - 1;
        n := Sub(n, index);
      }
    }

    lemma EndsFull(v0: Vol, leaf: Node, added: seq<nat>, places: seq<Node>)
      requires Shaped(State()) && Full() && Progress(v0, State(), leaf, added, places)
      ensures Shaped(v0) && Outcome(v0, State(), leaf, added) && (TreesWF(State()) <==> Clean(v0, leaf))
    {
      ProgressFull(v0, State(), leaf, added, places);
    }

    /** inode_read: None is the failed assertion, on a hole in the range read; an empty
        result at or past the end stands for EOF. */
    method InodeRead(ino: nat, len: nat, offset: nat) returns (r: Option<seq<byte>>)
      requires TreesWF(State()) && ino in inodes
      modifies this
      ensures State() == old(State())
      ensures r.None? <==> inodes[ino].mode == Special
                           || (offset < inodes[ino].size
                               && !RangeThere(State(), ino, offset, Min(len, inodes[ino].size - offset)))
      ensures inodes[ino].mode != Special && Mapped(State(), ino) ==> r.Some?
      // as many bytes as asked for, or all up to the end of the file
      ensures r.Some? && offset <= inodes[ino].size ==>
                if len <= inodes[ino].size - offset then |r.value| == len else offset + |r.value| == inodes[ino].size
      ensures r.Some? ==>
                r.value == if offset >= inodes[ino].size then []
                           else Content(State(), ino)[offset..offset + Min(len, inodes[ino].size - offset)]
    {
      hide TreesWF, NodeFor, Zone, Mapped, ByteAt, There;
      if inodes[ino].mode == Special {
        return None;
      }
      if offset >= inodes[ino].size {
        return Some([]);
      }
      var pos := offset;
      var left: nat := Min(len, inodes[ino].size - offset);
      ghost var n := left;
      if Mapped(State(), ino) { MappedRange(State(), ino, offset, n); }
      var buf: seq<byte> := [];
      while left > 0
        invariant State() == old(State()) && |buf| == pos - offset && pos + left == offset + n
        invariant RangeThere(State(), ino, offset, pos - offset)
        invariant forall i | 0 <= i < |buf| :: buf[i] == ByteAt(State(), ino, offset + i)
      {
        var chunk := ReadRound(ino, pos, left);
        if chunk.None? {
          return None;
        }
        buf := buf + chunk.value;
        pos := pos + |chunk.value|;
        left := left - |chunk.value|;
      }
      assert buf == Content(State(), ino)[offset..pos];
      return Some(buf);
    }

    /** One round of inode_read's loop, at most to the end of a block. */
    method ReadRound(ino: nat, pos: nat, left: nat) returns (chunk: Option<seq<byte>>)
      requires TreesWF(State()) && ino in inodes && left > 0
      modifies this
      ensures State() == old(State())
      ensures chunk.None? <==> !(pos / BLOCK_SIZE < TOTAL_BLOCK && There(State(), ino, pos))
      ensures chunk.Some? ==>
                && 0 < |chunk.value| <= left && RangeThere(State(), ino, pos, |chunk.value|)
                && forall i | 0 <= i < |chunk.value| :: chunk.value[i] == ByteAt(State(), ino, pos + i)
    {
      hide TreesWF, CleanFree, Extends, Clean, Needed, Full, NodeFor, Zone, Ahead;
      TreesShaped(State());
      var nr, added := Bmap(ino, pos / BLOCK_SIZE, false);
      if nr.None? || nr.value == 0 {
        return None;
      }
      var start := pos % BLOCK_SIZE;
      var chars := Min(BLOCK_SIZE - start, left);
      ZoneInRange(State(), NodeFor(ino, pos / BLOCK_SIZE), ino, pos / BLOCK_SIZE);
      ChunkRead(State(), ino, pos, chars);
      RangeNext(State(), ino, pos, pos, chars);
      return Some(blocks[nr.value][start..start + chars]);
    }

    /** The body of inode_write's loop once the zone is there: the bytes, and the size
        if they end behind it. */
    method CopyIn(ino: nat, nr: uint16, start: nat, chunk: seq<byte>, end: nat)
      requires ino in inodes && nr < |blocks| && start + |chunk| <= BLOCK_SIZE
      modifies this
      ensures var size := if end > old(inodes)[ino].size then end else old(inodes)[ino].size;
              State() == old(State()).(blocks := old(blocks)[nr := PutBytes(old(blocks)[nr], start, chunk)],
                                       inodes := old(inodes)[ino := old(inodes)[ino].(size := size)])
    {
      blocks := blocks[nr := PutBytes(blocks[nr], start, chunk)];
      if end > inodes[ino].size {
        inodes := inodes[ino := inodes[ino].(size := end)];
      }
      assert inodes == old(inodes)[ino := old(inodes)[ino].(size := inodes[ino].size)];
    }

    /** One round of inode_write's loop, at most to the end of a block; v0 is the volume
        before the write. */
    method WriteRound(ino: nat, data: seq<byte>, offset: nat, pos: nat, left: nat, ghost v0: Vol)
            returns (chars: Option<nat>)
      requires Shaped(State()) && ino in inodes && 0 < left && offset <= pos && pos + left == offset + |data|
      modifies this
      ensures Shaped(State()) && inodes.Keys == old(inodes.Keys)
      ensures chars.Some? ==> 0 < chars.value <= left && pos + chars.value <= TOTAL_BLOCK * BLOCK_SIZE
      ensures old(Writing(v0, State(), ino, offset, data, pos)) ==>
                && TreesWF(State()) && (old(CleanFree(State())) ==> CleanFree(State()))
                && if chars.Some? then Writing(v0, State(), ino, offset, data, pos + chars.value)
                   else pos / BLOCK_SIZE >= TOTAL_BLOCK || Full()
    {
      hide TreesWF, CleanFree, Extends, Writing, NodeFor, PutBytes, Zone, Poked, Full, Needed, Clean;
      ghost var v := State();
      ghost var good := Writing(v0, v, ino, offset, data, pos);
      ghost var leaf := NodeFor(ino, pos / BLOCK_SIZE);
      if good { WritingNow(v0, v, ino, offset, data, pos); }
      var nr, added := Bmap(ino, pos / BLOCK_SIZE, true);
      ghost var v1 := State();
      if good && nr.Some? { ZoneInRange(v1, leaf, ino, pos / BLOCK_SIZE); }
      if nr.None? || nr.value == 0 || nr.value >= |blocks| {
        return None;
      }
      var start := pos % BLOCK_SIZE;
      var n := Min(BLOCK_SIZE - start, left);
      var chunk := data[pos - offset..pos - offset + n];
      CopyIn(ino, nr.value, start, chunk, pos + n);
      if good {
        ExtendsFacts(v, v1, leaf, added);
        PokedNow(v1, State(), ino, pos / BLOCK_SIZE, start, chunk);
        WriteNext(v0, v, v1, State(), ino, offset, data, pos, added, chunk);
        WritingIs(v0, State(), ino, offset, data, pos + n);
      }
      return Some(n);
    }

    /** inode_write: None is a failed assertion. When the trees are well formed and the
        write is ready they stay well formed, the file becomes the splice, every other
        file is as before, and a failure means no zone is left or the file is too large. */
    method InodeWrite(ino: nat, data: seq<byte>, offset: nat) returns (r: Option<nat>)
      requires Shaped(State()) && ino in inodes
      modifies this
      ensures Shaped(State()) && inodes.Keys == old(inodes.Keys)
      ensures r.Some? ==> r.value == |data| && old(inodes[ino].mode == File)
      ensures r.Some? && data != [] ==> offset + |data| <= TOTAL_BLOCK * BLOCK_SIZE
      ensures old(CanWrite(State(), ino, offset, |data|)) ==>
                && TreesWF(State()) && (old(CleanFree(State())) ==> CleanFree(State()))
                && if r.Some? then Wrote(old(State()), State(), ino, offset, data)
                   else old(inodes[ino].mode != File) || offset + |data| > TOTAL_BLOCK * BLOCK_SIZE || Full()
    {
      hide TreesWF, CleanFree, Writing, CanWrite, Wrote, Full;
      ghost var v0 := State();
      ghost var good := CanWrite(v0, ino, offset, |data|);
      if good { WriteStart(v0, ino, offset, data); CanWriteIs(v0, ino, offset, |data|); }
      if inodes[ino].mode != File {
        return None;
      }
      var pos: nat, left: nat := offset, |data|;
      while left > 0
        invariant pos > offset ==> pos <= TOTAL_BLOCK * BLOCK_SIZE
        invariant pos + left == offset + |data| && pos >= offset && Shaped(State()) && inodes.Keys == v0.inodes.Keys
        invariant good ==>
                  TreesWF(State()) && Writing(v0, State(), ino, offset, data, pos)
                  && (CleanFree(v0) ==> CleanFree(State()))
        decreases left
      {
        var chars := WriteRound(ino, data, offset, pos, left, v0);
        if chars.None? {
          return None;
        }
        pos := pos + chars.value;
        left := left - chars.value;
      }
      if good { WriteDone(v0, State(), ino, offset, data); }
      return Some(pos - offset);
    }

    /** What inode_write wrote, inode_read gives back; and whatever could be read before,
        of another file or of this one outside the range written, is read as before. */
    method WriteThenRead(ino: nat, data: seq<byte>, offset: nat, j: nat, len: nat, at: nat)
            returns (w: Option<nat>, r: Option<seq<byte>>, before: Option<seq<byte>>, after: Option<seq<byte>>)
      requires CanWrite(State(), ino, offset, |data|) && ino in inodes && j in inodes
      modifies this
      ensures w.Some? ==> r == Some(data)
      ensures w.Some? && before.Some? && (j != ino || at + |before.value| <= offset || offset + |data| <= at) ==>
                after == before
    {
      hide TreesWF, CanWrite, Wrote, Full, Content, RangeThere, Mapped;
      r, after := None, None;
      CanWriteIs(State(), ino, offset, |data|);
      TreesShaped(State());
      before := InodeRead(j, len, at);
      ghost var v0 := State();
      w := InodeWrite(ino, data, offset);
      if w.Some? {
        WroteReads(v0, State(), ino, offset, data);
        r := InodeRead(ino, |data|, offset);
        if before.Some? {
          RangeNone(v0, j, at);
          if j != ino || at + |before.value| <= offset || offset + |data| <= at {
            WroteKeeps(v0, State(), ino, offset, data, j, at, |before.value|);
          }
          after := InodeRead(j, |before.value|, at);
        }
      }
    }

    /** inode_bfree: gives up the zone kept in slot `index` and, with level > 0,
        every zone below it first. v0 is the volume before the truncation. */
    method InodeBfree(ino: nat, buf: Option<nat>, index: nat, level: nat, ghost v0: Vol, ghost n: Node)
            returns (ok: bool)
      requires TreesWF(v0) && At(v0, ino, buf, index, n) && Height(n) == level && Shaped(State())
      requires first == v0.first && zones == v0.zones && |zmaps| == |v0.zmaps| && blocks == v0.blocks
      requires buf.None? ==> ino in inodes && inodes[ino].zone[index] == v0.inodes[ino].zone[index]
      requires forall z: nat | HeldBelow(v0, n, z) :: Used(State(), z)
      modifies this`zmaps
      ensures Shaped(State()) && |zmaps| == old(|zmaps|)
      ensures ok <==> forall z: nat | HeldBelow(v0, n, z) :: Freeable(v0, z)
      ensures ok ==> forall z: nat :: Used(State(), z) == (Used(old(State()), z) && !HeldBelow(v0, n, z))
      decreases level
    {
      hide TreesWF, HeldBelow, Freeable;
      SlotIs(v0, ino, buf, index, n);
      var z0 := ReadSlot(ino, buf, index);
      EmptyHolds(v0, n);
      if z0 == 0 {
        return true;
      }
      HeldSelf(v0, n);
      if level == 0 {
        LeafHolds(v0, n);
        ok := Bfree(z0);
        FreeableIs(v0, State(), z0);
        return;
      }
      ghost var s0 := State();
      for i := 0 to BLOCK_INDEXES
        invariant Shaped(State()) && |zmaps| == |v0.zmaps|
        invariant forall z: nat | FreedBefore(v0, n, i, z) :: Freeable(v0, z)
        invariant forall z: nat :: Used(State(), z) == (Used(s0, z) && !FreedBefore(v0, n, i, z))
      {
        ChildSlot(v0, n, i);
        forall z: nat | HeldBelow(v0, Sub(n, i), z) ensures Used(State(), z) {
          ChildHeld(v0, n, i, z);
        }
        ghost var s := State();
        ok := InodeBfree(ino, Some(z0), i, level - 1, v0, Sub(n, i));
        if !ok {
          ghost var z: nat :| HeldBelow(v0, Sub(n, i), z) && !Freeable(v0, z);
          ChildHeld(v0, n, i, z);
          return false;
        }
        FreedNext(v0, n, i);
      }
      ParentLeft(v0, n);
      ok := Bfree(z0);
      FreeableIs(v0, s0, z0);
      AllFreed(v0, n);
    }

    /** inode_truncate: frees exactly the zones reachable from the inode, each once. */
    method InodeTruncate(ino: nat) returns (ok: bool)
      requires TreesWF(State()) && ino in inodes
      modifies this
      ensures old(inodes[ino].mode == Special) ==> ok && State() == old(State())
      ensures old(inodes[ino].mode != Special) ==>
              (ok <==> forall z: nat | HeldBy(old(State()), ino, z) :: Freeable(old(State()), z))
      ensures ok && old(inodes[ino].mode != Special) ==> Truncated(old(State()), State(), ino)
    {
      hide TreesWF, HeldBelow, HeldBy, Freeable, Used, FreedSlots, Shaped;
      if inodes[ino].mode == Special {
        return true;
      }
      ghost var v0 := State();
      TreesShaped(v0);
      NoSlots(v0, ino);
      var slot := 0;
      while slot < 9
        invariant 0 <= slot <= 9 && Shaped(State()) && |zmaps| == |v0.zmaps| && blocks == v0.blocks
        invariant ino in inodes && inodes == v0.inodes[ino := v0.inodes[ino].(zone := inodes[ino].zone)]
        invariant forall s | 0 <= s < 9 :: inodes[ino].zone[s] == if s < slot && s < DIRECT_BLOCK then 0
                  else v0.inodes[ino].zone[s]
        invariant forall z: nat | FreedSlots(v0, ino, slot, z) :: Freeable(v0, z)
        invariant forall z: nat :: Used(State(), z) == (Used(v0, z) && !FreedSlots(v0, ino, slot, z))
      {
        forall z: nat | HeldBelow(v0, Root(ino, slot), z) ensures Used(State(), z) {
          SlotHeld(v0, ino, slot, z);
        }
        // the seven direct zones are cleared one by one, the two index zones after both are freed
        ok := InodeBfree(ino, None, slot, if slot < DIRECT_BLOCK then 0 else slot - 6, v0, Root(ino, slot));
        if !ok {
          ghost var z: nat :| HeldBelow(v0, Root(ino, slot), z) && !Freeable(v0, z);
          SlotHeld(v0, ino, slot, z);
          return false;
        }
        ghost var s := State();
        if slot < DIRECT_BLOCK {
          inodes := inodes[ino := inodes[ino].(zone := inodes[ino].zone[slot := 0])];
        }
        SameMaps(s, State());
        FreedSlotNext(v0, ino, slot);
        slot := slot + 1;
      }
      ghost var s := State();
      inodes := inodes[ino := inodes[ino].(zone := inodes[ino].zone[DIRECT_BLOCK := 0][DIRECT_BLOCK + 1 := 0],
        size := 0)];
      SameMaps(s, State());
      AllSlots(v0, ino);
      assert inodes[ino].zone == seq(9, _ => 0);
      return true;
    }

    /** What a caller can find out before a write to blocks lo to hi: the free zones, in the
        order balloc hands them out, beside the places the write fills. */
    method CheckReady(ino: nat, lo: nat, hi: nat) returns (b: bool)
      requires Shaped(State())
      ensures b <==> Ready(State(), ino, lo, hi)
    {
      hide Plan, Height;
      var plan := Plan(State(), ino, lo, hi, {});
      var free: nat := 0;
      assert FreeBelow(State(), first - 1) == {};
      for z := first - 1 to zones
        invariant free == |FreeBelow(State(), z)|
        invariant forall y: nat | y < z && Allocatable(State(), y) && |FreeBelow(State(), y)| < |plan|
                                  && Height(plan[|FreeBelow(State(), y)|]) > 0 :: ZeroBlock(blocks[y])
      {
        FreeBelowNext(State(), z);
        if !Used(State(), z) {
          if HasBit(State(), z) && free < |plan| && Height(plan[free]) > 0 && !ZeroBlock(blocks[z]) {
            return false;
          }
          free := free + 1;
        }
      }
      return true;
    }

    /** Every run of writes and truncations does to the files what it does to byte strings,
        whatever the freed zones still hold. It stops early only before a write that leaves a
        hole or is not ready, an operation on something that is no file, or at a failed assertion. */
    method Run(ops: seq<FileOp>) returns (done: nat, failed: bool, ghost v: Vol)
      requires TreesWF(State()) && AllMapped(State())
      modifies this
      ensures done <= |ops|
      // v is the volume after the operations done
      ensures TreesWF(v) && AllMapped(v) && Contents(v) == AppliedAll(old(Contents(State())), ops[..done])
      ensures !failed ==> State() == v
      ensures !failed && done < |ops| ==> !Allowed(v, ops[done])
      ensures failed ==> done < |ops| && Allowed(v, ops[done]) && Fails(v, ops[done], State())
    {
      hide TreesWF, AllMapped, Contents, CanWrite, Wrote, Truncated, Applied, AppliedAll, HeldBy, Ready, Freeable;
      done, failed, v := 0, false, State();
      ghost var fs := Contents(v);
      assert ops[..0] == [];
      AppliedNone(fs);
      while done < |ops|
        invariant done <= |ops| && !failed && v == State() && TreesWF(v) && AllMapped(v)
        invariant Contents(v) == AppliedAll(fs, ops[..done])
      {
        var allowed := CheckAllowed(ops[done]);
        if !allowed {
          return;
        }
        TreesShaped(v);
        AppliedNext(fs, ops, done);
        match ops[done] {
          case Write(i, offset, data) =>
            var r := InodeWrite(i, data, offset);
            if r.None? {
              failed := true;
              return;
            }
            WroteAll(v, State(), i, offset, data);
            WroteTrees(v, State(), i, offset, data);
          case Truncate(i) =>
            var ok := InodeTruncate(i);
            if !ok {
              failed := true;
              return;
            }
            TruncatedAll(v, State(), i);
        }
        done, v := done + 1, State();
      }
    }

    method CheckAllowed(op: FileOp) returns (b: bool)
      requires TreesWF(State())
      ensures b <==> Allowed(State(), op)
    {
      hide TreesWF, Ready;
      TreesShaped(State());
      if op.ino !in inodes {
        return false;
      }
      match op {
        case Write(i, offset, data) =>
          if offset > inodes[i].size {
            return false;
          }
          b := CheckReady(i, offset / BLOCK_SIZE, EndBlock(offset + |data|));
        case Truncate(i) => b := inodes[i].mode != Special;
      }
    }
  }
}

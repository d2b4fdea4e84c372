/** Files on a volume as byte sequences: what one write of bytes into a zone does to
    the contents of every file. */
module FileContent {
  import opened Growth
  import opened Volume

  // ----- contents -----

  function ByteAt(v: Vol, ino: nat, k: nat): byte {
    var z := Zone(v, NodeFor(ino, k / BLOCK_SIZE));
    if 0 < z < |v.blocks| then v.blocks[z][k % BLOCK_SIZE] else 0
  }

  /** No block below the size is missing. */
  ghost predicate Mapped(v: Vol, ino: nat)
    requires ino in v.inodes
  {
    forall b: nat | b * BLOCK_SIZE < v.inodes[ino].size :: b < TOTAL_BLOCK && Zone(v, NodeFor(ino, b)) != 0
  }

  function Content(v: Vol, ino: nat): seq<byte>
    requires ino in v.inodes
  {
    seq(v.inodes[ino].size, k requires 0 <= k < v.inodes[ino].size => ByteAt(v, ino, k))
  }

  function Min(a: nat, b: nat): (r: nat)
    ensures r <= a && r <= b && (r == a || r == b)
  {
    if a <= b then a else b
  }

  /** c with data written at offset, which lies within c or at its end. */
  function Splice(c: seq<byte>, offset: nat, data: seq<byte>): seq<byte>
    requires offset <= |c|
  {
    c[..offset] + data + (if offset + |data| < |c| then c[offset + |data|..] else [])
  }

  /** What was written is read back, and what was before it and behind it as well. */
  lemma SpliceReads(c: seq<byte>, offset: nat, data: seq<byte>)
    requires offset <= |c|
    ensures var s := Splice(c, offset, data);
            && |s| == (if offset + |data| > |c| then offset + |data| else |c|)
            && s[offset..offset + |data|] == data && s[..offset] == c[..offset]
            && (offset + |data| <= |c| ==> s[offset + |data|..] == c[offset + |data|..])
  {}

  // ----- writing bytes -----

  function PutBytes(b: Block, start: nat, chunk: seq<byte>): Block
    requires start + |chunk| <= BLOCK_SIZE
  {
    b[..start] + chunk + b[start + |chunk|..]
  }

  /** The byte view of the block at node n. */
  function NodeByte(v: Vol, n: Node, i: nat): byte
    requires i < BLOCK_SIZE
  {
    var z := Zone(v, n);
    if 0 < z < |v.blocks| then v.blocks[z][i] else 0
  }

  /** v2 is v1 with chunk stored in the block at leaf, and possibly a new size. */
  ghost predicate Poked(v1: Vol, v2: Vol, leaf: Node, start: nat, chunk: seq<byte>, size: nat) {
    && start + |chunk| <= BLOCK_SIZE && Owner(leaf) in v1.inodes && 0 < Zone(v1, leaf) < |v1.blocks|
    && v2 == v1.(blocks := v1.blocks[Zone(v1, leaf) := PutBytes(v1.blocks[Zone(v1, leaf)], start, chunk)],
                 inodes := v1.inodes[Owner(leaf) := v1.inodes[Owner(leaf)].(size := size)])
  }

  lemma PokedZones(v1: Vol, v2: Vol, leaf: Node, start: nat, chunk: seq<byte>, size: nat, n: Node)
    requires TreesWF(v1) && Poked(v1, v2, leaf, start, chunk, size) && Valid(v1, leaf) && Height(leaf) == 0
             && Valid(v1, n)
    ensures Zone(v2, n) == Zone(v1, n) && Valid(v2, n)
  {
    ValidSame(v1, v2, n);
    if n.Sub? { PokedZones(v1, v2, leaf, start, chunk, size, n.parent); }
  }

  lemma PokedKeepsTrees(v1: Vol, v2: Vol, leaf: Node, start: nat, chunk: seq<byte>, size: nat)
    requires TreesWF(v1) && Poked(v1, v2, leaf, start, chunk, size) && Valid(v1, leaf) && Height(leaf) == 0
    ensures TreesWF(v2) && (CleanFree(v1) ==> CleanFree(v2))
    ensures forall n :: Valid(v2, n) == Valid(v1, n)
    ensures forall n | Valid(v1, n) :: Zone(v2, n) == Zone(v1, n)
  {
    forall n ensures Valid(v2, n) == Valid(v1, n) { ValidSame(v1, v2, n); }
    forall n | Valid(v1, n) ensures Zone(v2, n) == Zone(v1, n) { PokedZones(v1, v2, leaf, start, chunk, size, n); }
    assert forall y: nat :: Used(v2, y) == Used(v1, y);
    assert Used(v1, Zone(v1, leaf));
    hide Valid, Zone, Height, Used, Reached;
    forall y: nat | v2.first <= y < v2.zones && Used(v2, y) ensures Reached(v2, y) {
      assert Reached(v1, y);
      SameReached(v1, v2, y);
    }
  }

  /** Writing into a data zone takes no zone and fills none that is free. */
  lemma PokedReady(v1: Vol, v2: Vol, leaf: Node, start: nat, chunk: seq<byte>, size: nat, ino: nat, lo: nat, hi: nat)
    requires TreesWF(v1) && Poked(v1, v2, leaf, start, chunk, size) && Valid(v1, leaf) && Height(leaf) == 0
    requires Ready(v1, ino, lo, hi) && ino in v1.inodes
    ensures Shaped(v2) && Ready(v2, ino, lo, hi)
  {
    PokedKeepsTrees(v1, v2, leaf, start, chunk, size);
    PokedFree(v1, v2, leaf, start, chunk, size);
    hide TreesWF, Poked, Zone, Valid, Plan, ZeroBlock, Height, Allocatable, FreeBelow;
    PlanSame(v1, v2, ino, lo, hi, {}, {});
  }

  lemma PokedFree(v1: Vol, v2: Vol, leaf: Node, start: nat, chunk: seq<byte>, size: nat)
    requires TreesWF(v1) && Poked(v1, v2, leaf, start, chunk, size) && Valid(v1, leaf)
    ensures Shaped(v2) && v2.inodes.Keys == v1.inodes.Keys
    ensures forall z: nat :: Allocatable(v2, z) == Allocatable(v1, z)
    ensures forall z: nat | Allocatable(v1, z) :: FreeBelow(v2, z) == FreeBelow(v1, z) && v2.blocks[z] == v1.blocks[z]
  {
    assert forall z: nat :: Used(v2, z) == Used(v1, z);
  }

  lemma SameReached(v1: Vol, v2: Vol, y: nat)
    requires forall n | Valid(v1, n) :: Valid(v2, n) && Zone(v2, n) == Zone(v1, n)
    requires Reached(v1, y)
    ensures Reached(v2, y)
  {
    var n :| Valid(v1, n) && Zone(v1, n) == y;
    assert Valid(v2, n) && Zone(v2, n) == y;
  }

  /** Growing the path to leaf leaves every data byte alone; a new leaf of a clean
      volume reads as zeros. */
  lemma ExtendsBytes(v: Vol, v1: Vol, leaf: Node, added: seq<nat>, n: Node, i: nat)
    requires TreesWF(v) && TreesWF(v1) && Extends(v, v1, leaf, added)
    requires Valid(v, n) && Valid(v1, n) && Height(n) == 0 && i < BLOCK_SIZE && Height(leaf) == 0
    requires if n != leaf then !Below(leaf, n) else Zone(v, n) != 0 || CleanFree(v)
    ensures NodeByte(v1, n, i) == NodeByte(v, n, i)
  {
    var z := Zone(v1, n);
    if z != 0 {
      assert !IndexZone(v1, z);
      if Zone(v, n) == 0 {
        assert n == leaf;
        if Used(v, z) {
          assert Reached(v, z);
          var m :| Valid(v, m) && Zone(v, m) == z;
          assert Zone(v1, m) == z;
          ValidSame(v, v1, m);
          assert false;
        }
      }
    }
  }

  lemma LeafNotBelow(leaf: Node, n: Node)
    requires Height(leaf) == 0 && Height(n) == 0 && n != leaf
    ensures !Below(leaf, n)
  {
    if Below(leaf, n) { BelowHeight(leaf, n); }
  }

  /** After a chunk is written, the bytes of all files are the old ones except in the chunk. */
  lemma ChunkBytes(v: Vol, v1: Vol, v2: Vol, leaf: Node, added: seq<nat>, start: nat, chunk: seq<byte>, size: nat,
          n: Node, i: nat)
    requires TreesWF(v) && TreesWF(v1) && Extends(v, v1, leaf, added) && Poked(v1, v2, leaf, start, chunk, size)
    requires Valid(v, leaf) && Height(leaf) == 0 && Valid(v, n) && Height(n) == 0 && i < BLOCK_SIZE
    requires n != leaf || start <= i < start + |chunk| || Zone(v, n) != 0 || CleanFree(v)
    ensures NodeByte(v2, n, i) == if n == leaf && start <= i < start + |chunk| then chunk[i - start]
            else NodeByte(v, n, i)
  {
    ValidSame(v, v1, n);
    ValidSame(v, v1, leaf);
    PokedBytes(v1, v2, leaf, start, chunk, size, n, i);
    if n != leaf { LeafNotBelow(leaf, n); }
    hide TreesWF, Extends, Poked, NodeByte;
    if n != leaf || Zone(v, n) != 0 || CleanFree(v) { ExtendsBytes(v, v1, leaf, added, n, i); }
  }

  lemma PokedBytes(v1: Vol, v2: Vol, leaf: Node, start: nat, chunk: seq<byte>, size: nat, n: Node, i: nat)
    requires TreesWF(v1) && Poked(v1, v2, leaf, start, chunk, size)
    requires Valid(v1, leaf) && Height(leaf) == 0 && Valid(v1, n) && i < BLOCK_SIZE
    ensures NodeByte(v2, n, i) == if n == leaf && start <= i < start + |chunk| then chunk[i - start]
            else NodeByte(v1, n, i)
  {
    PokedZones(v1, v2, leaf, start, chunk, size, n);
  }

  lemma ByteIsNodeByte(v: Vol, ino: nat, k: nat)
    ensures ByteAt(v, ino, k) == NodeByte(v, NodeFor(ino, k / BLOCK_SIZE), k % BLOCK_SIZE)
  {}

  /** The block of byte k is there. */
  predicate There(v: Vol, ino: nat, k: nat) { Zone(v, NodeFor(ino, k / BLOCK_SIZE)) != 0 }

  /** The same, byte by byte of every file: what a block new to the file holds outside the
      chunk is what its zone held, zeros on a clean volume. */
  lemma ChunkWritten(v: Vol, v1: Vol, v2: Vol, ino: nat, pos: nat, added: seq<nat>, chunk: seq<byte>, size: nat,
          j: nat, k: nat)
    requires ino in v.inodes && j in v.inodes && pos / BLOCK_SIZE < TOTAL_BLOCK && k / BLOCK_SIZE < TOTAL_BLOCK
    requires TreesWF(v) && TreesWF(v1) && Extends(v, v1, NodeFor(ino, pos / BLOCK_SIZE), added)
    requires Poked(v1, v2, NodeFor(ino, pos / BLOCK_SIZE), pos % BLOCK_SIZE, chunk, size)
    requires j != ino || pos <= k < pos + |chunk| || There(v, ino, k) || CleanFree(v)
    ensures ByteAt(v2, j, k) == if j == ino && pos <= k < pos + |chunk| then chunk[k - pos] else ByteAt(v, j, k)
  {
    hide TreesWF, CleanFree, Extends, Poked;
    var leaf, n := NodeFor(ino, pos / BLOCK_SIZE), NodeFor(j, k / BLOCK_SIZE);
    ByteIsNodeByte(v, j, k);
    ByteIsNodeByte(v2, j, k);
    NodeForValid(v, ino, pos / BLOCK_SIZE);
    NodeForValid(v, j, k / BLOCK_SIZE);
    ChunkFits(v1, v2, leaf, pos % BLOCK_SIZE, chunk, size);
    if n == leaf { NodeForInjective(ino, pos / BLOCK_SIZE, j, k / BLOCK_SIZE); }
    if j == ino && pos <= k < pos + |chunk| { assert k / BLOCK_SIZE == pos / BLOCK_SIZE; }
    hide NodeFor;
    ChunkBytes(v, v1, v2, leaf, added, pos % BLOCK_SIZE, chunk, size, n, k % BLOCK_SIZE);
  }

  lemma ChunkFits(v1: Vol, v2: Vol, leaf: Node, start: nat, chunk: seq<byte>, size: nat)
    requires Poked(v1, v2, leaf, start, chunk, size)
    ensures start + |chunk| <= BLOCK_SIZE
  {}

  // ----- files as byte sequences -----

  /** A byte of file j that the write of the first done bytes at offset decides: another
      file's, one that was there before, one written, and on a clean volume every one. */
  ghost predicate Decided(v0: Vol, ino: nat, offset: nat, done: nat, j: nat, k: nat) {
    && k / BLOCK_SIZE < TOTAL_BLOCK
    && (j != ino || There(v0, ino, k) || offset <= k < offset + done || CleanFree(v0))
  }

  /** The write of the first done bytes of data at offset has changed file ino so far, and no other. */
  ghost predicate WrittenSoFar(v0: Vol, v: Vol, ino: nat, offset: nat, data: seq<byte>, done: nat)
  {
    && v.inodes.Keys == v0.inodes.Keys && ino in v0.inodes && done <= |data|
    && (forall j | j in v0.inodes && j != ino :: v.inodes[j].size == v0.inodes[j].size) && SameModes(v0, v)
    && v.inodes[ino].size == (if done > 0 && offset + done > v0.inodes[ino].size then offset + done
       else v0.inodes[ino].size)
    && (forall j, k: nat | j in v0.inodes && Decided(v0, ino, offset, done, j, k) ::
          ByteAt(v, j, k) == if j == ino && offset <= k < offset + done then data[k - offset] else ByteAt(v0, j, k))
    && (forall j, k: nat | j in v0.inodes && k / BLOCK_SIZE < TOTAL_BLOCK
                           && (There(v0, j, k) || (j == ino && offset <= k < offset + done)) ::
          There(v, j, k))
    && (CleanFree(v0) ==> CleanFree(v))
  }

  /** What WrittenSoFar means for a finished write of a file without holes. */
  lemma WriteSplices(v0: Vol, v: Vol, ino: nat, offset: nat, data: seq<byte>)
    requires WrittenSoFar(v0, v, ino, offset, data, |data|) && offset <= v0.inodes[ino].size && Mapped(v0, ino)
             && Mapped(v, ino)
    ensures Content(v, ino) == Splice(Content(v0, ino), offset, data)
  {
    forall k: nat | k < v.inodes[ino].size ensures k / BLOCK_SIZE < TOTAL_BLOCK {
      assert k / BLOCK_SIZE * BLOCK_SIZE < v.inodes[ino].size;
    }
    forall k: nat | k < v0.inodes[ino].size ensures k / BLOCK_SIZE < TOTAL_BLOCK && There(v0, ino, k) {
      assert k / BLOCK_SIZE * BLOCK_SIZE < v0.inodes[ino].size;
    }
    hide ByteAt, There;
    forall k: nat | k < v.inodes[ino].size ensures Decided(v0, ino, offset, |data|, ino, k) {}
  }

  lemma OthersKept(v0: Vol, v: Vol, ino: nat, offset: nat, data: seq<byte>, done: nat, j: nat)
    requires WrittenSoFar(v0, v, ino, offset, data, done) && j in v0.inodes && j != ino && Mapped(v0, j)
    ensures Content(v, j) == Content(v0, j)
  {
    forall k: nat | k < v0.inodes[j].size ensures Decided(v0, ino, offset, done, j, k) {
      assert k / BLOCK_SIZE * BLOCK_SIZE < v0.inodes[j].size;
    }
    hide ByteAt;
  }

  /** A write that starts inside the file or at its end leaves no hole; no other file gets one. */
  lemma ChunkMapped(v: Vol, v1: Vol, v2: Vol, ino: nat, pos: nat, added: seq<nat>, chunk: seq<byte>, size: nat, j: nat)
    requires ino in v.inodes && j in v.inodes && pos / BLOCK_SIZE < TOTAL_BLOCK && Mapped(v, j)
    requires TreesWF(v) && TreesWF(v1) && Extends(v, v1, NodeFor(ino, pos / BLOCK_SIZE), added)
    requires Poked(v1, v2, NodeFor(ino, pos / BLOCK_SIZE), pos % BLOCK_SIZE, chunk, size)
    requires j == ino ==>
             pos <= v.inodes[ino].size
             && size <= (if pos + |chunk| > v.inodes[ino].size then pos + |chunk| else v.inodes[ino].size)
    ensures j in v2.inodes && Mapped(v2, j)
  {
    var leaf := NodeFor(ino, pos / BLOCK_SIZE);
    NodeForValid(v, ino, pos / BLOCK_SIZE);
    ValidSame(v, v1, leaf);
    forall b: nat | b * BLOCK_SIZE < v2.inodes[j].size ensures b < TOTAL_BLOCK && Zone(v2, NodeFor(j, b)) != 0 {
      if b * BLOCK_SIZE < v.inodes[j].size {
        NodeForValid(v, j, b);
        ValidSame(v, v1, NodeFor(j, b));
        PokedZones(v1, v2, leaf, pos % BLOCK_SIZE, chunk, size, NodeFor(j, b));
      } else {
        assert j == ino && b == pos / BLOCK_SIZE;
        PokedZones(v1, v2, leaf, pos % BLOCK_SIZE, chunk, size, leaf);
      }
    }
  }

  lemma ZoneInRange(v: Vol, n: Node, ino: nat, b: nat)
    requires TreesWF(v) && n == NodeFor(ino, b) && ino in v.inodes && b < TOTAL_BLOCK
    ensures Zone(v, n) < |v.blocks| && (Zone(v, n) != 0 ==> Zone(v, n) >= v.first)
  {
    NodeForValid(v, ino, b);
  }

  lemma ChunkRead(v: Vol, ino: nat, pos: nat, chars: nat)
    requires pos % BLOCK_SIZE + chars <= BLOCK_SIZE && 0 < Zone(v, NodeFor(ino, pos / BLOCK_SIZE)) < |v.blocks|
    ensures var chunk := v.blocks[Zone(v, NodeFor(ino, pos / BLOCK_SIZE))][pos % BLOCK_SIZE..pos % BLOCK_SIZE + chars];
            forall i | 0 <= i < chars :: chunk[i] == ByteAt(v, ino, pos + i)
  {
    hide Zone, NodeFor;
    var chunk := v.blocks[Zone(v, NodeFor(ino, pos / BLOCK_SIZE))][pos % BLOCK_SIZE..pos % BLOCK_SIZE + chars];
    forall i | 0 <= i < chars ensures chunk[i] == ByteAt(v, ino, pos + i) {
      assert (pos + i) / BLOCK_SIZE == pos / BLOCK_SIZE && (pos + i) % BLOCK_SIZE == pos % BLOCK_SIZE + i;
    }
  }

  /** Every byte of a range of the file has its block. */
  ghost predicate RangeThere(v: Vol, ino: nat, offset: nat, n: nat) {
    forall k: nat | offset <= k < offset + n :: k / BLOCK_SIZE < TOTAL_BLOCK && There(v, ino, k)
  }

  lemma RangeNone(v: Vol, ino: nat, offset: nat)
    ensures RangeThere(v, ino, offset, 0)
  {}

  lemma RangeNext(v: Vol, ino: nat, offset: nat, pos: nat, chars: nat)
    requires offset <= pos && pos % BLOCK_SIZE + chars <= BLOCK_SIZE && RangeThere(v, ino, offset, pos - offset)
    requires pos / BLOCK_SIZE < TOTAL_BLOCK && Zone(v, NodeFor(ino, pos / BLOCK_SIZE)) != 0
    ensures RangeThere(v, ino, offset, pos + chars - offset)
  {
    hide Zone, NodeFor;
    forall k: nat | pos <= k < pos + chars ensures k / BLOCK_SIZE == pos / BLOCK_SIZE {}
  }

  lemma MappedRange(v: Vol, ino: nat, offset: nat, n: nat)
    requires ino in v.inodes && Mapped(v, ino) && offset + n <= v.inodes[ino].size
    ensures RangeThere(v, ino, offset, n)
  {
    hide Zone, NodeFor;
    forall k: nat | offset <= k < offset + n ensures k / BLOCK_SIZE < TOTAL_BLOCK && There(v, ino, k) {
      assert k / BLOCK_SIZE * BLOCK_SIZE < v.inodes[ino].size;
    }
  }

  lemma ExtendsFacts(v: Vol, v1: Vol, leaf: Node, added: seq<nat>)
    requires Extends(v, v1, leaf, added)
    ensures v1.inodes.Keys == v.inodes.Keys && SameModes(v, v1)
    ensures forall i | i in v.inodes :: v1.inodes[i].size == v.inodes[i].size
  {}

  lemma SoFarKeys(v0: Vol, v: Vol, ino: nat, offset: nat, data: seq<byte>, done: nat)
    requires WrittenSoFar(v0, v, ino, offset, data, done)
    ensures v.inodes.Keys == v0.inodes.Keys
  {}

  lemma PokedNow(v1: Vol, v2: Vol, ino: nat, b: nat, start: nat, chunk: seq<byte>)
    requires TreesWF(v1) && ino in v1.inodes && ino in v2.inodes && b < TOTAL_BLOCK && Zone(v1, NodeFor(ino, b)) != 0
    requires start + |chunk| <= BLOCK_SIZE && Zone(v1, NodeFor(ino, b)) < |v1.blocks|
    requires v2 == v1.(blocks := v1.blocks[Zone(v1, NodeFor(ino, b)) :=
             PutBytes(v1.blocks[Zone(v1, NodeFor(ino, b))], start, chunk)],
                       inodes := v1.inodes[ino := v1.inodes[ino].(size := v2.inodes[ino].size)])
    ensures Poked(v1, v2, NodeFor(ino, b), start, chunk, v2.inodes[ino].size)
  {
    NodeForValid(v1, ino, b);
  }

  /** One round of inode_write. */
  lemma ChunkDone(v0: Vol, v: Vol, v1: Vol, v2: Vol, ino: nat, offset: nat, data: seq<byte>, pos: nat, added: seq<nat>,
          chunk: seq<byte>)
    requires ino in v.inodes && v1.inodes.Keys == v.inodes.Keys && v2.inodes.Keys == v.inodes.Keys
             && v.inodes.Keys == v0.inodes.Keys
    requires pos / BLOCK_SIZE < TOTAL_BLOCK
    requires TreesWF(v) && TreesWF(v1) && Extends(v, v1, NodeFor(ino, pos / BLOCK_SIZE), added)
             && (CleanFree(v) ==> CleanFree(v1))
    requires Poked(v1, v2, NodeFor(ino, pos / BLOCK_SIZE), pos % BLOCK_SIZE, chunk, v2.inodes[ino].size)
    requires offset <= pos && pos - offset + |chunk| <= |data| && chunk == data[pos - offset..pos - offset + |chunk|]
             && |chunk| > 0
    requires WrittenSoFar(v0, v, ino, offset, data, pos - offset)
    requires v2.inodes[ino].size == if pos + |chunk| > v.inodes[ino].size then pos + |chunk| else v.inodes[ino].size
    ensures TreesWF(v2) && (CleanFree(v) ==> CleanFree(v2))
    ensures WrittenSoFar(v0, v2, ino, offset, data, pos + |chunk| - offset)
    ensures Mapped(v, ino) && pos <= v.inodes[ino].size ==> Mapped(v2, ino)
    ensures forall j | j in v.inodes && j != ino && Mapped(v, j) :: Mapped(v2, j)
  {
    var leaf := NodeFor(ino, pos / BLOCK_SIZE);
    NodeForValid(v1, ino, pos / BLOCK_SIZE);
    hide TreesWF, CleanFree, NodeFor, Mapped, ByteAt, Extends, Poked, WrittenSoFar, There;
    PokedKeepsTrees(v1, v2, leaf, pos % BLOCK_SIZE, chunk, v2.inodes[ino].size);
    ExtendsFacts(v, v1, leaf, added);
    PokedSizes(v1, v2, leaf, pos % BLOCK_SIZE, chunk, v2.inodes[ino].size, ino);
    forall j, k: nat | j in v.inodes && k / BLOCK_SIZE < TOTAL_BLOCK
                       && (j != ino || pos <= k < pos + |chunk| || There(v, ino, k) || CleanFree(v))
      ensures ByteAt(v2, j, k) == if j == ino && pos <= k < pos + |chunk| then chunk[k - pos] else ByteAt(v, j, k)
    {
      ChunkWritten(v, v1, v2, ino, pos, added, chunk, v2.inodes[ino].size, j, k);
    }
    forall j, k: nat | j in v.inodes && k / BLOCK_SIZE < TOTAL_BLOCK
                       && (There(v, j, k) || (j == ino && pos <= k < pos + |chunk|))
      ensures There(v2, j, k)
    {
      ChunkThere(v, v1, v2, ino, pos, added, chunk, v2.inodes[ino].size, j, k);
    }
    ChunkAdds(v0, v, v2, ino, offset, data, pos, chunk);
    forall j | j in v.inodes && Mapped(v, j) && (j == ino ==> pos <= v.inodes[ino].size) ensures Mapped(v2, j) {
      ChunkMapped(v, v1, v2, ino, pos, added, chunk, v2.inodes[ino].size, j);
    }
  }

  lemma ChunkThere(v: Vol, v1: Vol, v2: Vol, ino: nat, pos: nat, added: seq<nat>, chunk: seq<byte>, size: nat, j: nat,
          k: nat)
    requires ino in v.inodes && j in v.inodes && pos / BLOCK_SIZE < TOTAL_BLOCK && k / BLOCK_SIZE < TOTAL_BLOCK
    requires TreesWF(v1) && Extends(v, v1, NodeFor(ino, pos / BLOCK_SIZE), added)
    requires Poked(v1, v2, NodeFor(ino, pos / BLOCK_SIZE), pos % BLOCK_SIZE, chunk, size)
    requires There(v, j, k) || (j == ino && pos <= k < pos + |chunk|)
    ensures There(v2, j, k)
  {
    if pos <= k < pos + |chunk| { assert k / BLOCK_SIZE == pos / BLOCK_SIZE; }
    NodeForValid(v, j, k / BLOCK_SIZE);
    NodeForValid(v1, j, k / BLOCK_SIZE);
    NodeForValid(v1, ino, pos / BLOCK_SIZE);
    hide NodeFor;
    PokedZones(v1, v2, NodeFor(ino, pos / BLOCK_SIZE), pos % BLOCK_SIZE, chunk, size, NodeFor(j, k / BLOCK_SIZE));
  }

  lemma ChunkAdds(v0: Vol, v: Vol, v2: Vol, ino: nat, offset: nat, data: seq<byte>, pos: nat, chunk: seq<byte>)
    requires offset <= pos && WrittenSoFar(v0, v, ino, offset, data, pos - offset) && v2.inodes.Keys == v.inodes.Keys
    requires pos - offset + |chunk| <= |data| && chunk == data[pos - offset..pos - offset + |chunk|] && |chunk| > 0
    requires v2.inodes[ino].size == if pos + |chunk| > v.inodes[ino].size then pos + |chunk| else v.inodes[ino].size
    requires (forall j | j in v.inodes && j != ino :: v2.inodes[j].size == v.inodes[j].size) && SameModes(v, v2)
    requires forall j, k: nat | j in v.inodes && k / BLOCK_SIZE < TOTAL_BLOCK
                                && (j != ino || pos <= k < pos + |chunk| || There(v, ino, k) || CleanFree(v)) ::
               ByteAt(v2, j, k) == if j == ino && pos <= k < pos + |chunk| then chunk[k - pos] else ByteAt(v, j, k)
    requires forall j, k: nat | j in v.inodes && k / BLOCK_SIZE < TOTAL_BLOCK
                                && (There(v, j, k) || (j == ino && pos <= k < pos + |chunk|)) ::
               There(v2, j, k)
    requires CleanFree(v) ==> CleanFree(v2)
    ensures WrittenSoFar(v0, v2, ino, offset, data, pos + |chunk| - offset)
  {
    hide ByteAt, There, CleanFree;
    var done, now := pos - offset, pos + |chunk| - offset;
    forall j, k: nat | j in v0.inodes && Decided(v0, ino, offset, now, j, k)
      ensures ByteAt(v2, j, k) == if j == ino && offset <= k < offset + now then data[k - offset] else ByteAt(v0, j, k)
    {
      if !(j == ino && pos <= k < pos + |chunk|) { assert Decided(v0, ino, offset, done, j, k); }
    }
  }

  lemma PokedSizes(v1: Vol, v2: Vol, leaf: Node, start: nat, chunk: seq<byte>, size: nat, ino: nat)
    requires Poked(v1, v2, leaf, start, chunk, size) && Owner(leaf) == ino
    ensures forall j | j in v1.inodes && j != ino :: j in v2.inodes && v2.inodes[j].size == v1.inodes[j].size
    ensures SameModes(v1, v2)
  {}

  // ----- a whole write -----

  /** The first block behind the first n bytes. */
  function EndBlock(n: nat): nat { (n + BLOCK_SIZE - 1) / BLOCK_SIZE }

  /** What a caller has to know before a write. */
  ghost predicate CanWrite(v: Vol, ino: nat, offset: nat, len: nat) {
    TreesWF(v) && Ready(v, ino, offset / BLOCK_SIZE, EndBlock(offset + len))
  }

  /** A write that has come to pos: the bytes so far, no new holes, and ready for the rest. */
  ghost predicate Writing(v0: Vol, v: Vol, ino: nat, offset: nat, data: seq<byte>, pos: nat) {
    && offset <= pos && v.inodes.Keys == v0.inodes.Keys && ino in v.inodes
    && TreesWF(v) && Ready(v, ino, pos / BLOCK_SIZE, EndBlock(offset + |data|))
       && WrittenSoFar(v0, v, ino, offset, data, pos - offset)
    && (Mapped(v0, ino) && offset <= v0.inodes[ino].size ==> Mapped(v, ino) && pos <= v.inodes[ino].size)
    && (forall j | j in v0.inodes && j != ino && Mapped(v0, j) :: Mapped(v, j))
  }

  /** A finished write: the bytes of every file it decides; the splice where the file had
      no hole and the write starts inside it or at its end; all other files as they were. */
  ghost predicate Wrote(v0: Vol, v: Vol, ino: nat, offset: nat, data: seq<byte>) {
    && TreesWF(v) && ino in v0.inodes && v.inodes.Keys == v0.inodes.Keys
       && WrittenSoFar(v0, v, ino, offset, data, |data|)
    && (Mapped(v0, ino) && offset <= |Content(v0, ino)| ==>
          Mapped(v, ino) && Content(v, ino) == Splice(Content(v0, ino), offset, data))
    && (forall j | j in v0.inodes && j != ino && Mapped(v0, j) :: Mapped(v, j) && Content(v, j) == Content(v0, j))
  }

  lemma WriteDone(v0: Vol, v: Vol, ino: nat, offset: nat, data: seq<byte>)
    requires Writing(v0, v, ino, offset, data, offset + |data|)
    ensures Wrote(v0, v, ino, offset, data)
  {
    SoFarKeys(v0, v, ino, offset, data, |data|);
    hide WrittenSoFar, Mapped, Content, TreesWF, Ready;
    if Mapped(v0, ino) && offset <= v0.inodes[ino].size {
      WriteSplices(v0, v, ino, offset, data);
    }
    ContentSize(v0, ino);
    forall j | j in v0.inodes && j != ino && Mapped(v0, j) ensures Content(v, j) == Content(v0, j) {
      OthersKept(v0, v, ino, offset, data, |data|, j);
    }
  }

  /** What a write leaves for the reads behind it: the bytes written are there and are the data. */
  lemma WroteReads(v0: Vol, v: Vol, ino: nat, offset: nat, data: seq<byte>)
    requires Wrote(v0, v, ino, offset, data) && (data != [] ==> offset + |data| <= TOTAL_BLOCK * BLOCK_SIZE)
    ensures SameModes(v0, v) && TreesWF(v) && v.inodes.Keys == v0.inodes.Keys
    ensures data != [] ==> offset + |data| <= v.inodes[ino].size
    ensures RangeThere(v, ino, offset, |data|)
    ensures data != [] ==> Content(v, ino)[offset..offset + |data|] == data
  {
    hide TreesWF, ByteAt, There, Mapped;
    forall k: nat | offset <= k < offset + |data| ensures k / BLOCK_SIZE < TOTAL_BLOCK {}
    forall i | 0 <= i < |data| ensures ByteAt(v, ino, offset + i) == data[i] {
      assert Decided(v0, ino, offset, |data|, ino, offset + i);
    }
  }

  /** Whatever else could be read is read as before. */
  lemma WroteKeeps(v0: Vol, v: Vol, ino: nat, offset: nat, data: seq<byte>, j: nat, at: nat, n: nat)
    requires Wrote(v0, v, ino, offset, data) && j in v0.inodes && RangeThere(v0, j, at, n)
    requires j != ino || at + n <= offset || offset + |data| <= at
    ensures v.inodes.Keys == v0.inodes.Keys && v0.inodes[j].size <= v.inodes[j].size && RangeThere(v, j, at, n)
    ensures at + n <= v0.inodes[j].size ==> Content(v, j)[at..at + n] == Content(v0, j)[at..at + n]
  {
    hide TreesWF, ByteAt, There, Mapped;
    forall k: nat | at <= k < at + n ensures ByteAt(v, j, k) == ByteAt(v0, j, k) {
      assert Decided(v0, ino, offset, |data|, j, k);
    }
  }

  lemma ContentSize(v: Vol, ino: nat)
    requires ino in v.inodes
    ensures |Content(v, ino)| == v.inodes[ino].size
  {}

  lemma WriteStart(v: Vol, ino: nat, offset: nat, data: seq<byte>)
    requires ino in v.inodes
    ensures CanWrite(v, ino, offset, |data|) ==> Writing(v, v, ino, offset, data, offset)
  {}

  /** One round of inode_write keeps it. */
  lemma WriteNext(v0: Vol, v: Vol, v1: Vol, v2: Vol, ino: nat, offset: nat, data: seq<byte>, pos: nat, added: seq<nat>,
          chunk: seq<byte>)
    requires Writing(v0, v, ino, offset, data, pos) && ino in v.inodes && pos / BLOCK_SIZE < TOTAL_BLOCK && TreesWF(v1)
    requires Extends(v, v1, NodeFor(ino, pos / BLOCK_SIZE), added) && (CleanFree(v) ==> CleanFree(v1))
    requires |added| + Needed(v1, NodeFor(ino, pos / BLOCK_SIZE)) == Needed(v, NodeFor(ino, pos / BLOCK_SIZE))
    requires Ahead(v, v1, |added|)
    requires pos - offset + |chunk| <= |data| && chunk == data[pos - offset..pos - offset + |chunk|] && |chunk| > 0
    requires ino in v2.inodes && Poked(v1, v2, NodeFor(ino, pos / BLOCK_SIZE), pos % BLOCK_SIZE, chunk,
             v2.inodes[ino].size)
    requires v2.inodes[ino].size == if pos + |chunk| > v.inodes[ino].size then pos + |chunk| else v.inodes[ino].size
    ensures Writing(v0, v2, ino, offset, data, pos + |chunk|) && (CleanFree(v) ==> CleanFree(v2))
  {
    hide TreesWF, Ready, Extends, Ahead, Poked, Needed, WrittenSoFar, Mapped, CleanFree, NodeFor;
    ExtendsFacts(v, v1, NodeFor(ino, pos / BLOCK_SIZE), added);
    PokedKeys(v1, v2, NodeFor(ino, pos / BLOCK_SIZE), pos % BLOCK_SIZE, chunk, v2.inodes[ino].size);
    ChunkFits(v1, v2, NodeFor(ino, pos / BLOCK_SIZE), pos % BLOCK_SIZE, chunk, v2.inodes[ino].size);
    WriteReady(v, v1, v2, ino, pos / BLOCK_SIZE, added, pos % BLOCK_SIZE, chunk, v2.inodes[ino].size,
               EndBlock(offset + |data|), (pos + |chunk|) / BLOCK_SIZE);
    ChunkDone(v0, v, v1, v2, ino, offset, data, pos, added, chunk);
  }

  /** What is left of the write is still ready. */
  lemma WriteReady(v: Vol, v1: Vol, v2: Vol, ino: nat, b: nat, added: seq<nat>, start: nat, chunk: seq<byte>,
          size: nat, hi: nat, c: nat)
    requires TreesWF(v) && TreesWF(v1) && ino in v.inodes && ino in v1.inodes && b < TOTAL_BLOCK && b < hi
    requires Ready(v, ino, b, hi) && Extends(v, v1, NodeFor(ino, b), added)
             && Poked(v1, v2, NodeFor(ino, b), start, chunk, size)
    requires |added| + Needed(v1, NodeFor(ino, b)) == Needed(v, NodeFor(ino, b)) && Ahead(v, v1, |added|)
    requires b <= c <= b + 1
    ensures Shaped(v2) && Ready(v2, ino, c, hi)
  {
    hide *;
    PokedThere(v1, v2, NodeFor(ino, b), start, chunk, size);
    NodeForValid(v1, ino, b);
    ReadyStep(v, v1, ino, b, hi, added);
    TreesShaped(v1);
    ReadyPast(v1, ino, b, hi);
    PokedReady(v1, v2, NodeFor(ino, b), start, chunk, size, ino, c, hi);
  }

  lemma PokedThere(v1: Vol, v2: Vol, leaf: Node, start: nat, chunk: seq<byte>, size: nat)
    requires Poked(v1, v2, leaf, start, chunk, size)
    ensures Zone(v1, leaf) != 0 && Needed(v1, leaf) == 0
  {}

  lemma WritingNow(v0: Vol, v: Vol, ino: nat, offset: nat, data: seq<byte>, pos: nat)
    requires Writing(v0, v, ino, offset, data, pos) && pos < offset + |data|
    ensures TreesWF(v) && v.inodes.Keys == v0.inodes.Keys
    ensures pos / BLOCK_SIZE < TOTAL_BLOCK ==> Clean(v, NodeFor(ino, pos / BLOCK_SIZE))
  {
    hide NodeFor, Clean;
    if pos / BLOCK_SIZE < TOTAL_BLOCK { ReadyClean(v, ino, pos / BLOCK_SIZE, EndBlock(offset + |data|)); }
  }

  lemma WritingIs(v0: Vol, v: Vol, ino: nat, offset: nat, data: seq<byte>, pos: nat)
    requires Writing(v0, v, ino, offset, data, pos)
    ensures TreesWF(v)
  {}

  lemma CanWriteIs(v: Vol, ino: nat, offset: nat, len: nat)
    requires CanWrite(v, ino, offset, len)
    ensures TreesWF(v)
  {}

  lemma PokedKeys(v1: Vol, v2: Vol, leaf: Node, start: nat, chunk: seq<byte>, size: nat)
    requires Poked(v1, v2, leaf, start, chunk, size)
    ensures v2.inodes.Keys == v1.inodes.Keys
  {}
}

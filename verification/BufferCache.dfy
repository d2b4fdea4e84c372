/** src/kernel/buffer.c: the block cache, each operation taken as one step. The
    ghost field `plain` is the disk its clients believe in; the cache is proved
    to be indistinguishable from it. */
module BufferCache {
  import opened Common
  import opened Sequences

  const HASH_COUNT := 203

  type Data = seq<bv8>

  datatype Key = Key(dev: bv32, block: bv32)

  function Hash(k: Key): nat { ((k.dev ^ k.block) as int) % HASH_COUNT }

  function At(disk: map<Key, Data>, k: Key): Data { if k in disk then disk[k] else [] }

  /** buffer_t; buffers are known by their place in the pool. */
  datatype Buffer = Buffer(key: Key, count: int, dirty: bool, valid: bool, data: Data)

  /** The pool of buffers, the hash chains, the free list (head first) and the disk;
      `clock` counts releases, `stamp` says when the count of a buffer last dropped
      to zero, `plain` is what clients have written. */
  datatype Pool = Pool(
    capacity: nat, bufs: seq<Buffer>, chains: seq<seq<nat>>, free: seq<nat>, disk: map<Key, Data>,
    clock: nat, stamp: map<nat, nat>, plain: map<Key, Data>)

  function Released(p: Pool, b: nat): nat { if b in p.stamp then p.stamp[b] else 0 }

  /** Each buffer in use is in the chain its hash names and nowhere else; no
      block has two buffers. */
  ghost predicate Hashed(p: Pool) {
    && |p.chains| == HASH_COUNT && |p.bufs| <= p.capacity
    && (forall i | 0 <= i < HASH_COUNT :: Distinct(p.chains[i]))
    && (forall i, j | 0 <= i < HASH_COUNT && 0 <= j < |p.chains[i]| ::
       p.chains[i][j] < |p.bufs| && Hash(p.bufs[p.chains[i][j]].key) == i)
    && (forall b: nat | b < |p.bufs| :: b in p.chains[Hash(p.bufs[b].key)])
    && (forall b: nat, c: nat | b < |p.bufs| && c < |p.bufs| && p.bufs[b].key == p.bufs[c].key :: b == c)
  }

  /** The free list is exactly the buffers nobody holds, the latest released first. */
  ghost predicate Freed(p: Pool) {
    && Distinct(p.free) && (forall i | 0 <= i < |p.free| :: p.free[i] < |p.bufs|)
    && (forall b: nat | b < |p.bufs| :: p.bufs[b].count >= 0 && (b in p.free <==> p.bufs[b].count == 0))
    && (forall i, j | 0 <= i < j < |p.free| :: Released(p, p.free[i]) > Released(p, p.free[j]))
    && (forall i | 0 <= i < |p.free| :: Released(p, p.free[i]) < p.clock)
  }

  /** A valid buffer holds what clients wrote last; a block without a dirty
      buffer is up to date on the disk; so a buffer nobody holds can be dropped. */
  ghost predicate Transparent(p: Pool) {
    && (forall b: nat | b < |p.bufs| ::
       (p.bufs[b].count == 0 ==> !p.bufs[b].dirty) && (p.bufs[b].dirty ==> p.bufs[b].valid))
    && (forall b: nat | b < |p.bufs| && p.bufs[b].valid :: p.bufs[b].data == At(p.plain, p.bufs[b].key))
    && (forall k | !DirtyKey(p, k) :: At(p.disk, k) == At(p.plain, k))
  }

  ghost predicate DirtyKey(p: Pool, k: Key) {
    exists b: nat :: b < |p.bufs| && p.bufs[b].key == k && p.bufs[b].dirty
  }

  ghost predicate Valid(p: Pool) { Hashed(p) && Freed(p) && Transparent(p) }

  predicate Cached(p: Pool, k: Key) { exists b :: 0 <= b < |p.bufs| && p.bufs[b].key == k }

  // ----- what each step keeps -----

  predicate IsDirty(p: Pool, b: nat) { b < |p.bufs| && p.bufs[b].dirty }

  lemma SameDirty(p: Pool, p': Pool)
    requires forall b: nat :: IsDirty(p', b) <==> IsDirty(p, b)
    requires |p'.bufs| >= |p.bufs| && forall b: nat | IsDirty(p, b) :: p'.bufs[b].key == p.bufs[b].key
    ensures forall k :: DirtyKey(p', k) <==> DirtyKey(p, k)
  {
    forall k ensures DirtyKey(p', k) <==> DirtyKey(p, k) {
      if DirtyKey(p', k) {
        var b: nat :| b < |p'.bufs| && p'.bufs[b].key == k && p'.bufs[b].dirty;
        assert IsDirty(p', b) && IsDirty(p, b);
      }
      if DirtyKey(p, k) {
        var b: nat :| b < |p.bufs| && p.bufs[b].key == k && p.bufs[b].dirty;
        assert IsDirty(p, b) && IsDirty(p', b);
      }
    }
  }

  /** A held buffer changed without touching its key: the lists stay right. */
  lemma HeldUpdate(p: Pool, p': Pool, b: nat)
    requires Hashed(p) && Freed(p) && b < |p.bufs| == |p'.bufs| && p.bufs[b].count > 0 && p'.bufs[b].count > 0
    requires p'.bufs == p.bufs[b := p'.bufs[b]] && p'.bufs[b].key == p.bufs[b].key
    requires p' == p.(bufs := p'.bufs, disk := p'.disk, plain := p'.plain)
    ensures Hashed(p') && Freed(p')
  {}

  /** A buffer found in its chain, with one more holder. */
  lemma HitKeeps(p: Pool, p': Pool, b: nat)
    requires Valid(p) && b < |p.bufs|
    requires p' == p.(bufs := p.bufs[b := p.bufs[b].(count := p.bufs[b].count + 1)], free := Without(p.free, b))
    ensures Valid(p')
  {
    HitFreed(p, p', b);
    SameDirty(p, p');
  }

  lemma HitFreed(p: Pool, p': Pool, b: nat)
    requires Freed(p) && b < |p.bufs|
    requires p' == p.(bufs := p.bufs[b := p.bufs[b].(count := p.bufs[b].count + 1)], free := Without(p.free, b))
    ensures Freed(p')
  {
    WithoutIs(p.free, b);
    forall i | 0 <= i < |p'.free| ensures p'.free[i] < |p.bufs| && Released(p', p'.free[i]) < p'.clock {
      var i' := WithoutAt(p.free, b, i);
    }
    forall i, j | 0 <= i < j < |p'.free| ensures Released(p', p'.free[i]) > Released(p', p'.free[j]) {
      var i', j' := WithoutOrder(p.free, b, i, j);
    }
  }

  /** A buffer of memory given to block k, which had none. */
  lemma NewKeeps(p: Pool, p': Pool, k: Key)
    requires Valid(p) && !Cached(p, k) && |p.bufs| < p.capacity
    requires p' == p.(bufs := p.bufs + [Buffer(k, 1, false, false, [])],
                      chains := p.chains[Hash(k) := [|p.bufs|] + p.chains[Hash(k)]])
    ensures Valid(p')
  {
    NewHashed(p, p', k);
    NewFreed(p, p', k);
    SameDirty(p, p');
  }

  lemma NewHashed(p: Pool, p': Pool, k: Key)
    requires Hashed(p) && !Cached(p, k) && |p.bufs| < p.capacity
    requires p' == p.(bufs := p.bufs + [Buffer(k, 1, false, false, [])],
                      chains := p.chains[Hash(k) := [|p.bufs|] + p.chains[Hash(k)]])
    ensures Hashed(p')
  {
    var b, h := |p.bufs|, Hash(k);
    assert b !in p.chains[h];
    assert forall x :: x in p'.chains[h] <==> x == b || x in p.chains[h];
    forall i, j | 0 <= i < HASH_COUNT && 0 <= j < |p'.chains[i]|
      ensures p'.chains[i][j] < |p'.bufs| && Hash(p'.bufs[p'.chains[i][j]].key) == i
    {
      var x := p'.chains[i][j];
      assert i != h ==> x == p.chains[i][j];
      if i == h && j > 0 { assert x == p.chains[i][j - 1]; }
    }
    hide Hash;
    forall c: nat | c < |p'.bufs| ensures c in p'.chains[Hash(p'.bufs[c].key)] {
      if c < b { assert c in p.chains[Hash(p.bufs[c].key)]; }
    }
  }

  lemma NewFreed(p: Pool, p': Pool, k: Key)
    requires Freed(p) && p'.bufs == p.bufs + [Buffer(k, 1, false, false, [])]
             && p' == p.(bufs := p'.bufs, chains := p'.chains)
    ensures Freed(p')
  {
    assert |p.bufs| !in p.free by { assert forall i | 0 <= i < |p.free| :: p.free[i] < |p.bufs|; }
  }

  /** The buffer released longest ago given to block k: its old block loses nothing. */
  lemma EvictKeeps(p: Pool, p': Pool, k: Key, b: nat, rest: seq<nat>)
    requires Valid(p) && !Cached(p, k) && p.free == rest + [b] && b < |p.bufs|
    requires var c := p.bufs[b];
             p' == p.(bufs := p.bufs[b := c.(key := k, count := 1, valid := false)], free := rest,
                      chains := Moved(p.chains, Hash(c.key), Hash(k), b))
    ensures Valid(p')
  {
    MovedIs(p.chains, Hash(p.bufs[b].key), Hash(k), b);
    EvictHashed(p, p', k, b);
    EvictFreed(p, p', k, b);
    SameDirty(p, p');
  }

  lemma EvictFreed(p: Pool, p': Pool, k: Key, b: nat)
    requires Freed(p) && p.free == p'.free + [b] && b < |p.bufs|
             && p'.bufs == p.bufs[b := p.bufs[b].(key := k, count := 1, valid := false)]
    requires p'.stamp == p.stamp && p'.clock == p.clock
    ensures Freed(p') && p.bufs[b].count == 0
  {
    assert p.free[|p'.free|] == b && b in p.free;
    assert forall i | 0 <= i < |p'.free| :: p.free[i] == p'.free[i];
    assert b !in p'.free;
    assert forall c | c in p.free :: c in p'.free || c == b;
  }

  /** hash_remove from one chain and hash_locate into another. */
  function Moved(chains: seq<seq<nat>>, from: nat, to: nat, b: nat): seq<seq<nat>>
    requires from < |chains| && to < |chains|
  {
    var less := chains[from := Without(chains[from], b)];
    less[to := [b] + less[to]]
  }

  lemma MovedIs(chains: seq<seq<nat>>, from: nat, to: nat, b: nat)
    requires from < |chains| && to < |chains| && Distinct(chains[from]) && Distinct(chains[to])
             && (from != to ==> b !in chains[to])
    ensures var r := Moved(chains, from, to, b);
            && |r| == |chains| && Distinct(r[from]) && Distinct(r[to])
            && (forall i | 0 <= i < |chains| && i != from && i != to :: r[i] == chains[i])
            && (forall x :: x in r[to] <==> x == b || x in chains[to])
            && (from != to ==> forall x :: x in r[from] <==> x in chains[from] && x != b)
  {
    WithoutIs(chains[from], b);
    var less := chains[from := Without(chains[from], b)];
    assert b !in less[to];
    assert forall x :: x in [b] + less[to] <==> x == b || x in less[to];
  }

  lemma EvictHashed(p: Pool, p': Pool, k: Key, b: nat)
    requires Hashed(p) && !Cached(p, k) && b < |p.bufs| == |p'.bufs| && |p'.chains| == HASH_COUNT
             && p'.capacity == p.capacity
    requires p'.bufs == p.bufs[b := p'.bufs[b]] && p'.bufs[b].key == k
    requires var h := Hash(p.bufs[b].key); var r := p'.chains;
             && Distinct(r[h]) && Distinct(r[Hash(k)])
             && (forall i | 0 <= i < HASH_COUNT && i != h && i != Hash(k) :: r[i] == p.chains[i])
             && (forall x :: x in r[Hash(k)] <==> x == b || x in p.chains[Hash(k)])
             && (h != Hash(k) ==> forall x :: x in r[h] <==> x in p.chains[h] && x != b)
    ensures Hashed(p')
  {
    var h := Hash(p.bufs[b].key);
    forall i, j | 0 <= i < HASH_COUNT && 0 <= j < |p'.chains[i]|
      ensures p'.chains[i][j] < |p'.bufs| && Hash(p'.bufs[p'.chains[i][j]].key) == i
    {
      var x := p'.chains[i][j];
      assert x in p'.chains[i];
      if x != b { assert x in p.chains[i]; }
    }
  }

  lemma DiskRead(p: Pool, p': Pool, b: nat)
    requires Valid(p) && b < |p.bufs| && !p.bufs[b].valid && p.bufs[b].count > 0
    requires p' == p.(bufs := p.bufs[b := p.bufs[b].(data := At(p.disk, p.bufs[b].key), dirty := false, valid := true)])
    ensures Valid(p')
  {
    HeldUpdate(p, p', b);
    assert !DirtyKey(p, p.bufs[b].key);
    SameDirty(p, p');
  }

  lemma WriteBack(p: Pool, p': Pool, b: nat)
    requires Valid(p) && b < |p.bufs| && p.bufs[b].dirty
    requires p' == p.(bufs := p.bufs[b := p.bufs[b].(dirty := false, valid := true)],
             disk := p.disk[p.bufs[b].key := p.bufs[b].data])
    ensures Valid(p')
  {
    HeldUpdate(p, p', b);
    OthersDirty(p, p', b);
  }

  lemma OthersDirty(p: Pool, p': Pool, b: nat)
    requires b < |p.bufs| == |p'.bufs| && p'.bufs == p.bufs[b := p'.bufs[b]] && p'.bufs[b].key == p.bufs[b].key
    ensures forall k | k != p.bufs[b].key :: DirtyKey(p', k) <==> DirtyKey(p, k)
  {
    forall k | k != p.bufs[b].key ensures DirtyKey(p', k) <==> DirtyKey(p, k) {
      if DirtyKey(p, k) {
        var c: nat :| c < |p.bufs| && p.bufs[c].key == k && p.bufs[c].dirty;
        assert p'.bufs[c] == p.bufs[c];
      }
      if DirtyKey(p', k) {
        var c: nat :| c < |p'.bufs| && p'.bufs[c].key == k && p'.bufs[c].dirty;
        assert p'.bufs[c] == p.bufs[c];
      }
    }
  }

  lemma FillKeeps(p: Pool, p': Pool, b: nat, data: Data)
    requires Valid(p) && b < |p.bufs| && p.bufs[b].count > 0 && p.bufs[b].valid
    requires p' == p.(bufs := p.bufs[b := p.bufs[b].(data := data, dirty := true)],
             plain := p.plain[p.bufs[b].key := data])
    ensures Valid(p')
  {
    HeldUpdate(p, p', b);
    MoreDirty(p, p', b);
  }

  lemma MoreDirty(p: Pool, p': Pool, b: nat)
    requires b < |p.bufs| == |p'.bufs| && p'.bufs == p.bufs[b := p'.bufs[b]] && p'.bufs[b].key == p.bufs[b].key
             && p'.bufs[b].dirty
    ensures DirtyKey(p', p.bufs[b].key) && forall k | DirtyKey(p, k) :: DirtyKey(p', k)
  {
    assert IsDirty(p', b);
    forall k | DirtyKey(p, k) ensures DirtyKey(p', k) {
      var c: nat :| c < |p.bufs| && p.bufs[c].key == k && p.bufs[c].dirty;
      assert p'.bufs[c].dirty && p'.bufs[c].key == k;
    }
  }

  lemma ReleaseKeeps(p: Pool, p': Pool, b: nat)
    requires Valid(p) && b < |p.bufs| && p.bufs[b].count > 0 && !p.bufs[b].dirty
    requires p' == if p.bufs[b].count > 1 then p.(bufs := p.bufs[b := p.bufs[b].(count := p.bufs[b].count - 1)])
                   else p.(bufs := p.bufs[b := p.bufs[b].(count := 0)], free := [b] + p.free, clock := p.clock + 1,
                     stamp := p.stamp[b := p.clock])
    ensures Valid(p')
  {
    if p.bufs[b].count > 1 { HeldUpdate(p, p', b); } else { ReleaseFreed(p, p', b); }
    SameDirty(p, p');
  }

  lemma ReleaseFreed(p: Pool, p': Pool, b: nat)
    requires Freed(p) && b < |p.bufs| && p.bufs[b].count == 1
    requires p' == p.(bufs := p.bufs[b := p.bufs[b].(count := 0)], free := [b] + p.free, clock := p.clock + 1,
             stamp := p.stamp[b := p.clock])
    ensures Freed(p')
  {
    assert b !in p.free;
    forall c: nat | c < |p'.bufs| ensures p'.bufs[c].count >= 0 && (c in p'.free <==> p'.bufs[c].count == 0) {
      assert c in p'.free <==> c == b || c in p.free;
    }
    forall i | 0 <= i < |p'.free|
      ensures p'.free[i] < |p'.bufs| && Released(p', p'.free[i]) < p'.clock
              && (i > 0 ==> p'.free[i] == p.free[i - 1] != b)
    {
      if i > 0 { assert p'.free[i] == p.free[i - 1] && p.free[i - 1] in p.free; }
    }
    forall i, j | 0 <= i < j < |p'.free| ensures Released(p', p'.free[i]) > Released(p', p'.free[j])
      && p'.free[i] != p'.free[j] {
      assert p'.free[j] == p.free[j - 1] && Released(p, p.free[j - 1]) < p.clock;
    }
  }

  /** Once nobody holds a buffer the disk is exactly what was written. */
  lemma AllReleased(p: Pool, k: Key)
    requires Valid(p) && forall b: nat | b < |p.bufs| :: p.bufs[b].count == 0
    ensures At(p.disk, k) == At(p.plain, k)
  {
    assert !DirtyKey(p, k);
  }

  lemma HashedShape(p: Pool)
    requires Hashed(p)
    ensures |p.chains| == HASH_COUNT && |p.bufs| <= p.capacity
  {}

  lemma CountsKept(p: Pool, b: nat)
    requires Freed(p) && b < |p.bufs|
    ensures p.bufs[b].count >= 0
  {}

  lemma FreeCounts(p: Pool)
    requires Freed(p) && Transparent(p)
    ensures forall i | 0 <= i < |p.free| ::
            p.free[i] < |p.bufs| && p.bufs[p.free[i]].count == 0 && !p.bufs[p.free[i]].dirty
  {
    forall i | 0 <= i < |p.free| ensures p.free[i] < |p.bufs| && p.bufs[p.free[i]].count == 0 {
      assert p.free[i] in p.free;
    }
  }

  class Cache {
    const capacity: nat
    var bufs: seq<Buffer>
    var chains: seq<seq<nat>>
    var free: seq<nat>
    var disk: map<Key, Data>
    ghost var clock: nat
    ghost var stamp: map<nat, nat>
    ghost var plain: map<Key, Data>

    ghost function State(): Pool
      reads this
    {
      Pool(capacity, bufs, chains, free, disk, clock, stamp, plain)
    }

    /** buffer_init: no buffers, over whatever the disk holds. */
    constructor (capacity: nat, disk: map<Key, Data>)
      ensures Valid(State()) && bufs == [] && this.capacity == capacity && plain == this.disk == disk
    {
      this.capacity := capacity;
      bufs, chains, free := [], seq(HASH_COUNT, _ => []), [];
      this.disk, plain, clock, stamp := disk, disk, 0, map[];
    }

    /** get_from_hash_table: the buffer of k, taken off the free list. */
    method GetFromHashTable(k: Key) returns (r: Option<nat>)
      requires Valid(State())
      modifies this`free
      ensures r.None? ==> free == old(free) && !Cached(State(), k)
      ensures r.Some? ==> r.value < |bufs| && bufs[r.value].key == k && free == Without(old(free), r.value)
    {
      var chain := chains[Hash(k)];
      r := None;
      for i := 0 to |chain|
        invariant r.None? && forall j | 0 <= j < i :: bufs[chain[j]].key != k
      {
        if bufs[chain[i]].key == k {
          r := Some(chain[i]);
          break;
        }
      }
      if r.Some? {
        WithoutIs(free, r.value);
        if r.value in free {
          free := Without(free, r.value);
        }
      }
    }

    /** get_free_buffer: a buffer from memory while there is room, else the one
        released longest ago, out of its chain. None where the code would wait. */
    method GetFreeBuffer() returns (r: Option<nat>)
      requires Valid(State())
      modifies this`bufs, this`free, this`chains
      ensures r.None? <==> |old(bufs)| >= capacity && old(free) == []
      ensures r.None? ==> State() == old(State())
      ensures r.Some? && |old(bufs)| < capacity ==>
                && r.value == |old(bufs)| && free == old(free) && chains == old(chains)
                && bufs == old(bufs) + [Buffer(Key(0xFFFF_FFFF, 0), 0, false, false, [])]
      ensures r.Some? && |old(bufs)| >= capacity ==>
                && old(free) == free + [r.value] && r.value < |old(bufs)|
                && (forall i | 0 <= i < |free| :: Released(old(State()), free[i]) > Released(old(State()), r.value))
                && bufs == old(bufs)[r.value := old(bufs)[r.value].(valid := false)]
                && chains == old(chains)[Hash(bufs[r.value].key) :=
                   Without(old(chains)[Hash(bufs[r.value].key)], r.value)]
    {
      if |bufs| < capacity {
        bufs := bufs + [Buffer(Key(0xFFFF_FFFF, 0), 0, false, false, [])];
        return Some(|bufs| - 1);
      }
      if free != [] {
        var b := free[|free| - 1];
        free := free[..|free| - 1];
        var h := Hash(bufs[b].key);
        chains := chains[h := Without(chains[h], b)];
        bufs := bufs[b := bufs[b].(valid := false)];
        return Some(b);
      }
      return None;
    }

    /** A free buffer given to block k, which has none. */
    method Assign(k: Key) returns (r: Option<nat>)
      requires Valid(State()) && !Cached(State(), k)
      modifies this`bufs, this`free, this`chains
      ensures Valid(State())
      ensures r.None? <==> |old(bufs)| >= capacity && old(free) == []
      ensures r.None? ==> State() == old(State())
      ensures r.Some? ==> r.value < |bufs| && bufs[r.value].key == k && bufs[r.value].count > 0
      ensures r.Some? && r.value < |old(bufs)| ==> old(bufs)[r.value].count == 0
      ensures forall b: nat | b < |old(bufs)| && Some(b) != r :: b < |bufs| && bufs[b] == old(bufs)[b]
    {
      hide Hashed, Freed, Transparent, Cached;
      ghost var p := State();
      HashedShape(p);
      r := GetFreeBuffer();
      if r.None? {
        return;
      }
      FreeCounts(p);
      if |p.bufs| >= capacity { assert p.free[|p.free| - 1] == r.value; }
      assert bufs[r.value].count == 0 && !bufs[r.value].dirty;
      bufs := bufs[r.value := bufs[r.value].(count := 1, key := k)];
      chains := chains[Hash(k) := [r.value] + chains[Hash(k)]];
      if |p.bufs| < capacity {
        assert bufs == p.bufs + [Buffer(k, 1, false, false, [])];
        NewKeeps(p, State(), k);
      } else {
        EvictKeeps(p, State(), k, r.value, free);
      }
    }

    /** getblk: the one buffer of block k, with one more holder. */
    method GetBlk(k: Key) returns (r: Option<nat>)
      requires Valid(State())
      modifies this`bufs, this`free, this`chains
      ensures Valid(State())
      ensures r.None? <==> !Cached(old(State()), k) && |old(bufs)| >= capacity && old(free) == []
      ensures r.None? ==> State() == old(State())
      ensures r.Some? ==> r.value < |bufs| && bufs[r.value].key == k && bufs[r.value].count > 0
      ensures r.Some? && r.value < |old(bufs)| && old(bufs)[r.value].key == k ==>
                bufs == old(bufs)[r.value := old(bufs)[r.value].(count := old(bufs)[r.value].count + 1)]
      // whoever held a buffer still holds it
      ensures forall b: nat | b < |old(bufs)| && old(bufs)[b].count > 0 ::
                b < |bufs| && bufs[b] == if Some(b) == r then old(bufs)[b].(count := bufs[b].count) else old(bufs)[b]
    {
      hide Hashed, Freed, Transparent;
      ghost var p := State();
      r := GetFromHashTable(k);
      if r.Some? {
        bufs := bufs[r.value := bufs[r.value].(count := bufs[r.value].count + 1)];
        HitKeeps(p, State(), r.value);
        CountsKept(p, r.value);
      } else {
        r := Assign(k);
      }
    }

    /** bread: the block as clients wrote it last, or null where it would wait. */
    method BRead(k: Key) returns (r: Option<nat>)
      requires Valid(State())
      modifies this`bufs, this`free, this`chains
      ensures Valid(State())
      ensures r.None? <==> !Cached(old(State()), k) && |old(bufs)| >= capacity && old(free) == []
      ensures r.Some? ==> r.value < |bufs| && bufs[r.value].key == k && bufs[r.value].count > 0
      ensures r.Some? ==> bufs[r.value].valid && bufs[r.value].data == At(plain, k)
      ensures forall b: nat | b < |old(bufs)| && old(bufs)[b].count > 0 && Some(b) != r ::
              b < |bufs| && bufs[b] == old(bufs)[b]
    {
      hide Hashed, Freed;
      r := GetBlk(k);
      if r.Some? && !bufs[r.value].valid {
        ghost var p := State();
        bufs := bufs[r.value := bufs[r.value].(data := At(disk, k), dirty := false, valid := true)];
        DiskRead(p, State(), r.value);
      }
    }

    /** A client stores into a buffer it holds and marks it dirty. */
    method Fill(b: nat, data: Data)
      requires Valid(State()) && b < |bufs| && bufs[b].count > 0 && bufs[b].valid
      modifies this`bufs, this`plain
      ensures Valid(State()) && plain == old(plain)[old(bufs)[b].key := data]
      ensures bufs == old(bufs)[b := old(bufs)[b].(data := data, dirty := true)]
    {
      ghost var p := State();
      bufs := bufs[b := bufs[b].(data := data, dirty := true)];
      plain := plain[bufs[b].key := data];
      FillKeeps(p, State(), b, data);
    }

    /** bwrite: a dirty buffer reaches the disk. */
    method BWrite(b: nat)
      requires Valid(State()) && b < |bufs|
      modifies this`bufs, this`disk
      ensures Valid(State()) && bufs == old(bufs)[b := old(bufs)[b].(dirty := false)]
      ensures disk == if old(bufs)[b].dirty then old(disk)[bufs[b].key := bufs[b].data] else old(disk)
    {
      if !bufs[b].dirty {
        return;
      }
      ghost var p := State();
      disk := disk[bufs[b].key := bufs[b].data];
      bufs := bufs[b := bufs[b].(dirty := false, valid := true)];
      WriteBack(p, State(), b);
    }

    /** brelse: written back if dirty, and free once nobody holds it. */
    method BRelse(b: nat)
      requires Valid(State()) && b < |bufs| && bufs[b].count > 0
      modifies this`bufs, this`disk, this`free, this`clock, this`stamp
      ensures Valid(State()) && |bufs| == |old(bufs)| && bufs[b].count == old(bufs)[b].count - 1 && !bufs[b].dirty
      ensures forall c: nat | c < |bufs| && c != b :: bufs[c] == old(bufs)[c]
      ensures free == if bufs[b].count == 0 then [b] + old(free) else old(free)
      ensures disk == if old(bufs)[b].dirty then old(disk)[bufs[b].key := bufs[b].data] else old(disk)
    {
      hide Hashed, Transparent;
      if bufs[b].dirty {
        BWrite(b);
      }
      ghost var p := State();
      bufs := bufs[b := bufs[b].(count := bufs[b].count - 1)];
      assert bufs[b].count >= 0;
      if bufs[b].count == 0 {
        assert b !in free;
        free := [b] + free;
        stamp := stamp[b := clock];
        clock := clock + 1;
      }
      ReleaseKeeps(p, State(), b);
    }
  }
}

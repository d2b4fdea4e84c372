/** src/lib/bitmap.c over its bytes: bit i is bit i % 8 of byte i / 8. */
module Bitmap {
  import opened Common
  import opened Bits

  function Mask(k: nat): bv8
    requires k < 8
  {
    (1 as bv8) << k
  }

  predicate TestBit(b: bv8, k: nat)
    requires k < 8
  {
    b & Mask(k) != 0
  }

  lemma MaskIs(k: nat)
    requires k < 8
    ensures Mask(k) == [1, 2, 4, 8, 16, 32, 64, 128][k]
  {
    if k == 0 {} else if k == 1 {} else if k == 2 {} else if k == 3 {} else if k == 4 {} else if k == 5 {}
      else if k == 6 {} else {}
  }

  lemma ApartMasks(k: nat, j: nat)
    requires k < 8 && j < 8
    ensures Mask(k) & Mask(j) == if k == j then Mask(k) else 0
    ensures Mask(k) != 0
  {
    MaskIs(k);
    MaskIs(j);
    hide Mask;
  }

  lemma DisjointMasks(b: bv8, m: bv8, n: bv8)
    requires m & n == 0
    ensures (b | m) & n == b & n && (b & !m) & n == b & n
  {}

  lemma OneMask(b: bv8, m: bv8)
    ensures (b | m) & m == m && (b & !m) & m == 0
  {}

  /** Setting or clearing a bit of a byte leaves the other seven as they were. */
  lemma OtherBits(b: bv8, k: nat, j: nat)
    requires k < 8 && j < 8
    ensures TestBit(b | Mask(k), j) == (j == k || TestBit(b, j))
    ensures TestBit(b & !Mask(k), j) == (j != k && TestBit(b, j))
  {
    ApartMasks(k, j);
    hide Mask;
    if j == k { OneMask(b, Mask(k)); } else { DisjointMasks(b, Mask(k), Mask(j)); }
  }

  function BitAt(b: seq<bv8>, i: nat): bool
    requires i / 8 < |b|
  {
    TestBit(b[i / 8], i % 8)
  }

  function BitsOf(b: seq<bv8>): (r: seq<bool>)
    ensures |r| == 8 * |b|
  {
    seq(8 * |b|, i requires 0 <= i < 8 * |b| => BitAt(b, i))
  }

  /** The byte with bit k set to value. */
  function PutBit(b: bv8, k: nat, value: bool): bv8
    requires k < 8
  {
    if value then b | Mask(k) else b & !Mask(k)
  }

  lemma PutBitIs(b: bv8, k: nat, value: bool, j: nat)
    requires k < 8 && j < 8
    ensures TestBit(PutBit(b, k, value), j) == if j == k then value else TestBit(b, j)
  {
    OtherBits(b, k, j);
    hide Mask, TestBit;
  }

  /** One byte rewritten is one bit changed. */
  lemma OneBit(b: seq<bv8>, i: nat, value: bool)
    requires i / 8 < |b|
    ensures BitsOf(b[i / 8 := PutBit(b[i / 8], i % 8, value)]) == BitsOf(b)[i := value]
  {
    hide Mask, TestBit, PutBit;
    var c := b[i / 8 := PutBit(b[i / 8], i % 8, value)];
    forall j: nat | j < 8 * |b| ensures BitAt(c, j) == if j == i then value else BitAt(b, j) {
      PutBitIs(b[i / 8], i % 8, value, j % 8);
      assert j / 8 == i / 8 && j % 8 == i % 8 ==> j == i;
    }
    hide BitAt;
  }

  lemma SetNext(was: seq<bool>, start: nat, done: nat, now: seq<bool>)
    requires start + done < |was| && now == SetBits(was, start, done, true)
    ensures now[start + done := true] == SetBits(was, start, done + 1, true)
  {}

  class BitmapT {
    const bits: array<bv8>
    const offset: nat

    /** bitmap_init: all clear. */
    constructor (length: nat, start: nat)
      ensures fresh(bits) && offset == start && View() == seq(8 * length, _ => false)
    {
      bits := new bv8[length](_ => 0);
      offset := start;
      new;
      assert forall b: nat | b < length :: bits[..][b] == 0;
      assert forall k: nat | k < 8 :: !TestBit(0, k);
    }

    ghost function View(): seq<bool>
      reads bits
    {
      BitsOf(bits[..])
    }

    lemma ViewSize()
      ensures |View()| == 8 * bits.Length
    {}

    /** bitmap_test. */
    method Test(index: nat) returns (r: bool)
      requires offset <= index < offset + 8 * bits.Length
      ensures r == View()[index - offset]
    {
      var idx := index - offset;
      var bytes, bit := idx / 8, idx % 8;
      r := bits[bytes] & Mask(bit) != 0;
    }

    /** bitmap_set. */
    method Set(index: nat, value: bool)
      requires offset <= index < offset + 8 * bits.Length
      modifies bits
      ensures View() == old(View())[index - offset := value]
    {
      hide Mask, BitsOf;
      var idx := index - offset;
      var bytes, bit := idx / 8, idx % 8;
      OneBit(bits[..], idx, value);
      ghost var was := bits[..];
      if value {
        bits[bytes] := bits[bytes] | Mask(bit);
      } else {
        bits[bytes] := bits[bytes] & !Mask(bit);
      }
      assert bits[..] == was[bytes := PutBit(was[bytes], bit, value)];
    }

    /** The first loop of bitmap_scan. A count of 0 is met right behind the first
        bit that is set. */
    method Search(count: nat) returns (start: Option<nat>)
      ensures count > 0 && start.Some? ==> FirstFit(View(), start.value, count)
      ensures count > 0 && start.None? ==> forall j: nat :: !ClearRun(View(), j, count)
      ensures count == 0 && start.Some? ==>
                0 < start.value <= |View()| && View()[start.value - 1]
                  && forall j | 0 <= j < start.value - 1 :: !View()[j]
      ensures count == 0 && start.None? ==> forall j | 0 <= j < |View()| :: !View()[j]
    {
      ViewSize();
      hide BitsOf;
      var counter := 0;
      var next := 0;
      while next < 8 * bits.Length
        invariant next <= 8 * bits.Length && Streak(View(), next, counter)
        invariant count > 0 ==> counter < count && forall j: nat | j + count <= next :: !ClearRun(View(), j, count)
        invariant count == 0 ==> counter == next
      {
        var taken := Test(offset + next);
        if taken { counter := 0; } else { counter := counter + 1; }
        next := next + 1;
        if count > 0 { StreakFits(View(), next, counter, count); }
        if counter == count {
          return Some(next - count);
        }
      }
      return None;
    }

    /** bitmap_scan. */
    method Scan(count: nat) returns (index: Option<nat>)
      modifies bits
      ensures index.None? ==> View() == old(View())
      ensures count > 0 ==> (index.None? <==> forall j: nat :: !ClearRun(old(View()), j, count))
      ensures count > 0 && index.Some? ==>
                && index.value >= offset && FirstFit(old(View()), index.value - offset, count)
                && View() == SetBits(old(View()), index.value - offset, count, true)
      ensures count == 0 ==> View() == old(View()) && (index.None? <==> true !in old(View()))
    {
      var start := Search(count);
      if start.None? {
        return None;
      }
      ghost var was := View();
      assert was == SetBits(was, start.value, 0, true);
      var next := start.value;
      var left: nat := count;
      while left > 0
        invariant next == start.value + count - left && left <= count
        invariant View() == SetBits(was, start.value, count - left, true)
      {
        ghost var before := View();
        Set(offset + next, true);
        assert View() == SetBits(was, start.value, count - left + 1, true)
          by { SetNext(was, start.value, count - left, before); }
        next := next + 1;
        left := left - 1;
      }
      return Some(start.value + offset);
    }
  }
}

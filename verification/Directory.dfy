/** Directory slots (src/fs/namei.c): a table of names with inode numbers, in
    which a slot whose number is 0 is free. A directory of size n * 16 is the
    sequence of its n slots. */
module Directory {
  import opened Common
  import opened Path

  const NAME_LEN := 14

  /** dentry_t with its name up to the NUL. */
  datatype Entry = Entry(nr: nat, name: string)

  /** The part of a path name that match_name compares. */
  function FirstName(path: string): string { path[..FirstSep(path)] }

  predicate Matches(e: Entry, name: string) { e.nr != 0 && e.name == name }

  /** Live names are single names and fit a slot with their NUL. */
  ghost predicate Fits(d: seq<Entry>) {
    forall i | 0 <= i < |d| && d[i].nr != 0 :: |d[i].name| < NAME_LEN && FirstSep(d[i].name) == |d[i].name|
  }

  /** No two live slots have the same name. */
  ghost predicate Unique(d: seq<Entry>) {
    forall i, j | 0 <= i < |d| && 0 <= j < |d| && d[i].nr != 0 && d[j].nr != 0 && d[i].name == d[j].name :: i == j
  }

  ghost predicate Valid(d: seq<Entry>) { Fits(d) && Unique(d) }

  /** The directory as a map. */
  ghost predicate Has(d: seq<Entry>, name: string, nr: nat) {
    exists i :: 0 <= i < |d| && Matches(d[i], name) && d[i].nr == nr
  }

  /** match_name: the whole entry name against the path up to its first separator. */
  method MatchName(path: string, entry: string) returns (same: bool, next: nat)
    requires FirstSep(entry) == |entry|
    ensures same <==> entry == FirstName(path)
    ensures same ==> next == if |entry| < |path| then |entry| + 1 else |path|
  {
    var k := 0;
    while k < |path| && k < |entry| && path[k] == entry[k]
      invariant k <= |path| && k <= |entry| && path[..k] == entry[..k]
    {
      k := k + 1;
    }
    next := 0;
    MatchEnd(path, entry, k);
    if k < |entry| {
      return false, 0;
    }
    if k < |path| && !IsSeparator(path[k]) {
      return false, 0;
    }
    next := if k < |path| then k + 1 else k;
    same := true;
  }

  lemma MatchEnd(path: string, entry: string, k: nat)
    requires k <= |path| && k <= |entry| && path[..k] == entry[..k] && FirstSep(entry) == |entry|
    requires k < |path| && k < |entry| ==> path[k] != entry[k]
    ensures entry == FirstName(path) <==> k == |entry| && (k < |path| ==> IsSeparator(path[k]))
  {
    var i := FirstSep(path);
    if k == |entry| {
      assert forall j | 0 <= j < k :: path[j] == entry[j];
      if k == |path| || IsSeparator(path[k]) { FirstSepIs(path, k); }
    } else {
      assert k < |path| && k < i ==> path[..i][k] == path[k];
    }
  }

  ghost predicate FirstLive(d: seq<Entry>, name: string, i: nat) {
    i < |d| && Matches(d[i], name) && forall j | 0 <= j < i :: !Matches(d[j], name)
  }

  ghost predicate LowestFree(d: seq<Entry>, i: nat) {
    i <= |d| && (i < |d| ==> d[i].nr == 0) && forall j | 0 <= j < i :: d[j].nr != 0
  }

  /** What strncpy leaves of a name in a slot: at most 13 characters. */
  function Stored(name: string): string { if |name| < NAME_LEN then name else name[..NAME_LEN - 1] }

  /** add_entry of an absent name and the caller's store of the inode number. */
  function Added(d: seq<Entry>, i: nat, name: string, nr: nat): seq<Entry>
    requires i <= |d|
  {
    d[..i] + [Entry(nr, Stored(name))] + if i < |d| then d[i + 1..] else []
  }

  /** add_entry asserts that the first 14 characters of a name hold no separator. */
  predicate Addable(name: string) { FirstSep(name) == |name| || FirstSep(name) >= NAME_LEN }

  lemma StoredIs(name: string)
    requires Addable(name)
    ensures |Stored(name)| < NAME_LEN && FirstSep(Stored(name)) == |Stored(name)|
    ensures |name| < NAME_LEN ==> Stored(name) == FirstName(name) == name
    ensures |name| >= NAME_LEN ==> |FirstName(name)| >= NAME_LEN
  {
    assert forall j | 0 <= j < |Stored(name)| :: Stored(name)[j] == name[j];
    FirstSepIs(Stored(name), |Stored(name)|);
    assert |name| < NAME_LEN ==> name[..FirstSep(name)] == name;
  }

  /** Slots other than i, where a free slot may have been, are as they were. */
  lemma AddedSlots(d: seq<Entry>, i: nat, name: string, nr: nat)
    requires LowestFree(d, i) && nr != 0
    ensures var e := Added(d, i, name, nr);
            && |e| == (if i < |d| then |d| else |d| + 1) && e[i] == Entry(nr, Stored(name))
            && (forall j | 0 <= j < |e| && j != i :: j < |d| && e[j] == d[j])
            && (forall j | 0 <= j < |d| && d[j].nr != 0 :: j != i && e[j] == d[j])
  {}

  /** The new entry is found exactly when its name was not cut off. */
  lemma AddedIsFound(d: seq<Entry>, i: nat, name: string, nr: nat)
    requires Fits(d) && LowestFree(d, i) && nr != 0 && Addable(name) && (forall k: nat :: !Has(d, FirstName(name), k))
    ensures Has(Added(d, i, name, nr), FirstName(name), nr) <==> |name| < NAME_LEN
  {
    var e := Added(d, i, name, nr);
    AddedSlots(d, i, name, nr);
    StoredIs(name);
    hide Added;
    if |name| < NAME_LEN {
      assert Matches(e[i], name);
    } else {
      assert forall j | 0 <= j < |e| && e[j].nr != 0 :: |e[j].name| < NAME_LEN;
    }
  }

  /** Adding a name keeps live names unique exactly when none is what the slot keeps of
      it, and it changes no other lookup. */
  lemma AddedKeeps(d: seq<Entry>, i: nat, name: string, nr: nat)
    requires Valid(d) && LowestFree(d, i) && nr != 0 && Addable(name)
    ensures Fits(Added(d, i, name, nr))
    ensures Valid(Added(d, i, name, nr)) <==> forall k: nat :: !Has(d, Stored(name), k)
    ensures |Added(d, i, name, nr)| == if i < |d| then |d| else |d| + 1
  {
    var e := Added(d, i, name, nr);
    AddedSlots(d, i, name, nr);
    StoredIs(name);
    hide Added, Stored;
    if k: nat :| Has(d, Stored(name), k) {
      var j :| 0 <= j < |d| && Matches(d[j], Stored(name)) && d[j].nr == k;
      assert e[j] == d[j] && e[i].name == e[j].name;
    } else {
      assert forall j | 0 <= j < |d| && d[j].nr != 0 && d[j].name == Stored(name) ::
        Matches(d[j], Stored(name)) && Has(d, Stored(name), d[j].nr);
    }
  }

  lemma AddedOthers(d: seq<Entry>, i: nat, name: string, nr: nat)
    requires LowestFree(d, i) && nr != 0
    ensures forall other: string, k: nat | other != Stored(name) ::
            Has(Added(d, i, name, nr), other, k) == Has(d, other, k)
  {
    var e := Added(d, i, name, nr);
    AddedSlots(d, i, name, nr);
    hide Added, Stored;
    forall other: string, k: nat | other != Stored(name) ensures Has(e, other, k) == Has(d, other, k) {
      if Has(e, other, k) {
        var j :| 0 <= j < |e| && Matches(e[j], other) && e[j].nr == k;
        assert Matches(d[j], other);
      }
      if Has(d, other, k) {
        var j :| 0 <= j < |d| && Matches(d[j], other) && d[j].nr == k;
        assert Matches(e[j], other);
      }
    }
  }

  class DirInode {
    var slots: seq<Entry>

    constructor ()
      ensures slots == [] && Valid(slots)
    {
      slots := [];
    }

    /** find_entry, where ".." does not lead out of a mounted root: the slot of the
        live entry for the first name of path, and what of path comes behind it. */
    method FindEntry(path: string) returns (r: Option<nat>, next: nat)
      requires Fits(slots)
      ensures r.Some? ==> FirstLive(slots, FirstName(path), r.value) && Has(slots, FirstName(path), slots[r.value].nr)
      ensures r.Some? ==> next == if FirstSep(path) < |path| then FirstSep(path) + 1 else |path|
      ensures r.None? ==> forall k: nat :: !Has(slots, FirstName(path), k)
    {
      next := 0;
      for i := 0 to |slots|
        invariant forall j | 0 <= j < i :: !Matches(slots[j], FirstName(path))
      {
        if slots[i].nr != 0 {
          var same, n := MatchName(path, slots[i].name);
          if same {
            assert Matches(slots[i], FirstName(path));
            return Some(i), n;
          }
        }
      }
      r := None;
    }

    /** add_entry: the slot that holds the name, or the lowest free one, taken for it.
        Its number is the caller's to set. */
    method AddEntry(name: string) returns (i: nat, found: bool)
      requires Fits(slots) && Addable(name)
      modifies this
      ensures found ==> slots == old(slots) && FirstLive(slots, FirstName(name), i)
      ensures !found ==> LowestFree(old(slots), i) && slots == Added(old(slots), i, name, 0)
      ensures !found ==>
                && i <= |old(slots)| && (i < |old(slots)| ==> old(slots)[i].nr == 0) && i < |slots|
                && (forall j | 0 <= j < i :: old(slots)[j].nr != 0)
                && forall j | 0 <= j < |old(slots)| && j != i :: j < |slots| && slots[j] == old(slots)[j]
      ensures !found <==> forall k: nat :: !Has(old(slots), FirstName(name), k)
    {
      var r, next := FindEntry(name);
      if r.Some? {
        return r.value, true;
      }
      i := 0;
      while i < |slots| && slots[i].nr != 0
        invariant i <= |slots| && forall j | 0 <= j < i :: slots[j].nr != 0
      {
        i := i + 1;
      }
      if i == |slots| {
        slots := slots + [Entry(0, "")];
      }
      slots := slots[i := Entry(0, if |name| < NAME_LEN then name else name[..NAME_LEN - 1])];
      found := false;
    }

    /** Creating a name as inode_open, mkdir, link and mknod do: find or add the slot, set
        the number. */
    method Create(name: string, nr: nat) returns (made: bool)
      requires Valid(slots) && Addable(name) && nr != 0
      modifies this
      ensures Fits(slots) && (made <==> forall k: nat :: !Has(old(slots), FirstName(name), k))
      ensures !made ==> slots == old(slots)
      ensures made ==> (Valid(slots) <==> forall k: nat :: !Has(old(slots), Stored(name), k))
      ensures made ==> (Has(slots, FirstName(name), nr) <==> |name| < NAME_LEN)
      ensures made ==> forall other: string, k: nat | other != Stored(name) ::
              Has(slots, other, k) == Has(old(slots), other, k)
      ensures made && |name| < NAME_LEN ==> Valid(slots) && Has(slots, name, nr)
      ensures made ==>
                |slots| == if exists j :: 0 <= j < |old(slots)| && old(slots)[j].nr == 0 then |old(slots)|
                           else |old(slots)| + 1
    {
      ghost var d := slots;
      var i, found := AddEntry(name);
      made := !found;
      if made {
        slots := slots[i := slots[i].(nr := nr)];
        assert slots == Added(d, i, name, nr);
        StoredIs(name);
        AddedKeeps(d, i, name, nr);
        AddedOthers(d, i, name, nr);
        AddedIsFound(d, i, name, nr);
        hide Added, Stored, Has, Fits, Unique;
      }
    }

    /** Unlinking a name as unlink and rmdir do. */
    method Remove(name: string) returns (gone: bool)
      requires Valid(slots) && FirstSep(name) == |name|
      modifies this
      ensures Valid(slots) && (gone <==> exists k: nat :: Has(old(slots), name, k))
      ensures forall k: nat :: !Has(slots, name, k)
      ensures forall other: string, k: nat | other != name :: Has(slots, other, k) == Has(old(slots), other, k)
      ensures |slots| == |old(slots)|
    {
      assert FirstName(name) == name;
      var r, next := FindEntry(name);
      gone := r.Some?;
      if gone {
        ghost var d := slots;
        slots := slots[r.value := slots[r.value].(nr := 0)];
        RemovedKeeps(d, r.value, name);
      }
    }
  }

  lemma RemovedKeeps(d: seq<Entry>, i: nat, name: string)
    requires Valid(d) && FirstLive(d, name, i)
    ensures var e := d[i := d[i].(nr := 0)];
            && Valid(e) && (forall k: nat :: !Has(e, name, k))
            && forall other: string, k: nat | other != name :: Has(e, other, k) == Has(d, other, k)
  {
    var e := d[i := d[i].(nr := 0)];
    assert forall j | 0 <= j < |d| && j != i :: e[j] == d[j];
    assert d[i].name == name;
    forall other: string, k: nat | other != name ensures Has(e, other, k) == Has(d, other, k) {
      if Has(d, other, k) {
        var j :| 0 <= j < |d| && Matches(d[j], other) && d[j].nr == k;
        assert Matches(e[j], other);
      }
    }
  }
}

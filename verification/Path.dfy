/** abspath of src/fs/namei.c over the string functions of src/lib/string.c: both
    strings are buffers that end at their first NUL and are rewritten in place. */
module Path {
  import opened Common

  const NUL: char := '\0'

  predicate IsSeparator(c: char) { c == '/' || c == '\\' }

  // ----- what it should compute -----

  function FirstSep(s: string): (i: nat)
    ensures i <= |s| && (i < |s| ==> IsSeparator(s[i])) && forall j | 0 <= j < i :: !IsSeparator(s[j])
  {
    if s == [] || IsSeparator(s[0]) then 0 else 1 + FirstSep(s[1..])
  }

  /** The names between separators; an empty one counts except at the end. */
  function Components(s: string): seq<string>
    decreases |s|
  {
    var i := FirstSep(s);
    if i < |s| then [s[..i]] + Components(s[i + 1..]) else if s == [] then [] else [s]
  }

  /** A directory is known by the names that lead to it from the root, each kept
      with the separator behind it. */
  function Enter(dir: seq<string>, name: string): seq<string> {
    if name == "." then dir
    else if name == ".." then (if dir == [] then [] else dir[..|dir| - 1])
    else dir + [name + "/"]
  }

  function EnterAll(dir: seq<string>, names: seq<string>): seq<string>
    decreases |names|
  {
    if names == [] then dir else EnterAll(Enter(dir, names[0]), names[1..])
  }

  /** Where a path name leads from dir. */
  function Resolve(dir: seq<string>, path: string): seq<string> {
    if path != [] && IsSeparator(path[0]) then EnterAll([], Components(path[1..])) else EnterAll(dir, Components(path))
  }

  function Flat(dir: seq<string>): string {
    if dir == [] then [] else Flat(dir[..|dir| - 1]) + dir[|dir| - 1]
  }

  predicate IsStep(s: string) {
    s != [] && IsSeparator(s[|s| - 1]) && NUL !in s && forall i | 0 <= i < |s| - 1 :: !IsSeparator(s[i])
  }

  predicate IsDir(dir: seq<string>) { forall i | 0 <= i < |dir| :: IsStep(dir[i]) }

  lemma {:induction false} EnterAllIsDir(dir: seq<string>, path: string)
    requires IsDir(dir) && NUL !in path
    ensures IsDir(EnterAll(dir, Components(path)))
    decreases |path|
  {
    var i := FirstSep(path);
    if i < |path| {
      hide Enter, IsDir, Normal;
      EnterIsDir(dir, path[..i]);
      EnterAllIsDir(Enter(dir, path[..i]), path[i + 1..]);
      assert Components(path)[1..] == Components(path[i + 1..]);
    } else if path != [] {
      EnterIsDir(dir, path);
      assert Components(path) == [path] && [path][1..] == [];
    }
  }

  lemma EnterIsDir(dir: seq<string>, name: string)
    requires IsDir(dir) && NUL !in name && forall i | 0 <= i < |name| :: !IsSeparator(name[i])
    ensures IsDir(Enter(dir, name))
  {
    assert IsStep(name + "/");
  }

  /** The names in a directory reached by path names alone are never "." or "..". */
  predicate Normal(dir: seq<string>) {
    forall i | 0 <= i < |dir| :: IsStep(dir[i]) && dir[i][|dir[i]| - 1] == '/' && dir[i] != "./" && dir[i] != "../"
  }

  lemma {:induction false} EnterAllNormal(dir: seq<string>, path: string)
    requires Normal(dir) && NUL !in path
    ensures Normal(EnterAll(dir, Components(path)))
    decreases |path|
  {
    var i := FirstSep(path);
    if i < |path| {
      hide Enter, IsDir, Normal;
      EnterNormal(dir, path[..i]);
      EnterAllNormal(Enter(dir, path[..i]), path[i + 1..]);
      assert Components(path)[1..] == Components(path[i + 1..]);
    } else if path != [] {
      EnterNormal(dir, path);
      assert Components(path) == [path] && [path][1..] == [];
    }
  }

  lemma EnterNormal(dir: seq<string>, name: string)
    requires Normal(dir) && NUL !in name && forall i | 0 <= i < |name| :: !IsSeparator(name[i])
    ensures Normal(Enter(dir, name))
  {
    assert (name + "/")[..|name|] == name;
    assert IsStep(name + "/");
    assert name != "." && name != ".." ==> name + "/" != "./" && name + "/" != "../" by {
      assert "./"[..1] == "." && "../"[..2] == "..";
    }
  }

  lemma {:induction false} FlatFirst(dir: seq<string>)
    requires dir != []
    ensures Flat(dir) == dir[0] + Flat(dir[1..])
  {
    if |dir| == 1 {
      assert dir[..0] == [] && dir[1..] == [];
    } else {
      var last := dir[|dir| - 1];
      assert dir[..|dir| - 1][1..] == dir[1..][..|dir| - 2];
      assert Flat(dir) == Flat(dir[..|dir| - 1]) + last && Flat(dir[1..]) == Flat(dir[1..][..|dir| - 2]) + last;
      hide Flat;
      FlatFirst(dir[..|dir| - 1]);
      Associate(dir[0], Flat(dir[1..][..|dir| - 2]), last);
    }
  }

  lemma ComponentsCons(name: string, c: char, rest: string)
    requires IsSeparator(c) && forall i | 0 <= i < |name| :: !IsSeparator(name[i])
    ensures Components(name + [c] + rest) == [name] + Components(rest)
  {
    var s := name + [c] + rest;
    assert s[|name|] == c && forall j | 0 <= j < |name| :: s[j] == name[j];
    assert FirstSep(s) == |name|;
    assert s[..|name|] == name && s[|name| + 1..] == rest;
  }

  /** The written form of a directory, taken as an absolute path, names that
      directory from anywhere. */
  lemma {:induction false} WrittenFormIsPath(done: seq<string>, dir: seq<string>)
    requires Normal(dir)
    ensures EnterAll(done, Components(Flat(dir))) == done + dir
    decreases |dir|
  {
    if dir == [] {
      assert done + dir == done;
    } else {
      assert IsStep(dir[0]) && Normal([dir[0]]);
      WrittenFormIsPath(done + [dir[0]], dir[1..]);
      assert done + [dir[0]] + dir[1..] == done + dir;
      hide Normal, IsStep, Components, EnterAll;
      FlatFirst(dir);
      WrittenStep(done, dir[0], Flat(dir[1..]));
    }
  }

  lemma WrittenStep(dir: seq<string>, step: string, rest: string)
    requires step != [] && Normal([step])
    ensures EnterAll(dir, Components(step + rest)) == EnterAll(dir + [step], Components(rest))
  {
    var name := step[..|step| - 1];
    NormalName(step);
    hide Components, Normal, EnterAll;
    ComponentsCons(name, '/', rest);
    EnterAllCons(dir, name, Components(rest));
    assert name + ['/'] == step;
  }

  lemma EnterAllCons(dir: seq<string>, name: string, names: seq<string>)
    ensures EnterAll(dir, [name] + names) == EnterAll(Enter(dir, name), names)
  {
    assert ([name] + names)[1..] == names;
  }

  lemma NormalName(step: string)
    requires step != [] && Normal([step])
    ensures var name := step[..|step| - 1];
            && step == name + "/" && name != "." && name != ".." && forall i | 0 <= i < |name| :: !IsSeparator(name[i])
  {
    assert IsStep([step][0]);
    var name := step[..|step| - 1];
    assert step == name + "/";
    assert name == "." ==> step == "./";
    assert name == ".." ==> step == "../";
  }

  /** The written form of any directory, as an absolute path name, leads there. */
  lemma AbsoluteRoundTrip(from: seq<string>, dir: seq<string>)
    requires Normal(dir)
    ensures Resolve(from, "/" + Flat(dir)) == dir
  {
    assert ("/" + Flat(dir))[1..] == Flat(dir) && [] + dir == dir;
    WrittenFormIsPath([], dir);
  }

  lemma {:induction false} EnterAllJoin(dir: seq<string>, a: seq<string>, b: seq<string>)
    ensures EnterAll(dir, a + b) == EnterAll(EnterAll(dir, a), b)
    decreases |a|
  {
    if a == [] {
      assert a + b == b;
    } else {
      assert (a + b)[1..] == a[1..] + b;
      EnterAllJoin(Enter(dir, a[0]), a[1..], b);
    }
  }

  lemma {:induction false} ComponentsJoin(a: string, b: string)
    requires a != [] && IsSeparator(a[|a| - 1])
    ensures Components(a + b) == Components(a) + Components(b)
    decreases |a|
  {
    hide Components, FirstSep;
    var name, rest := FirstComponent(a, b);
    if rest == [] {
      ComponentsOfEmpty();
      assert rest + b == b && [] + Components(b) == Components(b);
    } else {
      ComponentsJoin(rest, b);
    }
    Associate([name], Components(rest), Components(b));
  }

  lemma Associate<T>(a: seq<T>, b: seq<T>, c: seq<T>)
    ensures (a + b) + c == a + (b + c)
  {}

  lemma FirstComponent(a: string, b: string) returns (name: string, rest: string)
    requires a != [] && IsSeparator(a[|a| - 1])
    ensures |rest| < |a| && (rest != [] ==> IsSeparator(rest[|rest| - 1]))
    ensures Components(a) == [name] + Components(rest) && Components(a + b) == [name] + Components(rest + b)
  {
    var i := FirstSep(a);
    var c := a[i];
    name, rest := a[..i], a[i + 1..];
    SplitAt(a, i, b);
    assert rest != [] ==> rest[|rest| - 1] == a[|a| - 1];
    assert forall j | 0 <= j < |name| :: !IsSeparator(name[j]);
    hide Components, FirstSep;
    ComponentsCons(name, c, rest);
    ComponentsCons(name, c, rest + b);
  }

  lemma SplitAt<T>(a: seq<T>, i: nat, b: seq<T>)
    requires i < |a|
    ensures a == a[..i] + [a[i]] + a[i + 1..] && a + b == a[..i] + [a[i]] + (a[i + 1..] + b)
  {}

  lemma ComponentsOfEmpty()
    ensures Components([]) == []
  {}

  /** Going along a and then along b is going along the two joined. */
  lemma ResolveJoin(dir: seq<string>, a: string, b: string)
    requires a != [] && IsSeparator(a[|a| - 1]) && (b == [] || !IsSeparator(b[0]))
    ensures Resolve(dir, a + b) == Resolve(Resolve(dir, a), b)
  {
    assert (a + b)[0] == a[0];
    if IsSeparator(a[0]) {
      assert (a + b)[1..] == a[1..] + b;
      if |a| == 1 {
        ComponentsOfEmpty();
        assert a[1..] == [] && [] + b == b;
      } else {
        ComponentsJoin(a[1..], b);
        EnterAllJoin([], Components(a[1..]), Components(b));
      }
    } else {
      ComponentsJoin(a, b);
      EnterAllJoin(dir, Components(a), Components(b));
    }
  }

  /** Any string that ends in a separator is the written form of a directory. */
  lemma {:induction false} ParseDir(p: string) returns (dir: seq<string>)
    requires NUL !in p && (p != [] ==> IsSeparator(p[|p| - 1]))
    ensures IsDir(dir) && Flat(dir) == p
    decreases |p|
  {
    if p == [] {
      dir := [];
    } else {
      var i := FirstSep(p);
      var step, rest := p[..i + 1], p[i + 1..];
      assert p == step + rest && IsStep(step);
      var d := ParseDir(rest);
      dir := [step] + d;
      assert dir[1..] == d;
      FlatFirst(dir);
    }
  }

  // ----- what single names mean -----

  predicate PlainName(name: string) {
    name != "" && name != "." && name != ".." && '/' !in name && '\\' !in name
  }

  /** The path name of one name, with or without a separator behind it. */
  lemma OneName(dir: seq<string>, name: string, c: char)
    requires '/' !in name && '\\' !in name && name != "" && (c == '/' || c == '\\')
    ensures Resolve(dir, name) == Resolve(dir, name + [c]) == Enter(dir, name)
  {
    assert forall i | 0 <= i < |name| :: name[i] in name;
    FirstSepIs(name, |name|);
    assert Components(name) == [name] && [name][1..] == [];
    ComponentsCons(name, c, []);
    assert name + [c] + [] == name + [c] && [name] + [] == [name];
    ComponentsOfEmpty();
    EnterAllCons(dir, name, []);
    assert (name + [c])[0] == name[0];
  }

  /** A name leads one step down, whichever separator is behind it. */
  lemma Down(dir: seq<string>, name: string, c: char)
    requires PlainName(name) && (c == '/' || c == '\\')
    ensures Resolve(dir, name) == Resolve(dir, name + [c]) == dir + [name + "/"]
  {
    OneName(dir, name, c);
  }

  /** ".", nothing at all, and a separator alone. */
  lemma Here(dir: seq<string>, c: char)
    requires c == '/' || c == '\\'
    ensures Resolve(dir, "") == Resolve(dir, ".") == Resolve(dir, "." + [c]) == dir && Resolve(dir, [c]) == []
  {
    OneName(dir, ".", c);
    ComponentsOfEmpty();
    assert [c][1..] == [];
  }

  /** ".." from the root stays there, and from any other directory leads to the one whose
      written form is shorter by one step: a name and the separator behind it. */
  lemma Up(dir: seq<string>)
    requires IsDir(dir)
    ensures dir == [] ==> Resolve(dir, "..") == []
    ensures dir != [] ==> exists step :: IsStep(step) && Flat(dir) == Flat(Resolve(dir, "..")) + step
    ensures dir != [] ==> Resolve(dir, "..") == dir[..|dir| - 1]
  {
    OneName(dir, "..", '/');
    if dir != [] { assert IsStep(dir[|dir| - 1]) && Flat(dir) == Flat(dir[..|dir| - 1]) + dir[|dir| - 1]; }
  }

  /** ".." behind a name takes that name back, and nothing more. */
  lemma DownUp(dir: seq<string>, name: string, c: char, d: char)
    requires PlainName(name) && (c == '/' || c == '\\') && (d == '/' || d == '\\')
    ensures Resolve(dir, name + [c] + "..") == Resolve(dir, name + [c] + ".." + [d]) == dir
  {
    Down(dir, name, c);
    OneName(dir + [name + "/"], "..", d);
    ResolveJoin(dir, name + [c], "..");
    ResolveJoin(dir, name + [c], ".." + [d]);
    assert (dir + [name + "/"])[..|dir|] == dir;
    Associate(name + [c], "..", [d]);
  }

  // ----- strings in buffers -----

  /** The string that starts at `from` ends at n. */
  ghost predicate StrAt(a: array<char>, from: nat, n: nat)
    reads a
  {
    from <= n < a.Length && a[n] == NUL && forall i | from <= i < n :: a[i] != NUL
  }

  /** strsep: the first separator. */
  method StrSep(a: array<char>, from: nat, ghost n: nat) returns (ptr: Option<nat>)
    requires StrAt(a, from, n)
    ensures ptr.Some? ==> from <= ptr.value < n && FirstSep(a[from..n]) == ptr.value - from
    ensures ptr.None? ==> FirstSep(a[from..n]) == n - from
  {
    var i := from;
    while a[i] != NUL && !IsSeparator(a[i])
      invariant from <= i <= n && forall j | from <= j < i :: !IsSeparator(a[j])
      decreases n - i
    {
      i := i + 1;
    }
    FirstSepIs(a[from..n], i - from);
    ptr := if a[i] != NUL then Some(i) else None;
  }

  lemma FirstSepIs(s: string, i: nat)
    requires i <= |s| && (i < |s| ==> IsSeparator(s[i])) && forall j | 0 <= j < i :: !IsSeparator(s[j])
    ensures FirstSep(s) == i
  {
    var k := FirstSep(s);
    assert i < |s| ==> IsSeparator(s[i]);
  }

  /** strrsep: the last separator. */
  method StrRSep(a: array<char>, ghost n: nat) returns (last: Option<nat>)
    requires StrAt(a, 0, n)
    ensures last.Some? ==>
            last.value < n && IsSeparator(a[last.value]) && forall j | last.value < j < n :: !IsSeparator(a[j])
    ensures last.None? ==> forall j | 0 <= j < n :: !IsSeparator(a[j])
  {
    last := None;
    var i := 0;
    while a[i] != NUL
      invariant i <= n
      invariant last.Some? ==>
                last.value < i && IsSeparator(a[last.value]) && forall j | last.value < j < i :: !IsSeparator(a[j])
      invariant last.None? ==> forall j | 0 <= j < i :: !IsSeparator(a[j])
      decreases n - i
    {
      if IsSeparator(a[i]) {
        last := Some(i);
      }
      i := i + 1;
    }
  }

  /** memcmp with a literal: it never looks behind the first difference. */
  method StartsWith(a: array<char>, from: nat, text: string, ghost n: nat) returns (r: bool)
    requires StrAt(a, from, n) && NUL !in text
    ensures r <==> text <= a[from..n]
  {
    var k := 0;
    while k < |text| && a[from + k] == text[k]
      invariant k <= |text| && from + k <= n && text[..k] == a[from..from + k]
    {
      assert a[from + k] != NUL;
      k := k + 1;
    }
    r := k == |text|;
    if r {
      assert text[..k] == text && a[from..from + k] == a[from..n][..k];
    } else {
      assert from + k < n ==> a[from..n][k] != text[k];
    }
  }

  /** strcmp with a literal. */
  method Equals(a: array<char>, from: nat, text: string, ghost n: nat) returns (r: bool)
    requires StrAt(a, from, n) && NUL !in text
    ensures r <==> a[from..n] == text
  {
    var starts := StartsWith(a, from, text, n);
    if !starts {
      return false;
    }
    assert a[from..n][..|text|] == text;
    r := a[from + |text|] == NUL;
    if r { assert from + |text| == n; } else { assert |a[from..n]| > |text|; }
  }

  /** How many characters strncpy leaves in front of the NUL. */
  function Kept(length: nat, count: nat): nat
    requires count > 0
  {
    if length < count then length else count - 1
  }

  /** strncpy; strcpy is the case of a count larger than the source. */
  method StrNCpy(dest: array<char>, at: nat, src: array<char>, from: nat, count: nat, ghost n: nat)
    requires dest != src && StrAt(src, from, n) && count > 0
    requires at + Kept(n - from, count) < dest.Length
    modifies dest
    ensures dest[..at] == old(dest[..at])
            && dest[at..at + Kept(n - from, count)] == src[from..from + Kept(n - from, count)]
    ensures dest[at + Kept(n - from, count)] == NUL
    ensures dest[at + Kept(n - from, count) + 1..] == old(dest[at + Kept(n - from, count) + 1..])
  {
    var nr := 0;
    while nr < count && src[from + nr] != NUL
      invariant nr <= count && from + nr <= n
      invariant at + nr <= dest.Length && dest[at..at + nr] == src[from..from + nr]
      invariant forall i | 0 <= i < at || at + nr <= i < dest.Length :: dest[i] == old(dest[i])
    {
      dest[at + nr] := src[from + nr];
      assert dest[at..at + nr + 1] == dest[at..at + nr] + [src[from + nr]];
      assert src[from..from + nr + 1] == src[from..from + nr] + [src[from + nr]];
      nr := nr + 1;
    }
    if nr < count {
      dest[at + nr] := NUL;
    } else {
      assert dest[at..at + count - 1] == dest[at..at + nr][..count - 1];
      dest[at + count - 1] := NUL;
      assert src[from..from + count - 1] == src[from..from + nr][..count - 1];
    }
  }

  // ----- abspath -----

  function Written(dir: seq<string>): nat { 1 + |Flat(dir)| }

  /** The buffer holds the written form of dir behind its root separator. */
  ghost predicate Holds(a: array<char>, dir: seq<string>)
    reads a
  {
    && IsDir(dir) && Written(dir) < a.Length && IsSeparator(a[0])
    && a[1..Written(dir)] == Flat(dir) && a[Written(dir)] == NUL
  }

  lemma {:induction false} FlatHasNoNul(dir: seq<string>)
    requires IsDir(dir)
    ensures NUL !in Flat(dir) && (dir != [] ==> Flat(dir) != [] && IsSeparator(Flat(dir)[|Flat(dir)| - 1]))
  {
    if dir != [] {
      FlatHasNoNul(dir[..|dir| - 1]);
      assert IsStep(dir[|dir| - 1]);
    }
  }

  lemma HoldsString(a: array<char>, dir: seq<string>)
    requires Holds(a, dir)
    ensures StrAt(a, 0, Written(dir)) && IsSeparator(a[Written(dir) - 1])
  {
    FlatHasNoNul(dir);
    assert forall i | 1 <= i < Written(dir) :: a[i] == Flat(dir)[i - 1];
  }

  lemma FlatPush(dir: seq<string>, step: string)
    ensures Flat(dir + [step]) == Flat(dir) + step
  {
    assert (dir + [step])[..|dir|] == dir;
  }

  /** ".." : the last name is cut off, unless only the root is left. */
  method PopName(pwd: array<char>, cur: nat, ghost dir: seq<string>) returns (next: nat)
    requires Holds(pwd, dir) && cur == Written(dir)
    modifies pwd
    ensures Holds(pwd, Enter(dir, "..")) && next == Written(Enter(dir, "..")) && pwd[0] == old(pwd[0])
    ensures dir == [] ==> next == cur == 1
    ensures dir != [] ==> Holds(pwd, dir[..|dir| - 1]) && next == Written(dir[..|dir| - 1]) == cur - |dir[|dir| - 1]|
  {
    EnterUp(dir);
    FlatLonger(dir);
    next := cur;
    if cur - 1 != 0 {
      ghost var up := dir[..|dir| - 1];
      HoldsString(pwd, dir);
      FlatHasNoNul(up);
      assert IsStep(dir[|dir| - 1]) && Flat(dir) == Flat(up) + dir[|dir| - 1];
      assert Flat(up) != [] ==> IsSeparator(Flat(up)[|Flat(up)| - 1]);
      hide Enter, IsStep, Flat;
      next := CutLast(pwd, cur, Flat(up), dir[|dir| - 1]);
    }
  }

  /** The last name of a buffer that holds cur characters goes, with the separator behind it. */
  method CutLast(pwd: array<char>, cur: nat, ghost up: string, ghost name: string) returns (next: nat)
    requires 0 < cur && StrAt(pwd, 0, cur) && IsSeparator(pwd[0]) && pwd[1..cur] == up + name && IsStep(name)
    requires up != [] ==> IsSeparator(up[|up| - 1])
    modifies pwd
    ensures next == 1 + |up| < pwd.Length && pwd[1..next] == up && pwd[next] == NUL && pwd[0] == old(pwd[0])
  {
    ghost var was := pwd[..cur];
    assert was[1..] == up + name;
    CutString(was, up, name);
    ghost var cut := was[..cur - 1];
    assert name != [];
    hide IsStep;
    pwd[cur - 1] := NUL;
    assert pwd[..cur - 1] == cut;
    var last := StrRSep(pwd, cur - 1);
    assert forall j | 0 <= j < cur - 1 :: pwd[j] == cut[j];
    LastStep(cut, up, name, last);
    next := last.value + 1;
    pwd[next] := NUL;
    assert pwd[..next] == was[..next];
    assert pwd[1..next] == pwd[..next][1..];
  }

  lemma EnterUp(dir: seq<string>)
    ensures Enter(dir, "..") == if dir == [] then [] else dir[..|dir| - 1]
  {}

  lemma FlatLonger(dir: seq<string>)
    requires IsDir(dir)
    ensures Written(dir) == 1 <==> dir == []
    ensures dir != [] ==> Written(dir) == Written(dir[..|dir| - 1]) + |dir[|dir| - 1]|
  {
    if dir != [] { assert IsStep(dir[|dir| - 1]); }
  }

  lemma CutString(was: string, up: string, name: string)
    requires was != [] && was[1..] == up + name && IsStep(name)
    ensures was[..|was| - 1][1..] == up + name[..|name| - 1]
    ensures was[..1 + |up|][1..] == up
  {
    assert was[..|was| - 1][1..] == was[1..][..|was| - 2];
    assert was[..1 + |up|][1..] == was[1..][..|up|];
  }

  /** Without its separator the last name has none, so the one before it is found. */
  lemma LastStep(s: string, up: string, name: string, last: Option<nat>)
    requires s != [] && IsSeparator(s[0]) && IsStep(name) && s[1..] == up + name[..|name| - 1]
    requires up != [] ==> IsSeparator(up[|up| - 1])
    requires last.Some? ==>
             last.value < |s| && IsSeparator(s[last.value]) && forall j | last.value < j < |s| :: !IsSeparator(s[j])
    requires last.None? ==> forall j | 0 <= j < |s| :: !IsSeparator(s[j])
    ensures last == Some(|up|)
  {
    assert forall j | 1 <= j < |s| :: s[j] == (up + name[..|name| - 1])[j - 1];
    assert IsSeparator(s[|up|]);
    assert forall j | |up| < j < |s| :: s[j] == name[j - 1 - |up|];
  }

  /** A name and its separator are appended. */
  method PushName(pwd: array<char>, cur: nat, pathname: array<char>, from: nat, len: nat, ghost n: nat,
          ghost dir: seq<string>)
    requires pwd != pathname && Holds(pwd, dir) && cur == Written(dir) && StrAt(pathname, from, n)
    requires len > 0 && from + len <= n && cur + len < pwd.Length && IsStep(pathname[from..from + len])
    modifies pwd
    ensures Holds(pwd, dir + [pathname[from..from + len]]) && pwd[0] == old(pwd[0])
  {
    ghost var step := pathname[from..from + len];
    ghost var was := pwd[..cur];
    StrNCpy(pwd, cur, pathname, from, len + 1, n);
    hide Flat, IsStep;
    Joined(was, step, pwd[..], cur, len);
    FlatPush(dir, step);
    assert pwd[1..cur + len] == Flat(dir) + step;
  }

  lemma Joined(was: string, step: string, now: string, cur: nat, len: nat)
    requires 0 < cur && cur + len <= |now| && now[..cur] == was && now[cur..cur + len] == step
    ensures now[1..cur + len] == was[1..] + step && now[0] == was[0]
  {
    assert now[1..cur + len] == now[..cur][1..] + now[cur..cur + len];
  }

  method StrLen(a: array<char>, from: nat, ghost n: nat) returns (len: nat)
    requires StrAt(a, from, n)
    ensures len == n - from
  {
    len := 0;
    while a[from + len] != NUL
      invariant from + len <= n
      decreases n - from - len
    {
      len := len + 1;
    }
  }

  lemma ComponentsUnfold(s: string)
    requires FirstSep(s) < |s|
    ensures Components(s) == [s[..FirstSep(s)]] + Components(s[FirstSep(s) + 1..])
  {
    hide FirstSep;
  }

  lemma OneComponent(dir: seq<string>, s: string, rest: string)
    requires FirstSep(s) < |s| && rest == s[FirstSep(s) + 1..]
    ensures EnterAll(dir, Components(s)) == EnterAll(Enter(dir, s[..FirstSep(s)]), Components(rest))
  {
    hide Components, FirstSep, EnterAll, Enter;
    ComponentsUnfold(s);
    EnterAllCons(dir, s[..FirstSep(s)], Components(rest));
  }

  lemma LastComponent(dir: seq<string>, s: string)
    requires FirstSep(s) == |s|
    ensures EnterAll(dir, Components(s)) == if s == [] then dir else Enter(dir, s)
  {
    if s != [] {
      assert Components(s) == [s];
      EnterAllCons(dir, s, []);
      assert [s] + [] == [s];
    }
  }

  /** One round of the loop: the name in front of the separator at ptr. */
  method EnterName(pwd: array<char>, cur: nat, pathname: array<char>, pos: nat, ptr: nat, ghost n: nat,
          ghost dir: seq<string>)
    returns (next: nat)
    requires pwd != pathname && Holds(pwd, dir) && cur == Written(dir) && StrAt(pathname, pos, n)
    requires pos <= ptr < n && cur + (ptr - pos) + 1 < pwd.Length && pathname[ptr] == '/'
    requires forall i | pos <= i < ptr :: !IsSeparator(pathname[i])
    modifies pwd
    ensures Holds(pwd, Enter(dir, pathname[pos..ptr])) && next == Written(Enter(dir, pathname[pos..ptr]))
    ensures next <= cur + (ptr - pos) + 1 && pwd[0] == old(pwd[0])
  {
    ghost var name := pathname[pos..ptr];
    var len := ptr - pos + 1;
    assert pathname[pos..pos + len] == name + "/";
    assert pathname[pos..n] == name + "/" + pathname[ptr + 1..n];
    PrefixIsName(name, pathname[pos..n], pathname[ptr + 1..n]);
    next := cur;
    hide Holds, Flat;
    var same := StartsWith(pathname, pos, "./", n);
    if !same {
      var up := StartsWith(pathname, pos, "../", n);
      if up {
        UpShrinks(dir);
        next := PopName(pwd, cur, dir);
      } else {
        FlatPush(dir, name + "/");
        assert IsStep(name + "/");
        PushName(pwd, cur, pathname, pos, len, n, dir);
        next := cur + len;
      }
    }
  }

  /** Comparing with "./" and "../" compares the whole name. */
  lemma PrefixIsName(name: string, s: string, rest: string)
    requires s == name + "/" + rest && forall i | 0 <= i < |name| :: !IsSeparator(name[i])
    ensures "./" <= s <==> name == "."
    ensures "../" <= s <==> name == ".."
  {
    assert s[|name|] == '/' && forall i | 0 <= i < |name| :: s[i] == name[i];
    if "./" <= s { assert s[0] == '.' && s[1] == '/'; }
    if "../" <= s { assert s[0] == '.' && s[1] == '.' && s[2] == '/'; }
  }

  lemma UpShrinks(dir: seq<string>)
    ensures Written(Enter(dir, "..")) <= Written(dir)
  {}

  /** The part of the path name behind the last separator. */
  method EnterLast(pwd: array<char>, cur: nat, pathname: array<char>, pos: nat, ghost n: nat, ghost dir: seq<string>)
    requires pwd != pathname && Holds(pwd, dir) && cur == Written(dir) && StrAt(pathname, pos, n)
    requires FirstSep(pathname[pos..n]) == n - pos && cur + (n - pos) + 1 < pwd.Length
    modifies pwd
    ensures Holds(pwd, EnterAll(dir, Components(pathname[pos..n]))) && pwd[0] == old(pwd[0])
  {
    ghost var name := pathname[pos..n];
    LastComponent(dir, name);
    hide Components, EnterAll;
    if pathname[pos] == NUL {
      return;
    }
    var same := Equals(pathname, pos, ".", n);
    if same {
      return;
    }
    var up := Equals(pathname, pos, "..", n);
    if up {
      var next := PopName(pwd, cur, dir);
    } else {
      AppendLast(pwd, cur, pathname, pos, n, dir);
    }
  }

  method AppendLast(pwd: array<char>, cur: nat, pathname: array<char>, pos: nat, ghost n: nat, ghost dir: seq<string>)
    requires pwd != pathname && Holds(pwd, dir) && cur == Written(dir) && StrAt(pathname, pos, n)
    requires FirstSep(pathname[pos..n]) == n - pos && cur + (n - pos) + 1 < pwd.Length
    modifies pwd
    ensures Holds(pwd, dir + [pathname[pos..n] + "/"]) && pwd[0] == old(pwd[0])
  {
    ghost var name := pathname[pos..n];
    ghost var was := pwd[..cur];
    var len := StrLen(pathname, pos, n);
    StrNCpy(pwd, cur, pathname, pos, len + 1, n);
    Joined(was, name, pwd[..], cur, len);
    ghost var mid := pwd[..];
    pwd[cur + len] := '/';
    pwd[cur + len + 1] := NUL;
    NameStep(name);
    hide Flat, IsStep, FirstSep;
    FlatPush(dir, name + "/");
    SlashBehind(mid, pwd[..], cur + len);
    assert pwd[1..cur + len + 1] == Flat(dir) + (name + "/");
  }

  lemma NameStep(name: string)
    requires FirstSep(name) == |name| && NUL !in name
    ensures IsStep(name + "/")
  {
    assert forall j | 0 <= j < |name| :: !IsSeparator(name[j]);
  }

  lemma SlashBehind(mid: string, now: string, end: nat)
    requires 0 < end < |mid| == |now| && now[end] == '/' && now[..end] == mid[..end]
    ensures now[1..end + 1] == mid[1..end] + "/" && now[0] == mid[0]
  {
    assert now[1..end + 1] == now[..end][1..] + [now[end]];
  }

  /** The beginning of abspath: at the root for an absolute path name, else in pwd. */
  method StartDir(pwd: array<char>, pathname: array<char>, ghost dir: seq<string>, ghost n: nat)
    returns (cur: nat, pos: nat, ghost d: seq<string>)
    requires pwd != pathname && Holds(pwd, dir) && StrAt(pathname, 0, n)
    modifies pwd
    ensures Holds(pwd, d) && cur == Written(d) <= Written(dir) && pos <= n && pwd[0] == old(pwd[0])
    ensures EnterAll(d, Components(pathname[pos..n])) == Resolve(dir, pathname[..n])
  {
    assert pathname[0..n] == pathname[..n];
    if IsSeparator(pathname[0]) {
      assert pathname[1..n] == pathname[..n][1..];
      pwd[1] := NUL;
      return 1, 1, [];
    }
    assert n > 0 ==> pathname[..n][0] == pathname[0];
    HoldsString(pwd, dir);
    var last := StrRSep(pwd, Written(dir));
    assert last == Some(Written(dir) - 1);
    ghost var was := pwd[..];
    pwd[last.value + 1] := NUL;
    assert pwd[..] == was;
    assert pwd[1..Written(dir)] == pwd[..][1..Written(dir)];
    return last.value + 1, 0, dir;
  }

  method NextName(pwd: array<char>, cur: nat, pathname: array<char>, pos: nat, ptr: nat, ghost n: nat,
          ghost dir: seq<string>)
    returns (next: nat, ghost d: seq<string>)
    requires pwd != pathname && Holds(pwd, dir) && cur == Written(dir) && StrAt(pathname, pos, n)
    requires pos <= ptr < n && FirstSep(pathname[pos..n]) == ptr - pos && cur + (n - pos) + 2 <= pwd.Length
    modifies pwd, pathname
    ensures Holds(pwd, d) && next == Written(d) <= cur + (ptr - pos) + 1 && pwd[0] == old(pwd[0])
    ensures StrAt(pathname, ptr + 1, n)
    ensures EnterAll(d, Components(pathname[ptr + 1..n])) == old(EnterAll(dir, Components(pathname[pos..n])))
  {
    hide Holds, Components, EnterAll, Flat, Enter;
    ghost var rest := pathname[pos..n];
    ghost var name, tail := rest[..FirstSep(rest)], pathname[ptr + 1..n];
    OneComponent(dir, rest, tail);
    pathname[ptr] := '/';
    assert pathname[pos..ptr] == name;
    assert forall i | pos <= i < ptr :: pathname[i] == rest[i - pos];
    next := EnterName(pwd, cur, pathname, pos, ptr, n, dir);
    d := Enter(dir, name);
    assert pathname[ptr + 1..n] == tail;
  }

  /** The loop of abspath: all names that have a separator behind them. */
  method EnterNames(pwd: array<char>, start: nat, pathname: array<char>, from: nat, ghost n: nat,
          ghost dir: seq<string>)
    returns (cur: nat, pos: nat, ghost d: seq<string>)
    requires pwd != pathname && Holds(pwd, dir) && start == Written(dir) && StrAt(pathname, from, n)
    requires start + (n - from) + 2 <= pwd.Length
    modifies pwd, pathname
    ensures Holds(pwd, d) && cur == Written(d) && pos <= n && StrAt(pathname, pos, n)
            && cur + (n - pos) + 2 <= pwd.Length
    ensures pwd[0] == old(pwd[0]) && FirstSep(pathname[pos..n]) == n - pos
    ensures EnterAll(d, Components(pathname[pos..n])) == old(EnterAll(dir, Components(pathname[from..n])))
  {
    hide Holds, Components, EnterAll, Flat, Enter;
    cur, pos, d := start, from, dir;
    ghost var target := EnterAll(d, Components(pathname[from..n]));
    while pathname[pos] != NUL
      invariant Holds(pwd, d) && cur == Written(d) && pos <= n && StrAt(pathname, pos, n)
                && cur + (n - pos) + 2 <= pwd.Length
      invariant EnterAll(d, Components(pathname[pos..n])) == target && pwd[0] == old(pwd[0])
      decreases n - pos
    {
      var ptr := StrSep(pathname, pos, n);
      if ptr.None? {
        return;
      }
      cur, d := NextName(pwd, cur, pathname, pos, ptr.value, n, d);
      pos := ptr.value + 1;
    }
  }

  /** abspath: pwd becomes the written form of the directory that pathname leads to. */
  method AbsPath(pwd: array<char>, pathname: array<char>, ghost dir: seq<string>, ghost n: nat)
    requires pwd != pathname && Holds(pwd, dir) && StrAt(pathname, 0, n) && Written(dir) + n + 2 <= pwd.Length
    modifies pwd, pathname
    ensures Holds(pwd, Resolve(dir, old(pathname[..n]))) && pwd[0] == old(pwd[0])
    ensures var to := Flat(Resolve(dir, old(pathname[..n])));
            1 + |to| < pwd.Length && pwd[1..1 + |to|] == to && pwd[1 + |to|] == NUL
  {
    hide Holds, Components, EnterAll, Resolve, Flat, Enter;
    var cur, pos, d := StartDir(pwd, pathname, dir, n);
    assert StrAt(pathname, pos, n);
    cur, pos, d := EnterNames(pwd, cur, pathname, pos, n, d);
    EnterLast(pwd, cur, pathname, pos, n, d);
    HoldsText(pwd, Resolve(dir, old(pathname[..n])));
  }

  lemma HoldsText(pwd: array<char>, dir: seq<string>)
    requires Holds(pwd, dir)
    ensures 1 + |Flat(dir)| < pwd.Length && pwd[1..1 + |Flat(dir)|] == Flat(dir) && pwd[1 + |Flat(dir)|] == NUL
  {}
}

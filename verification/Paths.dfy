/** Creating the directories of a path in place, and copying a file chunk by chunk (src/util.c). */
module Paths {
  import opened Bytes
  import opened Wrappers

  const SUCCESS: int := 0
  const FAILED: int := -1
  const SLASH: byte := '/' as int
  const BUFFER: nat := 512
  const CHUNK: nat := 0x20000

  // ---------------------------------------------------------------- paths

  /** The index of the last slash, or -1: strrchr. */
  function LastSlash(s: Text): (i: int)
    ensures -1 <= i < |s|
    ensures i >= 0 ==> s[i] == SLASH
    ensures forall j :: i < j < |s| ==> s[j] != SLASH
  {
    if s == [] then -1
    else if s[|s| - 1] == SLASH then |s| - 1
    else LastSlash(s[..|s| - 1])
  }

  /** What of a path the function creates: what fits the buffer, up to its last slash if it has one. */
  function Target(dir: Text): Text {
    var s := if |dir| < BUFFER then dir else dir[..BUFFER - 1];
    if LastSlash(s) >= 0 then s[..LastSlash(s)] else s
  }

  function Start(p: Text): (i: nat)
    ensures i <= |p|
  {
    if p != [] && p[0] == SLASH then 1 else 0
  }

  /** The path is cut at i: before a slash, or at its end when a component ends there. */
  predicate Cut(p: Text, i: nat) {
    && Start(p) <= i <= |p|
    && if i < |p| then p[i] == SLASH else i > Start(p) && p[i - 1] != SLASH
  }

  /** The directory a path names: empty components and a trailing slash say nothing, so "a//b/" names
      "a/b". The root, and the empty path, have the empty name. */
  function Name(q: Text): Text {
    if q == [] then []
    else
      var init, c := q[..|q| - 1], q[|q| - 1];
      if c == SLASH then Name(init)
      else if init != [] && init[|init| - 1] == SLASH then Name(init) + [SLASH, c]
      else Name(init) + [c]
  }

  /** The directory that holds the named one; empty for one in the root or the working directory. */
  function Parent(name: Text): Text {
    if LastSlash(name) >= 0 then name[..LastSlash(name)] else []
  }

  predicate Exists(existing: set<Text>, name: Text) {
    name == [] || name in existing
  }

  lemma {:induction false} LastSlashIs(s: Text, k: nat)
    requires k < |s| && s[k] == SLASH && forall j :: k < j < |s| ==> s[j] != SLASH
    ensures LastSlash(s) == k
  {
  }

  lemma {:induction false} NameWithoutSlash(q: Text)
    requires SLASH !in q
    ensures Name(q) == q
  {
    if q != [] {
      NameWithoutSlash(q[..|q| - 1]);
    }
  }

  lemma {:induction false} AppendLast(a: Text, b: Text, c: byte)
    ensures a + (b + [c]) == (a + b) + [c]
  {
  }

  /** The last component stays as it is, behind the name of what precedes its slash. */
  lemma {:induction false} NameOfLast(q: Text, j: nat)
    requires j + 1 < |q| && q[j] == SLASH && forall k :: j < k < |q| ==> q[k] != SLASH
    ensures Name(q) == Name(q[..j]) + [SLASH] + q[j + 1..]
    decreases |q|
  {
    var init, c, front := q[..|q| - 1], q[|q| - 1], q[..j];
    if j + 2 < |q| {
      var tail := init[j + 1..];
      assert init[..j] == front && init[j] == SLASH && init[|init| - 1] != SLASH;
      NameOfLast(init, j);
      assert q[j + 1..] == tail + [c];
      AppendLast(Name(front) + [SLASH], tail, c);
    } else {
      assert init[|init| - 1] == SLASH && init[..|init| - 1] == front;
      assert Name(init) == Name(front);
      assert q[j + 1..] == [c];
      AppendLast(Name(front), [SLASH], c);
    }
  }

  /** The parent of what a path names is named by a shorter prefix of it that ends before a slash. */
  lemma {:induction false} ParentIsPrefix(q: Text) returns (j: nat)
    ensures Parent(Name(q)) == [] || (0 < j < |q| && q[j] == SLASH && Parent(Name(q)) == Name(q[..j]))
  {
    j := 0;
    if q == [] {
      return;
    }
    var init, last := q[..|q| - 1], LastSlash(q);
    if q[|q| - 1] == SLASH {
      j := ParentIsPrefix(init);
      if 0 < j < |init| {
        assert init[..j] == q[..j];
      }
    } else if last < 0 {
      NameWithoutSlash(q);
    } else {
      j := last;
      NameOfLast(q, j);
      LastSlashIs(Name(q), |Name(q[..j])|);
    }
  }

  /** A path without empty components names itself ... */
  lemma {:induction false} PlainName(q: Text)
    requires forall i :: 0 <= i < |q| && q[i] == SLASH ==> i + 1 < |q| && q[i + 1] != SLASH
    ensures Name(q) == q
  {
    if q != [] {
      var init, c := q[..|q| - 1], q[|q| - 1];
      if init != [] && init[|init| - 1] == SLASH {
        var front := init[..|init| - 1];
        PlainName(front);
        assert q == front + [SLASH, c];
      } else {
        PlainName(init);
        assert q == init + [c];
      }
    }
  }

  lemma {:induction false} NameSnoc(q: Text, c: byte)
    ensures Name(q + [c]) ==
              if c == SLASH then Name(q)
              else if q != [] && q[|q| - 1] == SLASH then Name(q) + [SLASH, c]
              else Name(q) + [c]
  {
    assert (q + [c])[..|q|] == q;
  }

  /** ... two adjacent slashes name what one names ... */
  lemma {:induction false} DoubleSlash(a: Text, b: Text)
    ensures Name(a + [SLASH, SLASH] + b) == Name(a + [SLASH] + b)
  {
    if b == [] {
      NameSnoc(a + [SLASH], SLASH);
      assert a + [SLASH, SLASH] + b == a + [SLASH] + [SLASH] && a + [SLASH] + b == a + [SLASH];
    } else {
      var front, c := b[..|b| - 1], b[|b| - 1];
      DoubleSlash(a, front);
      NameSnoc(a + [SLASH, SLASH] + front, c);
      NameSnoc(a + [SLASH] + front, c);
      assert a + [SLASH, SLASH] + b == a + [SLASH, SLASH] + front + [c];
      assert a + [SLASH] + b == a + [SLASH] + front + [c];
    }
  }

  /** ... and a trailing slash names nothing. */
  lemma {:induction false} TrailingSlash(a: Text)
    ensures Name(a + [SLASH]) == Name(a)
  {
    NameSnoc(a, SLASH);
  }

  // ---------------------------------------------------------------- what the walk does

  /** mkdir of a missing directory. */
  ghost predicate Makes(existing: set<Text>, denied: set<Text>, name: Text) {
    name !in denied && Exists(existing, Parent(name))
  }

  datatype Outcome = Outcome(existing: set<Text>, ok: bool)

  /** The walk from index i on: every missing prefix is made, until one cannot be. */
  ghost function Walk(existing: set<Text>, denied: set<Text>, p: Text, i: nat): Outcome
    requires i <= |p| + 1
    decreases |p| + 1 - i
  {
    if i == |p| + 1 then Outcome(existing, true)
    else if !Cut(p, i) || Exists(existing, Name(p[..i])) then Walk(existing, denied, p, i + 1)
    else if Makes(existing, denied, Name(p[..i])) then Walk(existing + {Name(p[..i])}, denied, p, i + 1)
    else Outcome(existing, false)
  }

  ghost predicate PrefixesExist(existing: set<Text>, p: Text, i: nat) {
    forall k :: 0 <= k < i && Cut(p, k) ==> Exists(existing, Name(p[..k]))
  }

  /** The parent of a cut prefix is named by an earlier cut prefix, so it is there when it is needed. */
  lemma {:induction false} ParentIsReady(existing: set<Text>, p: Text, i: nat)
    requires Cut(p, i) && PrefixesExist(existing, p, i)
    ensures Exists(existing, Parent(Name(p[..i])))
  {
    var q := p[..i];
    var j := ParentIsPrefix(q);
    if Parent(Name(q)) != [] {
      assert q[j] == p[j] == SLASH;
      assert Cut(p, j);
      assert q[..j] == p[..j];
    }
  }

  /** Success exactly when no missing prefix is denied, and then every prefix exists. */
  lemma {:induction false} WalkSucceedsExactly(existing: set<Text>, denied: set<Text>, p: Text, i: nat)
    requires i <= |p| + 1 && PrefixesExist(existing, p, i)
    ensures existing <= Walk(existing, denied, p, i).existing
    ensures Walk(existing, denied, p, i).ok ==> PrefixesExist(Walk(existing, denied, p, i).existing, p, |p| + 1)
    ensures Walk(existing, denied, p, i).ok <==>
              forall k :: i <= k <= |p| && Cut(p, k) && !Exists(existing, Name(p[..k])) ==> Name(p[..k]) !in denied
    decreases |p| + 1 - i
  {
    if i <= |p| {
      var next, name := i + 1, Name(p[..i]);
      if !Cut(p, i) || Exists(existing, name) {
        WalkSucceedsExactly(existing, denied, p, next);
      } else {
        ParentIsReady(existing, p, i);
        if Makes(existing, denied, name) {
          WalkSucceedsExactly(existing + {name}, denied, p, next);
        }
      }
    }
  }

  /** A walk over prefixes that all exist makes nothing. */
  lemma {:induction false} WalkOverExisting(existing: set<Text>, denied: set<Text>, p: Text, i: nat)
    requires i <= |p| + 1 && PrefixesExist(existing, p, |p| + 1)
    ensures Walk(existing, denied, p, i) == Outcome(existing, true)
    decreases |p| + 1 - i
  {
    if i <= |p| {
      WalkOverExisting(existing, denied, p, i + 1);
    }
  }

  /** Nothing else is made than what prefixes of the path name. */
  lemma {:induction false} WalkMakesPrefixes(existing: set<Text>, denied: set<Text>, p: Text, i: nat, q: Text)
    requires i <= |p| + 1 && q in Walk(existing, denied, p, i).existing && q !in existing
    ensures exists k :: 0 < k <= |p| && (k == |p| || p[k] == SLASH) && q == Name(p[..k])
    decreases |p| + 1 - i
  {
    if i <= |p| {
      var next := i + 1;
      if !Cut(p, i) || Exists(existing, Name(p[..i])) {
        WalkMakesPrefixes(existing, denied, p, next, q);
      } else if Makes(existing, denied, Name(p[..i])) && q != Name(p[..i]) {
        WalkMakesPrefixes(existing + {Name(p[..i])}, denied, p, next, q);
      } else {
        assert 0 < i <= |p| && (i == |p| || p[i] == SLASH) && q == Name(p[..i]);
      }
    }
  }

  /** The directories of all prefixes that end before a slash or at the end exist, if those of the cuts do. */
  lemma {:induction false} AllPrefixesExist(existing: set<Text>, p: Text, k: nat)
    requires PrefixesExist(existing, p, |p| + 1) && 0 < k <= |p| && (k == |p| || p[k] == SLASH)
    ensures Exists(existing, Name(p[..k]))
    decreases k
  {
    if !Cut(p, k) {
      var m := k - 1;
      assert p[..k][..m] == p[..m];
      if p[m] == SLASH && m > 0 {
        AllPrefixesExist(existing, p, m);
      }
    }
  }

  lemma {:induction false} TargetIs(dir: Text, s: Text, parent: Text, last: Text)
    requires s == (if |dir| < 512 then dir else dir[..511]) && SLASH !in last
    requires s == parent + [SLASH] + last || (parent == last == s)
    ensures Target(dir) == parent
  {
    if s == parent + [SLASH] + last {
      LastSlashIs(s, |parent|);
    }
  }

  /** Which directories a call makes. Of the path, cut to 511 characters if it is longer, the part before
      the last slash counts, or all of it without one: with success the directories of all its prefixes
      exist, and no call makes any other. */
  lemma {:induction false} ParentsAreMade(
    existing: set<Text>, denied: set<Text>, dir: Text, s: Text, parent: Text, last: Text)
    requires s == (if |dir| < 512 then dir else dir[..511]) && SLASH !in last
    requires s == parent + [SLASH] + last || (parent == last == s)
    ensures var out := Walk(existing, denied, Target(dir), Start(Target(dir)));
            && (out.ok ==> forall k :: 0 < k <= |parent| && (k == |parent| || parent[k] == SLASH) ==>
                  Exists(out.existing, Name(parent[..k])))
            && forall q :: q in out.existing && q !in existing ==>
                 exists k :: 0 < k <= |parent| && (k == |parent| || parent[k] == SLASH) && q == Name(parent[..k])
  {
    TargetIs(dir, s, parent, last);
    var out := Walk(existing, denied, parent, Start(parent));
    WalkSucceedsExactly(existing, denied, parent, Start(parent));
    if out.ok {
      forall k: nat | 0 < k <= |parent| && (k == |parent| || parent[k] == SLASH)
        ensures Exists(out.existing, Name(parent[..k]))
      {
        AllPrefixesExist(out.existing, parent, k);
      }
    }
    forall q | q in out.existing && q !in existing
      ensures exists k :: 0 < k <= |parent| && (k == |parent| || parent[k] == SLASH) && q == Name(parent[..k])
    {
      WalkMakesPrefixes(existing, denied, parent, Start(parent), q);
    }
  }

  /** A second call with the same path creates nothing and succeeds. */
  lemma {:induction false} SecondWalkMakesNothing(existing: set<Text>, denied: set<Text>, p: Text)
    requires Walk(existing, denied, p, Start(p)).ok
    ensures var once := Walk(existing, denied, p, Start(p)).existing;
            Walk(once, denied, p, Start(p)) == Outcome(once, true)
  {
    WalkSucceedsExactly(existing, denied, p, Start(p));
    WalkOverExisting(Walk(existing, denied, p, Start(p)).existing, denied, p, Start(p));
  }

  /** Nothing happens between two cuts. */
  lemma {:induction false} WalkSkips(existing: set<Text>, denied: set<Text>, p: Text, i: nat, j: nat)
    requires i <= j <= |p| + 1 && forall k :: i <= k < j ==> !Cut(p, k)
    ensures Walk(existing, denied, p, i) == Walk(existing, denied, p, j)
    decreases j - i
  {
    if i < j {
      WalkSkips(existing, denied, p, i + 1, j);
    }
  }

  // ---------------------------------------------------------------- the walk in its buffer

  /** A call of mkdir, and whether the parent was there when it was issued. */
  datatype Call = Call(path: Text, parentThere: bool)

  class FileSystem {
    var existing: set<Text>
    const denied: set<Text>
    ghost var calls: seq<Call>

    constructor (existing: set<Text>, denied: set<Text>)
      ensures this.existing == existing && this.denied == denied && calls == []
    {
      this.existing, this.denied, calls := existing, denied, [];
    }

    method Mkdir(q: Text) returns (ok: bool)
      requires !Exists(existing, Name(q))
      modifies this
      ensures ok == Makes(old(existing), denied, Name(q))
      ensures existing == if ok then old(existing) + {Name(q)} else old(existing)
      ensures calls == old(calls) + [Call(q, Exists(old(existing), Parent(Name(q))))]
    {
      ok := Name(q) !in denied && Exists(existing, Parent(Name(q)));
      calls := calls + [Call(q, Exists(existing, Parent(Name(q))))];
      if ok {
        existing := existing + {Name(q)};
      }
    }
  }

  /** The buffer holds the string p. */
  ghost predicate Holds(path: array<byte>, p: Text)
    reads path
  {
    0 !in p && |p| < path.Length && path[..|p| + 1] == p + [0]
  }

  ghost function WithPath(existing: set<Text>, q: Text): set<Text> {
    if Exists(existing, Name(q)) then existing else existing + {Name(q)}
  }

  /** One cut: the path is ended at i, checked, made if missing, and the character put back. */
  method CutAndMake(path: array<byte>, ghost p: Text, i: nat, fs: FileSystem) returns (ok: bool)
    requires Holds(path, p) && i <= |p|
    modifies path, fs
    ensures ok ==> Holds(path, p)
    ensures var there, name := old(fs.existing), Name(p[..i]);
            && ok == (Exists(there, name) || Makes(there, fs.denied, name))
            && fs.existing == (if ok then WithPath(there, p[..i]) else there)
            && fs.calls == if Exists(there, name) then old(fs.calls)
                           else old(fs.calls) + [Call(p[..i], Exists(there, Parent(name)))]
  {
    var last := path[i];
    assert last == (p + [0])[i];
    path[i] := 0;
    var shown := CString(path[..], 0);
    assert shown == p[..i] by {
      assert path[..][0..0 + i + 1] == p[..i] + [0];
      CStringAt(path[..], 0, p[..i]);
    }
    ok := true;
    if !Exists(fs.existing, Name(shown)) {
      ok := fs.Mkdir(shown);
      if !ok {
        return;
      }
    }
    path[i] := last;
  }

  /** The scratch copy: as much of the path as fits, cut before its last slash. */
  method Prepare(dir: Text) returns (path: array<byte>, ghost p: Text)
    requires 0 !in dir
    ensures fresh(path) && p == Target(dir) && Holds(path, p)
  {
    path := new byte[BUFFER];
    var s := if |dir| < BUFFER then dir else dir[..BUFFER - 1];
    CopyInto(path, 0, s + [0]);
    p := s;
    var slash := LastSlash(s);
    if slash >= 0 {
      path[slash] := 0;
      p := s[..slash];
    }
  }

  lemma {:induction false} CutStep(existing: set<Text>, denied: set<Text>, p: Text, from: nat, i: nat)
    requires from <= i && Cut(p, i) && forall k :: from <= k < i ==> !Cut(p, k)
    ensures var next := i + 1;
            Walk(existing, denied, p, from) ==
              if Exists(existing, Name(p[..i])) || Makes(existing, denied, Name(p[..i]))
              then Walk(WithPath(existing, p[..i]), denied, p, next) else Outcome(existing, false)
  {
    WalkSkips(existing, denied, p, from, i);
  }

  /** At a cut the parent is there, and after it one more prefix. */
  lemma {:induction false} CutPrefixes(existing: set<Text>, p: Text, from: nat, i: nat)
    requires from <= i && Cut(p, i) && PrefixesExist(existing, p, from) && forall k :: from <= k < i ==> !Cut(p, k)
    ensures Exists(existing, Parent(Name(p[..i])))
    ensures PrefixesExist(WithPath(existing, p[..i]), p, i + 1)
  {
    assert PrefixesExist(existing, p, i);
    ParentIsReady(existing, p, i);
  }

  ghost predicate AllReady(calls: seq<Call>, from: nat) {
    forall k :: from <= k < |calls| ==> calls[k].parentThere
  }

  lemma {:induction false} HeldByte(path: array<byte>, p: Text, i: nat)
    requires Holds(path, p) && i <= |p|
    ensures path[i] == (p + [0])[i] && (path[i] == 0 <==> i == |p|)
  {
  }

  /** The inner loop: on to the next slash or the end. */
  method NextCut(path: array<byte>, ghost p: Text, from: nat) returns (ptr: nat)
    requires Holds(path, p) && Start(p) <= from < |p|
    requires from == Start(p) || p[from - 1] == SLASH
    ensures from <= ptr <= |p| && Cut(p, ptr) && forall k :: from <= k < ptr ==> !Cut(p, k)
  {
    ptr := from;
    HeldByte(path, p, ptr);
    while path[ptr] != 0 && path[ptr] != SLASH
      invariant from <= ptr <= |p| && path[ptr] == (p + [0])[ptr]
      invariant forall k :: from <= k < ptr ==> p[k] != SLASH
      decreases |p| - ptr
    {
      HeldByte(path, p, ptr);
      ptr := ptr + 1;
      HeldByte(path, p, ptr);
    }
    HeldByte(path, p, ptr);
  }

  /** One round of the loop: on to the next cut, and what is done there. */
  method WalkCut(path: array<byte>, ghost p: Text, ptr: nat, fs: FileSystem)
    returns (ok: bool, next: nat, last: byte)
    requires Holds(path, p) && Start(p) <= ptr < |p| && (ptr == Start(p) || p[ptr - 1] == SLASH)
    requires PrefixesExist(fs.existing, p, ptr)
    modifies path, fs
    ensures ptr <= next <= |p| && Cut(p, next) && last == (p + [0])[next]
    ensures ok ==> Holds(path, p) && PrefixesExist(fs.existing, p, next + 1)
    ensures Walk(old(fs.existing), fs.denied, p, ptr) ==
              if ok then Walk(fs.existing, fs.denied, p, next + 1) else Outcome(fs.existing, false)
    ensures fs.calls == old(fs.calls) || fs.calls == old(fs.calls) + [Call(p[..next], true)]
  {
    next := NextCut(path, p, ptr);
    HeldByte(path, p, next);
    CutStep(fs.existing, fs.denied, p, ptr, next);
    CutPrefixes(fs.existing, p, ptr, next);
    last := path[next];
    ok := CutAndMake(path, p, next, fs);
  }

  /** The loop of mkdirs. */
  method WalkBuffer(path: array<byte>, ghost p: Text, fs: FileSystem) returns (ret: int)
    requires Holds(path, p) && p != [] && path[0] == p[0]
    modifies path, fs
    ensures ret == SUCCESS || ret == FAILED
    ensures Walk(old(fs.existing), fs.denied, p, Start(p)) == Outcome(fs.existing, ret == SUCCESS)
    ensures AllReady(fs.calls, |old(fs.calls)|)
  {
    ghost var start := Walk(fs.existing, fs.denied, p, Start(p));
    var ptr := 0;
    if path[ptr] == SLASH {
      ptr := ptr + 1;
    }
    HeldByte(path, p, ptr);
    while path[ptr] != 0
      invariant Holds(path, p) && Start(p) <= ptr <= |p| && path[ptr] == (p + [0])[ptr]
      invariant ptr == Start(p) || p[ptr - 1] == SLASH
      invariant Walk(fs.existing, fs.denied, p, ptr) == start && PrefixesExist(fs.existing, p, ptr)
      invariant |old(fs.calls)| <= |fs.calls| && AllReady(fs.calls, |old(fs.calls)|)
      decreases |p| - ptr
    {
      var ok, next, last := WalkCut(path, p, ptr, fs);
      if !ok {
        return FAILED;
      }
      if last == 0 {
        return SUCCESS;
      }
      ptr := next + 1;
      HeldByte(path, p, ptr);
    }
    assert ptr == |p| && !Cut(p, ptr);
    ret := SUCCESS;
  }

  /** mkdirs: the walk over the path, done in the scratch buffer. */
  method Mkdirs(dir: Option<Text>, fs: FileSystem) returns (ret: int)
    requires dir.Some? ==> 0 !in dir.value
    modifies fs
    ensures ret == 0 || ret == -1
    ensures dir.None? ==> ret == -1 && fs.existing == old(fs.existing) && fs.calls == old(fs.calls)
    ensures dir.Some? ==>
              var p := Target(dir.value);
              Walk(old(fs.existing), fs.denied, p, Start(p)) == Outcome(fs.existing, ret == 0)
    ensures dir.Some? ==> AllReady(fs.calls, |old(fs.calls)|)
  {
    if dir.None? {
      return FAILED;
    }
    var path, p := Prepare(dir.value);
    if path[0] == 0 {
      assert p == [] by {
        assert path[..|p| + 1][0] == (p + [0])[0];
      }
      return SUCCESS;
    }
    assert path[..|p| + 1][0] == (p + [0])[0];
    ret := WalkBuffer(path, p, fs);
  }

  // ---------------------------------------------------------------- copying a file

  function Min(a: nat, b: nat): nat {
    if a < b then a else b
  }

  /** copy_file once both files are open: the output takes at most `room` bytes. What is written is
      always a prefix of the input, and success is reported exactly when it is all of it. */
  method CopyFile(input: seq<byte>, room: nat) returns (ret: int, output: seq<byte>)
    ensures ret == 0 || ret == -1
    ensures output <= input && |output| == if |input| <= room then |input| else room
    ensures ret == 0 <==> output == input
  {
    output := [];
    var pos, read, written := 0, CHUNK, CHUNK;
    while read == written && read == CHUNK
      invariant pos <= |input| && |output| <= pos && output == input[..|output|] && |output| <= room
      invariant read == written ==> |output| == pos
      invariant read != written ==> |output| == room < pos
      invariant read == written && read != CHUNK ==> pos == |input|
      decreases read == written && read == CHUNK, |input| - pos
    {
      read := Min(CHUNK, |input| - pos);
      written := Min(read, room - |output|);
      output := output + input[pos..pos + written];
      pos := pos + read;
    }
    ret := if read == written then SUCCESS else FAILED;
  }
}

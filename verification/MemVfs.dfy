/** The in-memory VFS file that holds the database (src/memvfs.c): an abstract file, the history of
    its bytes, and the growable buffer that refines it. */
module MemVfs {
  import opened Bytes
  import opened Wrappers

  // ---------------------------------------------------------------- the abstract file

  /** A call on an open file. `room` says whether a reallocation the call asks for succeeds. */
  datatype Op =
    | Write(off: nat, data: seq<byte>, room: bool)
    | Truncate(size: nat)
    | Read(off: nat, amount: nat)
    | FileSize

  /** Content, capacity, and how often the buffer was replaced by a larger one. */
  datatype State = State(content: seq<byte>, cap: nat, gen: nat)

  /** Size and capacity alone decide which calls succeed. */
  datatype Dims = Dims(sz: nat, cap: nat)

  predicate Accepted(d: Dims, op: Op) {
    match op
    case Write(off, data, room) => off + |data| <= d.cap || room
    case Truncate(size) => size <= d.cap
    case _ => true
  }

  function DimsStep(d: Dims, op: Op): Dims {
    if !Accepted(d, op) then d
    else
      match op
      case Write(off, data, _) =>
        var end := off + |data|;
        Dims(if end > d.sz then end else d.sz, if end > d.cap then end else d.cap)
      case Truncate(size) => d.(sz := size)
      case _ => d
  }

  /** Cut to n bytes, or extend to n with zeros. */
  function Resize(c: seq<byte>, n: nat): (r: seq<byte>)
    ensures |r| == n
    ensures forall k :: 0 <= k < n ==> r[k] == if k < |c| then c[k] else 0
  {
    seq(n, k requires 0 <= k < n => if k < |c| then c[k] else 0)
  }

  /** Zero-extend until the written range fits, then overlay it. */
  function Written(c: seq<byte>, off: nat, data: seq<byte>): (r: seq<byte>)
    ensures |r| == if off + |data| > |c| then off + |data| else |c|
  {
    Overlay(Resize(c, if off + |data| > |c| then off + |data| else |c|), off, data)
  }

  function DimsOf(s: State): Dims {
    Dims(|s.content|, s.cap)
  }

  function Step(s: State, op: Op): State {
    if !Accepted(DimsOf(s), op) then s
    else
      match op
      case Write(off, data, _) =>
        var end := off + |data|;
        State(Written(s.content, off, data), if end > s.cap then end else s.cap,
              if end > s.cap then s.gen + 1 else s.gen)
      case Truncate(size) => s.(content := Resize(s.content, size))
      case _ => s
  }

  /** The file after the first n calls. */
  ghost function RunTo(s: State, ops: seq<Op>, n: nat): State
    requires n <= |ops|
  {
    if n == 0 then s else Step(RunTo(s, ops, n - 1), ops[n - 1])
  }

  ghost function Run(s: State, ops: seq<Op>): State {
    RunTo(s, ops, |ops|)
  }

  ghost function DimsRun(d: Dims, ops: seq<Op>, n: nat): Dims
    requires n <= |ops|
  {
    if n == 0 then d else DimsStep(DimsRun(d, ops, n - 1), ops[n - 1])
  }

  /** Size of the file before call n. */
  ghost function SizeAt(d: Dims, ops: seq<Op>, n: nat): nat
    requires n <= |ops|
  {
    DimsRun(d, ops, n).sz
  }

  ghost predicate Succeeds(d: Dims, ops: seq<Op>, n: nat)
    requires n < |ops|
  {
    Accepted(DimsRun(d, ops, n), ops[n])
  }

  lemma {:induction false} RunToPrefix(s: State, a: seq<Op>, b: seq<Op>, n: nat)
    requires n <= |a|
    ensures RunTo(s, a + b, n) == RunTo(s, a, n)
  {
    if n > 0 {
      RunToPrefix(s, a, b, n - 1);
    }
  }

  lemma {:induction false} RunSnoc(s: State, ops: seq<Op>, op: Op)
    ensures Run(s, ops + [op]) == Step(Run(s, ops), op)
  {
    RunToPrefix(s, ops, [op], |ops|);
  }

  lemma {:induction false} RunDims(s: State, ops: seq<Op>, n: nat)
    requires n <= |ops|
    ensures DimsOf(RunTo(s, ops, n)) == DimsRun(DimsOf(s), ops, n)
  {
    if n > 0 {
      RunDims(s, ops, n - 1);
    }
  }

  // ---------------------------------------------------------------- byte history

  /** Call n is a successful write over byte k. */
  ghost predicate Wrote(d: Dims, ops: seq<Op>, n: nat, k: nat)
    requires n < |ops|
  {
    Succeeds(d, ops, n) && ops[n].Write? && ops[n].off <= k < ops[n].off + |ops[n].data|
  }

  /** Between a and b the size stays above k and no write touches byte k. */
  ghost predicate Quiet(d: Dims, ops: seq<Op>, a: nat, b: nat, k: nat)
    requires a <= b <= |ops|
  {
    && (forall i :: a <= i <= b ==> k < SizeAt(d, ops, i))
    && (forall i :: a <= i < b ==> !Wrote(d, ops, i, k))
  }

  lemma {:induction false} QuietKeeps(s: State, ops: seq<Op>, a: nat, b: nat, k: nat)
    requires a <= b <= |ops| && Quiet(DimsOf(s), ops, a, b, k)
    ensures k < |RunTo(s, ops, a).content| && k < |RunTo(s, ops, b).content|
    ensures RunTo(s, ops, b).content[k] == RunTo(s, ops, a).content[k]
    decreases b
  {
    var d := DimsOf(s);
    RunDims(s, ops, a);
    RunDims(s, ops, b);
    assert k < SizeAt(d, ops, a) && k < SizeAt(d, ops, b);
    if a < b {
      QuietKeeps(s, ops, a, b - 1, k);
      RunDims(s, ops, b - 1);
      assert !Wrote(d, ops, b - 1, k);
    }
  }

  /** Where byte k of the final content comes from. */
  datatype Origin = FromWrite(call: nat) | Hole(call: nat) | Opening

  /** What it means to come from there: since that call, or the opening, the byte was left alone. */
  ghost predicate ComesFrom(d: Dims, ops: seq<Op>, n: nat, k: nat, o: Origin)
    requires n <= |ops|
  {
    match o
    case FromWrite(j) => j < n && Wrote(d, ops, j, k) && Quiet(d, ops, j + 1, n, k)
    case Hole(j) => j < n && SizeAt(d, ops, j) <= k && !Wrote(d, ops, j, k) && Quiet(d, ops, j + 1, n, k)
    case Opening => k < d.sz && Quiet(d, ops, 0, n, k)
  }

  /** The last successful write over byte k since the size was last at most k; else the last moment
      the size was at most k; else the opening content. */
  ghost function OriginOf(d: Dims, ops: seq<Op>, n: nat, k: nat): (o: Origin)
    requires n <= |ops| && k < SizeAt(d, ops, n)
    ensures ComesFrom(d, ops, n, k, o)
  {
    if n == 0 then Opening
    else if Wrote(d, ops, n - 1, k) then FromWrite(n - 1)
    else if SizeAt(d, ops, n - 1) <= k then Hole(n - 1)
    else OriginOf(d, ops, n - 1, k)
  }

  lemma {:induction false} OriginIsLast(d: Dims, ops: seq<Op>, n: nat, k: nat, o: Origin, i: nat)
    requires n <= |ops| && ComesFrom(d, ops, n, k, o)
    requires i < n && (Wrote(d, ops, i, k) || SizeAt(d, ops, i) <= k)
    ensures match o
            case FromWrite(j) => i <= j
            case Hole(j) => i <= j
            case Opening => false
  {
    match o
    case FromWrite(j) => assert i <= j;
    case Hole(j) => assert i <= j;
    case Opening => assert false;
  }

  /** A byte in range comes from one origin and no other. */
  lemma {:induction false} OriginIsUnique(d: Dims, ops: seq<Op>, n: nat, k: nat, o: Origin)
    requires n <= |ops| && k < SizeAt(d, ops, n)
    ensures ComesFrom(d, ops, n, k, o) <==> o == OriginOf(d, ops, n, k)
  {
    var o' := OriginOf(d, ops, n, k);
    if ComesFrom(d, ops, n, k, o) {
      if !o.Opening? {
        OriginIsLast(d, ops, n, k, o', o.call);
      }
      if !o'.Opening? {
        OriginIsLast(d, ops, n, k, o, o'.call);
      }
    }
  }

  lemma {:induction false} WrittenByte(s: State, ops: seq<Op>, j: nat, n: nat, k: nat)
    requires j < n <= |ops| && Wrote(DimsOf(s), ops, j, k) && Quiet(DimsOf(s), ops, j + 1, n, k)
    ensures k < |RunTo(s, ops, n).content| && RunTo(s, ops, n).content[k] == ops[j].data[k - ops[j].off]
  {
    QuietKeeps(s, ops, j + 1, n, k);
    RunDims(s, ops, j);
  }

  lemma {:induction false} HoleByte(s: State, ops: seq<Op>, j: nat, n: nat, k: nat)
    requires j < n <= |ops| && SizeAt(DimsOf(s), ops, j) <= k && !Wrote(DimsOf(s), ops, j, k)
    requires Quiet(DimsOf(s), ops, j + 1, n, k)
    ensures k < |RunTo(s, ops, n).content| && RunTo(s, ops, n).content[k] == 0
  {
    QuietKeeps(s, ops, j + 1, n, k);
    RunDims(s, ops, j);
  }

  /** Byte history: every byte in range holds what its origin says, after any run. */
  lemma {:induction false} ByteHistory(s: State, ops: seq<Op>, k: nat)
    requires k < |Run(s, ops).content|
    ensures k < SizeAt(DimsOf(s), ops, |ops|)
    ensures Run(s, ops).content[k] ==
              match OriginOf(DimsOf(s), ops, |ops|, k)
              case FromWrite(j) => ops[j].data[k - ops[j].off]
              case Hole(_) => 0
              case Opening => s.content[k]
  {
    var n := |ops|;
    RunDims(s, ops, n);
    match OriginOf(DimsOf(s), ops, n, k)
    case FromWrite(j) =>
      WrittenByte(s, ops, j, n, k);
    case Hole(j) =>
      HoleByte(s, ops, j, n, k);
    case Opening =>
      QuietKeeps(s, ops, 0, n, k);
  }

  /** Once the size was at most k, the opening content has no say in byte k: the calls since decide. */
  lemma {:induction false} CutByteIsNew(d: Dims, ops: seq<Op>, j: nat, n: nat, k: nat)
    requires j <= n <= |ops| && SizeAt(d, ops, j) <= k < SizeAt(d, ops, n)
    ensures match OriginOf(d, ops, n, k)
            case FromWrite(i) => j <= i < n
            case Hole(i) => j <= i < n
            case Opening => false
    decreases n
  {
    if !Wrote(d, ops, n - 1, k) && SizeAt(d, ops, n - 1) > k {
      CutByteIsNew(d, ops, j, n - 1, k);
    }
  }

  /** What lies past a size is decided by the calls alone: two files that differ in content, but not
      in size and capacity, agree on every byte past that size after the same calls. */
  lemma {:induction false} PastSizeIsForgotten(s: State, s': State, ops: seq<Op>, n: nat)
    requires n <= |ops| && DimsOf(s) == DimsOf(s')
    ensures var r, r' := RunTo(s, ops, n), RunTo(s', ops, n);
            && DimsOf(r) == DimsOf(r')
            && forall k :: |s.content| <= k < |r.content| ==> r.content[k] == r'.content[k]
  {
    if n > 0 {
      PastSizeIsForgotten(s, s', ops, n - 1);
    }
  }

  // ---------------------------------------------------------------- capacity and buffer identity

  /** Capacity law: the size never passes the capacity, which is the largest of its opening value and
      the ends of the successful writes. */
  lemma {:induction false} CapacityLaw(d: Dims, ops: seq<Op>, n: nat)
    requires n <= |ops| && d.sz <= d.cap
    ensures DimsRun(d, ops, n).sz <= DimsRun(d, ops, n).cap && d.cap <= DimsRun(d, ops, n).cap
    ensures forall j :: 0 <= j < n && ops[j].Write? && Succeeds(d, ops, j) ==>
              ops[j].off + |ops[j].data| <= DimsRun(d, ops, n).cap
    ensures DimsRun(d, ops, n).cap == d.cap ||
            exists j :: 0 <= j < n && ops[j].Write? && Succeeds(d, ops, j) &&
                        ops[j].off + |ops[j].data| == DimsRun(d, ops, n).cap
  {
    if n > 0 {
      CapacityLaw(d, ops, n - 1);
      var before, after := DimsRun(d, ops, n - 1), DimsRun(d, ops, n);
      if after.cap != before.cap {
        assert ops[n - 1].Write? && Succeeds(d, ops, n - 1);
      } else if before.cap != d.cap {
        var j :| 0 <= j < n - 1 && ops[j].Write? && Succeeds(d, ops, j) && ops[j].off + |ops[j].data| == before.cap;
      }
    }
  }

  /** Call n writes, successfully, past the capacity of its moment. */
  ghost predicate Grows(d: Dims, ops: seq<Op>, n: nat)
    requires n < |ops|
  {
    Succeeds(d, ops, n) && ops[n].Write? && ops[n].off + |ops[n].data| > DimsRun(d, ops, n).cap
  }

  /** Between calls m and n the buffer keeps its identity exactly when no successful write of that
      time ends past the capacity. */
  lemma {:induction false} IdentityExactly(s: State, ops: seq<Op>, m: nat, n: nat)
    requires m <= n <= |ops|
    ensures RunTo(s, ops, n).gen >= RunTo(s, ops, m).gen
    ensures RunTo(s, ops, n).gen == RunTo(s, ops, m).gen <==> forall j :: m <= j < n ==> !Grows(DimsOf(s), ops, j)
    decreases n
  {
    if m < n {
      var k := n - 1;
      IdentityExactly(s, ops, m, k);
      RunDims(s, ops, k);
      assert Grows(DimsOf(s), ops, k) <==> RunTo(s, ops, n).gen == RunTo(s, ops, k).gen + 1;
    }
  }

  // ---------------------------------------------------------------- the concrete file

  datatype Rc = Ok | Full | CantOpen | Error

  /** The parameters of the opening URI, absent or present. */
  datatype Uri = Uri(ptr: array?<byte>, sz: Option<int>, max: Option<int>, freeOnClose: bool)

  /** The size the file opens with: 0 when none is given. */
  function SizeOf(uri: Uri): int {
    if uri.sz.Some? then uri.sz.value else 0
  }

  /** The capacity it opens with: its size when none is given. */
  function RoomOf(uri: Uri): int {
    if uri.max.Some? then uri.max.value else SizeOf(uri)
  }

  /** A buffer ready up to the written range becomes, by the copy, the written file. */
  lemma {:induction false} OverlayCompletes(before: seq<byte>, buf: seq<byte>, sz: nat, off: nat, data: seq<byte>)
    requires sz == (if off + |data| > |before| then off + |data| else |before|) && sz <= |buf|
    requires forall k :: 0 <= k < off ==> buf[k] == if k < |before| then before[k] else 0
    requires forall k :: off + |data| <= k < sz ==> buf[k] == before[k]
    ensures Overlay(buf, off, data)[..sz] == Written(before, off, data)
  {
  }

  /** The abstract step of a write, from what it does to content, capacity and generation. */
  lemma {:induction false} WriteStep(s: State, off: nat, data: seq<byte>, room: bool, t: State)
    requires |s.content| <= s.cap
    requires off + |data| <= s.cap || room ==>
               && t.content == Written(s.content, off, data)
               && t.cap == (if off + |data| > s.cap then off + |data| else s.cap)
               && t.gen == (if off + |data| > s.cap then s.gen + 1 else s.gen)
    requires off + |data| > s.cap && !room ==> t == s
    ensures t == Step(s, Op.Write(off, data, room))
  {
  }

  class MemFile {
    var sz: int
    var szMax: int
    var aData: array?<byte>
    var bFreeOnClose: bool

    ghost var start: State               // the file when it was opened
    ghost var trace: seq<Op>             // the calls since
    ghost var buffers: seq<array<byte>>  // the buffers it has owned, oldest first

    ghost function Content(): (c: seq<byte>)
      reads this, aData
      requires aData != null && 0 <= sz <= aData.Length
    {
      aData[..sz]
    }

    ghost function Abs(): State
      reads this, aData
      requires aData != null && 0 <= sz <= aData.Length && 0 <= szMax && buffers != []
    {
      State(Content(), szMax, |buffers| - 1)
    }

    ghost predicate Valid()
      reads this, aData
    {
      && aData != null
      && 0 <= sz <= szMax <= aData.Length
      && szMax < TWO_63
      && buffers != [] && buffers[|buffers| - 1] == aData
      && start.gen == 0 && |start.content| <= start.cap
      && Abs() == Run(start, trace)
    }

    constructor ()
    {
      sz, szMax, aData, bFreeOnClose := 0, 0, null, false;
      start, trace, buffers := State([], 0, 0), [], [];
    }

    /** memOpen: the caller's buffer becomes the file once its parameters pass the checks. */
    method Open(mainDb: bool, uri: Uri) returns (rc: Rc)
      requires uri.ptr != null && 0 <= SizeOf(uri) <= RoomOf(uri) ==>
                 RoomOf(uri) <= uri.ptr.Length && RoomOf(uri) < TWO_63
      modifies this
      ensures rc == if mainDb && uri.ptr != null && 0 <= SizeOf(uri) <= RoomOf(uri) then Ok else CantOpen
      ensures rc == Ok ==> Valid() && aData == uri.ptr && trace == []
      ensures rc == Ok ==> start == Abs() == State(uri.ptr[..SizeOf(uri)], RoomOf(uri), 0)
      ensures mainDb && uri.ptr != null && uri.sz.Some? && uri.sz.value >= 0 && uri.max.None? ==>
                rc == Ok && sz == szMax == uri.sz.value
      ensures mainDb && uri.ptr != null && uri.sz.None? && uri.max.None? ==> rc == Ok && sz == szMax == 0
      ensures mainDb && uri.ptr != null && uri.sz.Some? && uri.max.Some? && 0 <= uri.sz.value <= uri.max.value ==>
                rc == Ok && sz == uri.sz.value && szMax == uri.max.value
    {
      sz, szMax, aData, bFreeOnClose := 0, 0, null, false;
      if !mainDb {
        return CantOpen;
      }
      aData := uri.ptr;
      if aData == null {
        return CantOpen;
      }
      sz := if uri.sz.Some? then uri.sz.value else 0;
      if sz < 0 {
        return CantOpen;
      }
      szMax := if uri.max.Some? then uri.max.value else sz;
      if szMax < sz {
        return CantOpen;
      }
      bFreeOnClose := uri.freeOnClose;
      start, trace, buffers := State(aData[..sz], szMax, 0), [], [aData];
      rc := Ok;
    }

    /** realloc to n bytes: a buffer that starts with the old bytes and ends with any, or null. */
    static method Realloc(source: array<byte>, n: nat, room: bool) returns (ptr: array?<byte>)
      ensures ptr != null <==> room
      ensures ptr != null ==> fresh(ptr) && ptr.Length == n
      ensures ptr != null ==> forall k :: 0 <= k < n && k < source.Length ==> ptr[k] == source[k]
    {
      if !room {
        return null;
      }
      var p := new byte[n];
      CopyInto(p, 0, if source.Length <= n then source[..] else source[..n]);
      ptr := p;
    }

    /** The first half of memWrite, for a write past the end: get room for it, fill the hole before it. */
    method Extend(end: nat, iOfst: nat, room: bool) returns (rc: Rc)
      requires aData != null && 0 <= sz <= szMax <= aData.Length && buffers != []
      requires iOfst <= end && sz < end
      modifies this`sz, this`szMax, this`aData, this`buffers, aData
      ensures rc == if end <= old(szMax) || room then Ok else Full
      ensures rc == Full ==> aData == old(aData) && aData[..] == old(aData[..]) && sz == old(sz) && szMax == old(szMax)
      ensures rc == Ok ==> aData != null && sz == end <= szMax <= aData.Length
      ensures rc == Ok ==> szMax == if end > old(szMax) then end else old(szMax)
      ensures rc == Ok ==> forall k :: 0 <= k < iOfst ==> aData[k] == if k < old(sz) then old(aData[..])[k] else 0
      ensures rc == Full || end <= old(szMax) ==> aData == old(aData) && buffers == old(buffers)
      ensures rc == Ok && end > old(szMax) ==>
                fresh(aData) && buffers == old(buffers) + [aData] && aData.Length == szMax
    {
      if end > szMax {
        var ptr := Realloc(aData, end, room);
        if ptr == null {
          return Full;
        }
        szMax := end;
        aData := ptr;
        buffers := buffers + [ptr];
      }
      if iOfst > sz {
        ZeroRange(aData, sz, iOfst - sz);
      }
      sz := end;
      rc := Ok;
    }

    /** The bytes of memWrite: after a growth that succeeds or is not needed, the written file. */
    method Store(z: seq<byte>, iOfst: nat, room: bool) returns (rc: Rc)
      requires aData != null && 0 <= sz <= szMax <= aData.Length && buffers != []
      modifies this`sz, this`szMax, this`aData, this`buffers, aData
      ensures rc == if iOfst + |z| <= old(szMax) || room then Ok else Full
      ensures rc == Full ==> aData == old(aData) && aData[..] == old(aData[..]) && sz == old(sz) && szMax == old(szMax)
      ensures rc == Ok ==> aData != null && 0 <= sz <= szMax <= aData.Length
      ensures rc == Ok ==> szMax == if iOfst + |z| > old(szMax) then iOfst + |z| else old(szMax)
      ensures rc == Ok ==> Content() == Written(old(Content()), iOfst, z)
      ensures rc == Full || iOfst + |z| <= old(szMax) ==> aData == old(aData) && buffers == old(buffers)
      ensures rc == Ok && iOfst + |z| > old(szMax) ==>
                fresh(aData) && buffers == old(buffers) + [aData] && aData.Length == szMax
    {
      ghost var before := Content();
      if iOfst + |z| > sz {
        rc := Extend(iOfst + |z|, iOfst, room);
        if rc == Full {
          return Full;
        }
      }
      OverlayCompletes(before, aData[..], sz, iOfst, z);
      CopyInto(aData, iOfst, z);
      rc := Ok;
    }

    /** memWrite. Only a write past the capacity can fail, when the reallocation does. */
    method Write(z: seq<byte>, iOfst: nat, room: bool) returns (rc: Rc)
      requires Valid() && iOfst + |z| < TWO_63
      modifies this, aData
      ensures Valid() && start == old(start) && trace == old(trace) + [Op.Write(iOfst, z, room)]
      ensures Abs() == Step(old(Abs()), Op.Write(iOfst, z, room))
      ensures rc == if iOfst + |z| <= old(szMax) || room then Ok else Full
      ensures rc == Full ==> aData[..] == old(aData[..]) && sz == old(sz) && szMax == old(szMax)
      ensures rc == Full || iOfst + |z| <= old(szMax) ==> aData == old(aData) && buffers == old(buffers)
      ensures rc == Ok && iOfst + |z| > old(szMax) ==> fresh(aData) && buffers == old(buffers) + [aData]
      ensures old(aData.Length == szMax) ==> aData.Length == szMax
    {
      ghost var before, op := Abs(), Op.Write(iOfst, z, room);
      RunSnoc(start, trace, op);
      rc := Store(z, iOfst, room);
      trace := trace + [op];
      WriteStep(before, iOfst, z, room, Abs());
    }

    /** memTruncate. It never grows the buffer: an extension past the capacity is refused. */
    method Truncate(size: nat) returns (rc: Rc)
      requires Valid()
      modifies this, aData
      ensures Valid() && start == old(start) && trace == old(trace) + [Op.Truncate(size)]
      ensures Abs() == Step(old(Abs()), Op.Truncate(size))
      ensures rc == if size <= old(szMax) then Ok else Full
      ensures rc == Full ==> aData[..] == old(aData[..]) && sz == old(sz)
      ensures szMax == old(szMax) && aData == old(aData) && buffers == old(buffers)
    {
      ghost var op := Op.Truncate(size);
      RunSnoc(start, trace, op);
      trace := trace + [op];
      if size > sz {
        if size > szMax {
          return Full;
        }
        ZeroRange(aData, sz, size - sz);
      }
      sz := size;
      assert Content() == Resize(old(Content()), size);
      rc := Ok;
    }

    /** memRead. Inside the file it delivers exactly that slice of the content; past it, which nobody
        checks, whatever the allocation holds there. */
    method Read(zBuf: array<byte>, iAmt: nat, iOfst: nat) returns (rc: Rc)
      requires Valid() && iOfst + iAmt <= aData.Length && iAmt <= zBuf.Length && zBuf != aData
      modifies this`trace, zBuf
      ensures Valid() && trace == old(trace) + [Op.Read(iOfst, iAmt)] && Abs() == old(Abs())
      ensures rc == Ok && zBuf[..] == Overlay(old(zBuf[..]), 0, aData[iOfst..iOfst + iAmt])
      ensures forall k :: 0 <= k < iAmt && iOfst + k < sz ==> zBuf[k] == Content()[iOfst + k]
    {
      ghost var op := Op.Read(iOfst, iAmt);
      RunSnoc(start, trace, op);
      CopyInto(zBuf, 0, aData[iOfst..iOfst + iAmt]);
      trace := trace + [op];
      rc := Ok;
    }

    /** memFileSize: the length of the abstract file. */
    method Size() returns (rc: Rc, size: int)
      requires Valid()
      modifies this`trace
      ensures Valid() && trace == old(trace) + [FileSize] && Abs() == old(Abs())
      ensures rc == Ok && size == |Content()|
    {
      RunSnoc(start, trace, FileSize);
      trace := trace + [FileSize];
      rc, size := Ok, sz;
    }

    /** memFetch: a pointer into the buffer of the current generation, at which the file's content
        from the offset on is to be seen. */
    method Fetch(iOfst: nat) returns (rc: Rc, buf: array<byte>, at: nat)
      requires Valid()
      ensures rc == Ok && |buffers| == Abs().gen + 1 && buf == buffers[Abs().gen]
      ensures at == iOfst && (at <= sz ==> sz <= buf.Length && buf[at..sz] == Content()[at..])
    {
      rc, buf, at := Ok, aData, iOfst;
    }

    /** sqlite3_memvfs_dump, once the stream and the file are found: one fwrite of the content, of
        which the stream takes `room` bytes at most. The count fwrite returns is not looked at. */
    method Dump(named: bool, stream: bool, vfsFound: bool, room: nat) returns (rc: Rc, out: seq<byte>)
      requires Valid()
      ensures rc == if named && stream && vfsFound then Ok else Error
      ensures rc == Ok ==> out <= Content() && (out == Content() <==> sz <= room)
      ensures rc == Error ==> out == []
    {
      out := [];
      if !named || !stream || !vfsFound {
        return Error, out;
      }
      out := aData[..if sz <= room then sz else room];
      rc := Ok;
    }
  }

  /** Trace refinement, read off an object: whatever calls it went through, its bytes are those of
      the abstract run, each with its origin in the history. */
  lemma {:induction false} ReachableByte(f: MemFile, k: nat)
    requires f.Valid() && k < f.sz
    ensures f.Content() == Run(f.start, f.trace).content
    ensures k < SizeAt(DimsOf(f.start), f.trace, |f.trace|)
    ensures f.aData[k] ==
              match OriginOf(DimsOf(f.start), f.trace, |f.trace|, k)
              case FromWrite(j) => f.trace[j].data[k - f.trace[j].off]
              case Hole(_) => 0
              case Opening => f.start.content[k]
  {
    ByteHistory(f.start, f.trace, k);
  }

  /** A byte that was past the end of the file at some call, and that no later write covered, is zero
      once it is inside again: whatever the buffer kept of it never reappears. */
  lemma {:induction false} CutBytesNeverReappear(f: MemFile, j: nat, k: nat)
    requires f.Valid() && k < f.sz && j <= |f.trace| && SizeAt(DimsOf(f.start), f.trace, j) <= k
    requires forall i :: j <= i < |f.trace| ==> !Wrote(DimsOf(f.start), f.trace, i, k)
    ensures f.aData[k] == 0
  {
    ReachableByte(f, k);
    CutByteIsNew(DimsOf(f.start), f.trace, j, |f.trace|, k);
  }

  /** A view fetched after call n, which is the buffer of that moment's generation, still shows the
      abstract file when no call since then has grown it. */
  lemma {:induction false} FetchedViewIsCoherent(f: MemFile, n: nat, k: nat)
    requires f.Valid() && n <= |f.trace| && k < f.sz
    requires forall j :: n <= j < |f.trace| ==> !Grows(DimsOf(f.start), f.trace, j)
    ensures RunTo(f.start, f.trace, n).gen < |f.buffers|
    ensures var buf := f.buffers[RunTo(f.start, f.trace, n).gen];
            buf == f.aData && buf[k] == Run(f.start, f.trace).content[k]
  {
    IdentityExactly(f.start, f.trace, n, |f.trace|);
    assert f.Abs().gen == |f.buffers| - 1 && f.Content() == Run(f.start, f.trace).content;
  }

  /** The capacity law read off an object, and with it when an extending truncate is accepted. */
  lemma {:induction false} ReachableCapacity(f: MemFile)
    requires f.Valid()
    ensures f.sz <= f.szMax && f.start.cap <= f.szMax
    ensures forall j :: 0 <= j < |f.trace| && f.trace[j].Write? && Succeeds(DimsOf(f.start), f.trace, j) ==>
              f.trace[j].off + |f.trace[j].data| <= f.szMax
    ensures f.szMax == f.start.cap ||
            exists j :: 0 <= j < |f.trace| && f.trace[j].Write? && Succeeds(DimsOf(f.start), f.trace, j) &&
                        f.trace[j].off + |f.trace[j].data| == f.szMax
    ensures forall size: nat :: Accepted(DimsOf(f.Abs()), Truncate(size)) <==> size <= f.szMax
  {
    CapacityLaw(DimsOf(f.start), f.trace, |f.trace|);
    RunDims(f.start, f.trace, |f.trace|);
  }
}

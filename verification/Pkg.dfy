/** Finding param.sfo inside a PKG file (src/sfo.c): a big-endian table read with a file cursor. */
module Pkg {
  import opened Bytes
  import opened Wrappers

  const PKG_MAGIC: nat := 0x544E437F
  const SFO_ENTRY: nat := 0x1000

  // ---------------------------------------------------------------- byte order

  /** SWAP32: the masks and shifts of the macro, as quotients and remainders. */
  function Swap32(v: nat): (r: nat)
    requires v < TWO_32
    ensures r < TWO_32
  {
    v / 0x100_0000 + v / 0x1_0000 % 0x100 * 0x100 + v / 0x100 % 0x100 * 0x1_0000 + v % 0x100 * 0x100_0000
  }

  /** The macro's own operations agree with that reading. */
  lemma {:induction false} SwapMasks(v: bv32)
    ensures ((v & 0xFF000000) >> 24) | ((v & 0x00FF0000) >> 8) | ((v & 0x0000FF00) << 8) | ((v & 0x000000FF) << 24)
         == v / 0x100_0000 + v / 0x1_0000 % 0x100 * 0x100 + v / 0x100 % 0x100 * 0x1_0000 + v % 0x100 * 0x100_0000
  {
  }

  /** The word with these bytes, least significant first. */
  function Compose(b0: byte, b1: byte, b2: byte, b3: byte): (v: nat)
    ensures v < TWO_32
  {
    var i0: int, i1: int, i2: int, i3: int := b0, b1, b2, b3;
    i0 + 0x100 * i1 + 0x1_0000 * i2 + 0x100_0000 * i3
  }

  function BigEndian32(b: seq<byte>, at: nat): (v: nat)
    requires at + 4 <= |b|
    ensures v < TWO_32
  {
    Compose(b[at + 3], b[at + 2], b[at + 1], b[at])
  }

  lemma {:induction false} U32Bytes(b: seq<byte>, at: nat)
    requires at + 4 <= |b|
    ensures U32(b, at) == Compose(b[at], b[at + 1], b[at + 2], b[at + 3])
  {
    var w := b[at..at + 4];
    assert w[1..][1..] == w[2..] && w[2..][1..] == w[3..] && w[3..][1..] == [];
    assert Decode(w[3..]) == w[3];
    assert Decode(w[2..]) == w[2] + 256 * Decode(w[3..]);
    assert Decode(w[1..]) == w[1] + 256 * Decode(w[2..]);
  }

  lemma {:induction false} SwapDigits(b0: byte, b1: byte, b2: byte, b3: byte)
    ensures Swap32(Compose(b0, b1, b2, b3)) == Compose(b3, b2, b1, b0)
  {
    var v, i0: int, i1: int, i2: int, i3: int := Compose(b0, b1, b2, b3), b0, b1, b2, b3;
    DivModUnique(v, 0x100_0000, i3, i0 + 0x100 * i1 + 0x1_0000 * i2);
    DivModUnique(v, 0x1_0000, i2 + 0x100 * i3, i0 + 0x100 * i1);
    DivModUnique(v, 0x100, i1 + 0x100 * i2 + 0x1_0000 * i3, i0);
    DivModUnique(v / 0x1_0000, 0x100, i3, i2);
    DivModUnique(v / 0x100, 0x100, i2 + 0x100 * i3, i1);
  }

  /** SWAP32 after a little-endian read is a big-endian read. */
  lemma {:induction false} SwapReadsBigEndian(b: seq<byte>, at: nat)
    requires at + 4 <= |b|
    ensures Swap32(U32(b, at)) == BigEndian32(b, at)
  {
    U32Bytes(b, at);
    SwapDigits(b[at], b[at + 1], b[at + 2], b[at + 3]);
  }

  lemma {:induction false} Digits(v: nat) returns (b0: byte, b1: byte, b2: byte, b3: byte)
    requires v < TWO_32
    ensures v == Compose(b0, b1, b2, b3)
  {
    b0, b1, b2, b3 := v % 0x100, v / 0x100 % 0x100, v / 0x100 / 0x100 % 0x100, v / 0x100 / 0x100 / 0x100;
  }

  lemma {:induction false} SwapIsInvolution(v: nat)
    requires v < TWO_32
    ensures Swap32(Swap32(v)) == v
  {
    var b0, b1, b2, b3 := Digits(v);
    SwapDigits(b0, b1, b2, b3);
    SwapDigits(b3, b2, b1, b0);
  }

  lemma {:induction false} LowDigit(b: byte, rest: nat, v: nat)
    ensures b + 0x100 * rest == v <==> b == v % 0x100 && rest == v / 0x100
  {
  }

  lemma {:induction false} RawDigits(b0: byte, b1: byte, b2: byte, b3: byte)
    ensures Compose(b0, b1, b2, b3) == 1048576 <==> Compose(b3, b2, b1, b0) == SFO_ENTRY
  {
    var i0: int, i1: int, i2: int, i3: int := b0, b1, b2, b3;
    LowDigit(b0, i1 + 0x100 * i2 + 0x1_0000 * i3, 1048576);
    LowDigit(b1, i2 + 0x100 * i3, 0x1000);
    LowDigit(b2, i3, 0x10);
    LowDigit(b3, i2 + 0x100 * i1 + 0x1_0000 * i0, SFO_ENTRY);
    LowDigit(b2, i1 + 0x100 * i0, 0x10);
    LowDigit(b1, i0, 0);
  }

  /** The raw comparison with 1048576 tests the big-endian identifier 0x1000. */
  lemma {:induction false} RawIdentifier(b: seq<byte>, at: nat)
    requires at + 4 <= |b|
    ensures U32(b, at) == 1048576 <==> BigEndian32(b, at) == SFO_ENTRY
  {
    U32Bytes(b, at);
    RawDigits(b[at], b[at + 1], b[at + 2], b[at + 3]);
  }

  // ---------------------------------------------------------------- what the file says

  ghost predicate HasTable(d: seq<byte>) {
    |d| >= 0x1C && U32(d, 0) == PKG_MAGIC
  }

  ghost function EntryAt(d: seq<byte>, i: nat): nat
    requires HasTable(d)
  {
    BigEndian32(d, 0x18) + 32 * i
  }

  ghost predicate Readable(d: seq<byte>, i: nat)
    requires HasTable(d)
  {
    i < BigEndian32(d, 0x0C) && EntryAt(d, i) + 32 <= |d|
  }

  ghost predicate Names(d: seq<byte>, i: nat)
    requires HasTable(d)
  {
    Readable(d, i) && BigEndian32(d, EntryAt(d, i)) == SFO_ENTRY
  }

  ghost predicate First(d: seq<byte>, i: nat)
    requires HasTable(d)
  {
    Names(d, i) && forall j: nat :: j < i ==> !Names(d, j)
  }

  /** The range an entry names is not empty and lies inside the file. */
  ghost predicate Complete(d: seq<byte>, i: nat)
    requires HasTable(d) && Readable(d, i)
  {
    var at := EntryAt(d, i);
    BigEndian32(d, at + 20) > 0 && BigEndian32(d, at + 16) + BigEndian32(d, at + 20) <= |d|
  }

  ghost function Range(d: seq<byte>, i: nat): seq<byte>
    requires HasTable(d) && Readable(d, i) && Complete(d, i)
  {
    var at := EntryAt(d, i);
    d[BigEndian32(d, at + 16)..BigEndian32(d, at + 16) + BigEndian32(d, at + 20)]
  }

  /** The bytes of param.sfo: the range named by the first entry with its identifier. */
  ghost function Extracted(d: seq<byte>): (r: Option<seq<byte>>)
    ensures r.Some? <==> HasTable(d) && exists i: nat :: First(d, i) && Complete(d, i)
    ensures r.Some? ==> forall i: nat :: First(d, i) ==> Complete(d, i) && r.value == Range(d, i)
  {
    if HasTable(d) && exists i: nat :: First(d, i) && Complete(d, i) then
      var i: nat :| First(d, i) && Complete(d, i);
      assert forall j: nat :: First(d, j) ==> j == i by {
        forall j: nat | First(d, j) ensures j == i {
          assert Names(d, i) && Names(d, j);
        }
      }
      Some(Range(d, i))
    else None
  }

  // ---------------------------------------------------------------- in the file's own bytes

  lemma {:induction false} FirstDecides(d: seq<byte>, i: nat)
    requires HasTable(d) && First(d, i)
    ensures Extracted(d) == if Complete(d, i) then Some(Range(d, i)) else None
  {
  }

  /** A 32-bit field of the table: most significant byte first. */
  function Big(v: nat): (s: seq<byte>)
    requires v < TWO_32
    ensures |s| == 4
  {
    [v / 0x100_0000, v / 0x1_0000 % 0x100, v / 0x100 % 0x100, v % 0x100]
  }

  lemma {:induction false} BigIsRead(d: seq<byte>, at: nat, v: nat)
    requires at + 4 <= |d| && v < TWO_32
    ensures d[at..at + 4] == Big(v) <==> BigEndian32(d, at) == v
  {
    var b0: int, b1: int, b2: int, b3: int := d[at], d[at + 1], d[at + 2], d[at + 3];
    LowDigit(d[at + 3], b2 + 0x100 * b1 + 0x1_0000 * b0, v);
    LowDigit(d[at + 2], b1 + 0x100 * b0, v / 0x100);
    LowDigit(d[at + 1], b0, v / 0x100 / 0x100);
    assert v / 0x100 / 0x100 == v / 0x1_0000 && v / 0x1_0000 / 0x100 == v / 0x100_0000;
    assert d[at..at + 4] == [d[at], d[at + 1], d[at + 2], d[at + 3]];
  }

  /** The file begins with 7F 'C' 'N' 'T', and says at 0x0C and 0x18 how many entries its table has and
      where it is. */
  ghost predicate Announces(d: seq<byte>, count: nat, table: nat) {
    && count < TWO_32 && table < TWO_32 && |d| >= 0x1C && d[0..4] == [0x7F, 0x43, 0x4E, 0x54]
    && d[0x0C..0x10] == Big(count) && d[0x18..0x1C] == Big(table)
  }

  lemma {:induction false} MagicIsRead(d: seq<byte>)
    requires |d| >= 4
    ensures U32(d, 0) == PKG_MAGIC <==> d[0..4] == [0x7F, 0x43, 0x4E, 0x54]
  {
    var b0: int, b1: int, b2: int, b3: int := d[0], d[1], d[2], d[3];
    U32Bytes(d, 0);
    LowDigit(d[0], b1 + 0x100 * b2 + 0x1_0000 * b3, 0x544E437F);
    LowDigit(d[1], b2 + 0x100 * b3, 0x544E43);
    LowDigit(d[2], b3, 0x544E);
    assert d[0..4] == [d[0], d[1], d[2], d[3]];
  }

  lemma {:induction false} AnnouncedIsRead(d: seq<byte>, count: nat, table: nat)
    requires Announces(d, count, table)
    ensures HasTable(d) && BigEndian32(d, 0x0C) == count && BigEndian32(d, 0x18) == table
  {
    BigIsRead(d, 0x0C, count);
    BigIsRead(d, 0x18, table);
    MagicIsRead(d);
  }

  /** Whether the 32-byte entry i of the table has the identifier 0x1000. */
  ghost predicate IsSfoEntry(d: seq<byte>, table: nat, i: nat) {
    var at := table + 32 * i;
    at + 32 <= |d| && d[at..at + 4] == [0x00, 0x00, 0x10, 0x00]
  }

  lemma {:induction false} EntryIsRead(d: seq<byte>, count: nat, table: nat, i: nat)
    requires Announces(d, count, table)
    ensures HasTable(d) && (Names(d, i) <==> i < count && IsSfoEntry(d, table, i))
  {
    AnnouncedIsRead(d, count, table);
    var at := table + 32 * i;
    if at + 32 <= |d| {
      BigIsRead(d, at, 0x1000);
      assert Big(0x1000) == [0x00, 0x00, 0x10, 0x00];
    }
  }

  lemma {:induction false} FirstIsRead(d: seq<byte>, count: nat, table: nat, i: nat)
    requires Announces(d, count, table) && i < count && IsSfoEntry(d, table, i)
    requires forall j: nat :: j < i ==> !IsSfoEntry(d, table, j)
    ensures HasTable(d) && First(d, i)
  {
    forall j: nat | j <= i
      ensures HasTable(d) && (Names(d, j) <==> IsSfoEntry(d, table, j))
    {
      EntryIsRead(d, count, table, j);
    }
  }

  lemma {:induction false} RangeIsRead(d: seq<byte>, i: nat, at: nat, offset: nat, size: nat)
    requires HasTable(d) && Readable(d, i) && at == EntryAt(d, i) && offset < TWO_32 && size < TWO_32
    requires d[at + 16..at + 20] == Big(offset) && d[at + 20..at + 24] == Big(size)
    ensures Complete(d, i) <==> 0 < size && offset + size <= |d|
    ensures Complete(d, i) ==> Range(d, i) == d[offset..offset + size]
  {
    BigIsRead(d, at + 16, offset);
    BigIsRead(d, at + 20, size);
  }

  /** What is extracted, byte by byte: where the first entry with the identifier says that `size` bytes
      lie at `offset`, those, if there are any and all are there. */
  lemma {:induction false} PackedIsExtracted(d: seq<byte>, count: nat, table: nat, i: nat, offset: nat, size: nat)
    requires Announces(d, count, table) && i < count && IsSfoEntry(d, table, i)
    requires forall j: nat :: j < i ==> !IsSfoEntry(d, table, j)
    requires offset < TWO_32 && size < TWO_32
    requires var at := table + 32 * i; d[at + 16..at + 20] == Big(offset) && d[at + 20..at + 24] == Big(size)
    ensures Extracted(d) == if 0 < size && offset + size <= |d| then Some(d[offset..offset + size]) else None
  {
    FirstIsRead(d, count, table, i);
    AnnouncedIsRead(d, count, table);
    RangeIsRead(d, i, table + 32 * i, offset, size);
    FirstDecides(d, i);
  }

  /** Nothing is extracted from a file without the magic number, or without such an entry. */
  lemma {:induction false} NothingIsExtracted(d: seq<byte>)
    requires |d| >= 0x1C && d[0..4] == [0x7F, 0x43, 0x4E, 0x54] ==>
               exists count: nat, table: nat ::
                 Announces(d, count, table) && forall i: nat :: i < count ==> !IsSfoEntry(d, table, i)
    ensures Extracted(d) == None
  {
    if |d| >= 4 {
      MagicIsRead(d);
    }
    if |d| >= 0x1C && d[0..4] == [0x7F, 0x43, 0x4E, 0x54] {
      var count: nat, table: nat :|
        Announces(d, count, table) && forall i: nat :: i < count ==> !IsSfoEntry(d, table, i);
      forall i: nat
        ensures HasTable(d) && !Names(d, i)
      {
        EntryIsRead(d, count, table, i);
      }
    }
  }

  // ---------------------------------------------------------------- the scan

  /** An open file with its position: fseek and fread. */
  class Stream {
    const data: seq<byte>
    var pos: nat

    constructor (d: seq<byte>)
      ensures data == d && pos == 0
    {
      data, pos := d, 0;
    }

    /** fseek(file, to, SEEK_SET); a position past the end is allowed. */
    method Seek(to: nat)
      modifies this
      ensures pos == to
    {
      pos := to;
    }

    /** fread(buf, n, 1, file): the item, when it is not empty and all of it is there. */
    method Read(n: nat) returns (item: Option<seq<byte>>)
      modifies this
      ensures item.Some? <==> n > 0 && old(pos) + n <= |data|
      ensures item.Some? ==> item.value == data[old(pos)..old(pos) + n] && pos == old(pos) + n
    {
      if n == 0 {
        return None;
      }
      if pos + n > |data| {
        pos := if pos < |data| then |data| else pos;
        return None;
      }
      item := Some(data[pos..pos + n]);
      pos := pos + n;
    }
  }

  lemma {:induction false} WordOfSlice(d: seq<byte>, at: nat, n: nat, k: nat)
    requires at + n <= |d| && k + 4 <= n
    ensures U32(d[at..at + n], k) == U32(d, at + k)
  {
    U32Bytes(d[at..at + n], k);
    U32Bytes(d, at + k);
  }

  /** Past an entry that cannot be read no other one can; if none before has the identifier, none has. */
  lemma {:induction false} NothingNamed(d: seq<byte>, i: nat)
    requires HasTable(d) && !Readable(d, i) && forall j: nat :: j < i ==> !Names(d, j)
    ensures Extracted(d) == None
  {
    forall j: nat
      ensures !Names(d, j)
    {
    }
  }

  lemma {:induction false} EntryWords(d: seq<byte>, at: nat)
    requires at + 32 <= |d|
    ensures U32(d[at..at + 32], 0) == 1048576 <==> BigEndian32(d, at) == SFO_ENTRY
    ensures Swap32(U32(d[at..at + 32], 16)) == BigEndian32(d, at + 16)
    ensures Swap32(U32(d[at..at + 32], 20)) == BigEndian32(d, at + 20)
  {
    WordOfSlice(d, at, 32, 0);
    WordOfSlice(d, at, 32, 16);
    WordOfSlice(d, at, 32, 20);
    RawIdentifier(d, at);
    SwapReadsBigEndian(d, at + 16);
    SwapReadsBigEndian(d, at + 20);
  }

  /** The two header words, when the file starts with the magic number and is long enough. */
  method ReadHeader(f: Stream) returns (header: Option<(nat, nat)>)
    requires f.pos == 0
    modifies f
    ensures header.Some? <==> HasTable(f.data)
    ensures header.Some? ==> header.value == (BigEndian32(f.data, 0x0C), BigEndian32(f.data, 0x18))
  {
    var magic := f.Read(4);
    if magic.None? {
      return None;
    }
    WordOfSlice(f.data, 0, 4, 0);
    if U32(magic.value, 0) != PKG_MAGIC {
      return None;
    }
    f.Seek(0x00C);
    var count := f.Read(4);
    if count.None? {
      return None;
    }
    f.Seek(0x018);
    var table := f.Read(4);
    if table.None? {
      return None;
    }
    WordOfSlice(f.data, 0x00C, 4, 0);
    WordOfSlice(f.data, 0x018, 4, 0);
    SwapReadsBigEndian(f.data, 0x00C);
    SwapReadsBigEndian(f.data, 0x018);
    header := Some((Swap32(U32(count.value, 0)), Swap32(U32(table.value, 0))));
  }

  /** One table entry: whether it has the identifier, and the range it names. */
  method ReadTableEntry(f: Stream) returns (entry: Option<(bool, nat, nat)>)
    modifies f
    ensures entry.Some? <==> old(f.pos) + 32 <= |f.data|
    ensures entry.Some? ==>
              && f.pos == old(f.pos) + 32 && (entry.value.0 <==> BigEndian32(f.data, old(f.pos)) == SFO_ENTRY)
              && entry.value.1 == BigEndian32(f.data, old(f.pos) + 16)
              && entry.value.2 == BigEndian32(f.data, old(f.pos) + 20)
  {
    var words := f.Read(32);
    if words.None? {
      return None;
    }
    EntryWords(f.data, old(f.pos));
    var id, offset, size := U32(words.value, 0), U32(words.value, 16), U32(words.value, 20);
    entry := Some((id == 1048576, Swap32(offset), Swap32(size)));
  }

  method ReadRange(f: Stream, offset: nat, size: nat, mallocOk: bool) returns (r: Option<seq<byte>>)
    modifies f
    ensures r.Some? <==> mallocOk && size > 0 && offset + size <= |f.data|
    ensures r.Some? ==> r.value == f.data[offset..offset + size]
  {
    if !mallocOk {
      return None;
    }
    f.Seek(offset);
    r := f.Read(size);
  }

  /** The table scan: the cursor stands at entry i before round i. */
  method ScanTable(f: Stream, fileCount: nat, mallocOk: bool) returns (r: Option<seq<byte>>)
    requires HasTable(f.data) && fileCount == BigEndian32(f.data, 0x0C) && f.pos == BigEndian32(f.data, 0x18)
    modifies f
    ensures r == if mallocOk then Extracted(f.data) else None
  {
    ghost var d := f.data;
    for i := 0 to fileCount
      invariant f.pos == EntryAt(d, i)
      invariant forall j: nat :: j < i ==> !Names(d, j)
    {
      var entry := ReadTableEntry(f);
      if entry.None? {
        NothingNamed(d, i);
        return None;
      }
      if entry.value.0 {
        FirstDecides(d, i);
        r := ReadRange(f, entry.value.1, entry.value.2, mallocOk);
        return;
      }
    }
    NothingNamed(d, fileCount);
    r := None;
  }

  /** read_sfo_from_pkg: exactly the named range, or failure. */
  method ReadSfoFromPkg(file: Option<seq<byte>>, mallocOk: bool) returns (r: Option<seq<byte>>)
    ensures r == if file.Some? && mallocOk then Extracted(file.value) else None
  {
    if file.None? {
      return None;
    }
    var f := new Stream(file.value);
    var header := ReadHeader(f);
    if header.None? {
      return None;
    }
    f.Seek(header.value.1);
    r := ScanTable(f, header.value.0, mallocOk);
  }
}

/** The SFO parser and its parameter store (src/sfo.c): decoding, round trip, growth and lookup. */
module Sfo {
  import opened Bytes
  import opened Wrappers
  import Pkg

  const SFO_MAGIC: nat := 0x46535000
  const SFO_VERSION: nat := 0x0101
  const HEADER: nat := 20
  const INDEX: nat := 16
  const MAX_COUNT: nat := 0x4000_0000

  /** A stored parameter. The key is missing when strdup failed, which the parser does not check. */
  datatype Param = Param(
    key: Option<Text>, format: nat, length: nat, maxLength: nat, actualLength: nat, value: seq<byte>)

  // ---------------------------------------------------------------- decoding

  predicate HeaderOk(b: seq<byte>) {
    |b| >= HEADER && U32(b, 0) == SFO_MAGIC
  }

  function Count(b: seq<byte>): nat
    requires HeaderOk(b)
  {
    U32(b, 16)
  }

  function IndexAt(i: nat): nat {
    HEADER + INDEX * i
  }

  function KeyAt(b: seq<byte>, i: nat): nat
    requires HeaderOk(b) && IndexAt(i + 1) <= |b|
  {
    U32(b, 8) + U16(b, IndexAt(i))
  }

  function MaxLength(b: seq<byte>, i: nat): nat
    requires HeaderOk(b) && IndexAt(i + 1) <= |b|
  {
    U32(b, IndexAt(i) + 8)
  }

  function ValueAt(b: seq<byte>, i: nat): nat
    requires HeaderOk(b) && IndexAt(i + 1) <= |b|
  {
    U32(b, 12) + U32(b, IndexAt(i) + 12)
  }

  ghost predicate Terminated(b: seq<byte>, at: nat) {
    exists z :: at <= z < |b| && b[z] == 0
  }

  ghost predicate EntryInFile(b: seq<byte>, i: nat)
    requires HeaderOk(b) && IndexAt(i + 1) <= |b|
  {
    Terminated(b, KeyAt(b, i)) && ValueAt(b, i) + MaxLength(b, i) <= |b|
  }

  /** Every offset of the tables leads inside the file; the parser checks none of them. */
  ghost predicate WellFormed(b: seq<byte>) {
    HeaderOk(b) ==>
      IndexAt(Count(b)) <= |b| && forall i :: 0 <= i < Count(b) ==> EntryInFile(b, i)
  }

  function Little16(b: seq<byte>, at: nat): nat
    requires at + 2 <= |b|
  {
    var b0: int, b1: int := b[at], b[at + 1];
    b0 + 0x100 * b1
  }

  function Little32(b: seq<byte>, at: nat): nat
    requires at + 4 <= |b|
  {
    var b0: int, b1: int, b2: int, b3: int := b[at], b[at + 1], b[at + 2], b[at + 3];
    b0 + 0x100 * b1 + 0x1_0000 * b2 + 0x100_0000 * b3
  }

  lemma {:induction false} Word16Bytes(b: seq<byte>, at: nat)
    requires at + 2 <= |b|
    ensures U16(b, at) == Little16(b, at)
  {
    var w := b[at..at + 2];
    assert w[1..][1..] == [];
    assert Decode(w[1..]) == w[1];
  }

  lemma {:induction false} Word32Bytes(b: seq<byte>, at: nat)
    requires at + 4 <= |b|
    ensures U32(b, at) == Little32(b, at)
  {
    Pkg.U32Bytes(b, at);
  }

  lemma {:induction false} MagicBytes(b: seq<byte>)
    requires |b| >= 4
    ensures U32(b, 0) == SFO_MAGIC <==> b[0..4] == [0x00, 0x50, 0x53, 0x46]
  {
    var b0: int, b1: int, b2: int, b3: int := b[0], b[1], b[2], b[3];
    Word32Bytes(b, 0);
    Pkg.LowDigit(b[0], b1 + 0x100 * b2 + 0x1_0000 * b3, 0x46535000);
    Pkg.LowDigit(b[1], b2 + 0x100 * b3, 0x465350);
    Pkg.LowDigit(b[2], b3, 0x4653);
    assert b[0..4] == [b[0], b[1], b[2], b[3]];
  }

  function EntryAt(b: seq<byte>, i: nat): Param
    requires HeaderOk(b) && IndexAt(i + 1) <= |b| && EntryInFile(b, i)
  {
    var at, len := IndexAt(i), MaxLength(b, i);
    Param(Some(CString(b, KeyAt(b, i))), U16(b, at + 2), U32(b, at + 4), len, len,
          b[ValueAt(b, i)..ValueAt(b, i) + len])
  }

  /** The header in the file's own bytes: 00 'P' 'S' 'F', and the number of entries at 16. */
  lemma {:induction false} HeaderLayout(b: seq<byte>)
    requires |b| >= 20
    ensures HeaderOk(b) <==> b[0..4] == [0x00, 0x50, 0x53, 0x46]
    ensures HeaderOk(b) ==> Count(b) == Little32(b, 16)
  {
    MagicBytes(b);
    Word32Bytes(b, 16);
  }

  /** Entry i in the file's own bytes, 16 of the index: format, length and maximal length ... */
  lemma {:induction false} EntryLayout(b: seq<byte>, i: nat)
    requires HeaderOk(b) && IndexAt(i + 1) <= |b| && EntryInFile(b, i)
    ensures var at, p := 20 + 16 * i, EntryAt(b, i);
            && p.format == Little16(b, at + 2) && p.length == Little32(b, at + 4)
            && p.maxLength == p.actualLength == Little32(b, at + 8)
  {
    var at := IndexAt(i);
    Word16Bytes(b, at + 2);
    Word32Bytes(b, at + 4);
    Word32Bytes(b, at + 8);
  }

  /** ... and where its key, a C string, and its value lie: by the offsets at the two ends of the entry, in
      the tables that the words at 8 and 12 of the header point to. */
  lemma {:induction false} TablesLayout(b: seq<byte>, i: nat)
    requires HeaderOk(b) && IndexAt(i + 1) <= |b| && EntryInFile(b, i)
    ensures var at := 20 + 16 * i;
            && KeyAt(b, i) == Little32(b, 8) + Little16(b, at)
            && ValueAt(b, i) == Little32(b, 12) + Little32(b, at + 12)
    ensures EntryAt(b, i).key == Some(CString(b, KeyAt(b, i)))
    ensures var at, p := ValueAt(b, i), EntryAt(b, i);
            at + p.maxLength <= |b| && p.value == b[at..at + p.maxLength]
  {
    var at := IndexAt(i);
    Word32Bytes(b, 8);
    Word32Bytes(b, 12);
    Word16Bytes(b, at);
    Word32Bytes(b, at + 12);
  }

  /** All parameters of a file, in index order. */
  ghost function Entries(b: seq<byte>): (ps: seq<Param>)
    requires WellFormed(b) && HeaderOk(b)
    ensures |ps| == Count(b)
  {
    seq(Count(b), i requires 0 <= i < Count(b) => EntryAt(b, i))
  }

  // ---------------------------------------------------------------- round trip

  /** A parameter as a writer sees it: its value block is max_length bytes long. */
  datatype Item = Item(key: Text, format: nat, length: nat, value: seq<byte>)

  function KeyParts(ps: seq<Item>): (parts: seq<seq<byte>>)
    ensures |parts| == |ps| && forall i :: 0 <= i < |ps| ==> parts[i] == ps[i].key + [0]
  {
    seq(|ps|, i requires 0 <= i < |ps| => ps[i].key + [0])
  }

  function ValueParts(ps: seq<Item>): (parts: seq<seq<byte>>)
    ensures |parts| == |ps| && forall i :: 0 <= i < |ps| ==> parts[i] == ps[i].value
  {
    seq(|ps|, i requires 0 <= i < |ps| => ps[i].value)
  }

  /** A 32-bit field; beyond its range it says nothing. */
  function Word(v: nat): (w: seq<byte>)
    ensures |w| == 4
    ensures v < TWO_32 ==> Decode(w) == v
  {
    Widths();
    DecodeEncode(v, 4);
    Encode(v, 4)
  }

  function Half(v: nat): (w: seq<byte>)
    ensures |w| == 2
    ensures v < 0x1_0000 ==> Decode(w) == v
  {
    Widths();
    DecodeEncode(v, 2);
    Encode(v, 2)
  }

  function IndexEntry(ps: seq<Item>, i: nat): (e: seq<byte>)
    requires i < |ps|
    ensures |e| == INDEX
  {
    Half(Offset(KeyParts(ps), i)) + Half(ps[i].format) + Word(ps[i].length) + Word(|ps[i].value|) +
    Word(Offset(ValueParts(ps), i))
  }

  function IndexParts(ps: seq<Item>): (parts: seq<seq<byte>>)
    ensures |parts| == |ps| && forall i :: 0 <= i < |ps| ==> parts[i] == IndexEntry(ps, i)
  {
    seq(|ps|, i requires 0 <= i < |ps| => IndexEntry(ps, i))
  }

  function Keys(ps: seq<Item>): seq<byte> {
    Flatten(KeyParts(ps))
  }

  function Values(ps: seq<Item>): seq<byte> {
    Flatten(ValueParts(ps))
  }

  function KeyTable(ps: seq<Item>): nat {
    IndexAt(|ps|)
  }

  function DataTable(ps: seq<Item>, pad: seq<byte>): nat {
    KeyTable(ps) + |Keys(ps)| + |pad|
  }

  function Header(ps: seq<Item>, pad: seq<byte>): (h: seq<byte>)
    ensures |h| == HEADER
  {
    Word(SFO_MAGIC) + Word(SFO_VERSION) + Word(KeyTable(ps)) + Word(DataTable(ps, pad)) + Word(|ps|)
  }

  /** A writer: header, index, NUL-terminated keys, any padding, value blocks, any trailing bytes. */
  function Serialize(ps: seq<Item>, pad: seq<byte>, tail: seq<byte>): seq<byte> {
    Header(ps, pad) + Flatten(IndexParts(ps)) + Keys(ps) + pad + Values(ps) + tail
  }

  ghost predicate ItemFits(ps: seq<Item>, i: nat)
    requires i < |ps|
  {
    && 0 !in ps[i].key
    && Offset(KeyParts(ps), i) < 0x1_0000 && ps[i].format < 0x1_0000
    && ps[i].length < TWO_32 && |ps[i].value| < TWO_32 && Offset(ValueParts(ps), i) < TWO_32
  }

  /** The offsets and lengths fit their 16 and 32-bit fields, and keys are C strings. */
  ghost predicate Fits(ps: seq<Item>, pad: seq<byte>) {
    && |ps| < TWO_32 && DataTable(ps, pad) < TWO_32
    && forall i :: 0 <= i < |ps| ==> ItemFits(ps, i)
  }

  function Stored(p: Item): Param {
    Param(Some(p.key), p.format, p.length, |p.value|, |p.value|, p.value)
  }

  lemma {:induction false} FiveParts(a: seq<byte>, b: seq<byte>, c: seq<byte>, d: seq<byte>, e: seq<byte>)
    ensures var w := a + b + c + d + e;
            && Sits(w, 0, a) && Sits(w, |a|, b) && Sits(w, |a| + |b|, c)
            && Sits(w, |a| + |b| + |c|, d) && Sits(w, |a| + |b| + |c| + |d|, e)
  {
  }

  lemma {:induction false} EqualParts(parts: seq<seq<byte>>, size: nat, i: nat)
    requires i <= |parts| && forall k :: 0 <= k < |parts| ==> |parts[k]| == size
    ensures Offset(parts, i) == size * i
  {
    if i > 0 {
      EqualParts(parts, size, i - 1);
    }
  }

  lemma {:induction false} IndexSize(ps: seq<Item>)
    ensures |Flatten(IndexParts(ps))| == INDEX * |ps|
  {
    EqualParts(IndexParts(ps), INDEX, |ps|);
  }

  lemma {:induction false} Word32(b: seq<byte>, at: nat, v: nat)
    requires Sits(b, at, Word(v)) && v < TWO_32
    ensures U32(b, at) == v
  {
    SitsSlice(b, at, Word(v));
  }

  lemma {:induction false} Word16(b: seq<byte>, at: nat, v: nat)
    requires Sits(b, at, Half(v)) && v < 0x1_0000
    ensures U16(b, at) == v
  {
    SitsSlice(b, at, Half(v));
  }

  /** A file with the header, index, keys and values of `ps` where the writer puts them. */
  ghost predicate Laid(b: seq<byte>, ps: seq<Item>, pad: seq<byte>) {
    && Sits(b, 0, Header(ps, pad)) && Sits(b, HEADER, Flatten(IndexParts(ps)))
    && Sits(b, KeyTable(ps), Keys(ps)) && Sits(b, DataTable(ps, pad), Values(ps))
  }

  lemma {:induction false} SixParts(h: seq<byte>, x: seq<byte>, k: seq<byte>, p: seq<byte>, v: seq<byte>, t: seq<byte>)
    ensures var b := h + x + k + p + v + t;
            Sits(b, 0, h) && Sits(b, |h|, x) && Sits(b, |h| + |x|, k) && Sits(b, |h| + |x| + |k| + |p|, v)
  {
  }

  lemma {:induction false} Layout(ps: seq<Item>, pad: seq<byte>, tail: seq<byte>)
    ensures Laid(Serialize(ps, pad, tail), ps, pad)
  {
    IndexSize(ps);
    SixParts(Header(ps, pad), Flatten(IndexParts(ps)), Keys(ps), pad, Values(ps), tail);
  }

  /** Five words of a header or an index entry, read where the record sits. */
  lemma {:induction false} Record(
    b: seq<byte>, at: nat, w: seq<byte>,
    p0: seq<byte>, p1: seq<byte>, p2: seq<byte>, p3: seq<byte>, p4: seq<byte>)
    requires Sits(b, at, w)
    requires w == p0 + p1 + p2 + p3 + p4
    ensures Sits(b, at, p0) && Sits(b, at + |p0|, p1) && Sits(b, at + |p0| + |p1|, p2)
    ensures Sits(b, at + |p0| + |p1| + |p2|, p3) && Sits(b, at + |p0| + |p1| + |p2| + |p3|, p4)
  {
    FiveParts(p0, p1, p2, p3, p4);
    SitsWithin(b, at, w, 0, p0);
    SitsWithin(b, at, w, |p0|, p1);
    SitsWithin(b, at, w, |p0| + |p1|, p2);
    SitsWithin(b, at, w, |p0| + |p1| + |p2|, p3);
    SitsWithin(b, at, w, |p0| + |p1| + |p2| + |p3|, p4);
  }

  lemma {:induction false} HeaderFields(b: seq<byte>, keys: nat, data: nat, count: nat)
    requires Sits(b, 0, Word(SFO_MAGIC) + Word(SFO_VERSION) + Word(keys) + Word(data) + Word(count))
    requires keys < TWO_32 && data < TWO_32 && count < TWO_32
    ensures |b| >= HEADER && U32(b, 0) == SFO_MAGIC
    ensures U32(b, 8) == keys && U32(b, 12) == data && U32(b, 16) == count
  {
    Record(b, 0, Word(SFO_MAGIC) + Word(SFO_VERSION) + Word(keys) + Word(data) + Word(count),
           Word(SFO_MAGIC), Word(SFO_VERSION), Word(keys), Word(data), Word(count));
    Word32(b, 0, SFO_MAGIC);
    Word32(b, 8, keys);
    Word32(b, 12, data);
    Word32(b, 16, count);
  }

  lemma {:induction false} HeaderDecodes(b: seq<byte>, ps: seq<Item>, pad: seq<byte>)
    requires Sits(b, 0, Header(ps, pad)) && |ps| < TWO_32 && DataTable(ps, pad) < TWO_32
    ensures HeaderOk(b) && Count(b) == |ps| && U32(b, 8) == KeyTable(ps) && U32(b, 12) == DataTable(ps, pad)
  {
    HeaderFields(b, KeyTable(ps), DataTable(ps, pad), |ps|);
  }

  lemma {:induction false} FieldsDecode(b: seq<byte>, at: nat, key: nat, format: nat, length: nat, max: nat, data: nat)
    requires Sits(b, at, Half(key) + Half(format) + Word(length) + Word(max) + Word(data))
    requires key < 0x1_0000 && format < 0x1_0000 && length < TWO_32 && max < TWO_32 && data < TWO_32
    ensures at + INDEX <= |b| && U16(b, at) == key && U16(b, at + 2) == format
    ensures U32(b, at + 4) == length && U32(b, at + 8) == max && U32(b, at + 12) == data
  {
    Record(b, at, Half(key) + Half(format) + Word(length) + Word(max) + Word(data),
           Half(key), Half(format), Word(length), Word(max), Word(data));
    Word16(b, at, key);
    Word16(b, at + 2, format);
    Word32(b, at + 4, length);
    Word32(b, at + 8, max);
    Word32(b, at + 12, data);
  }

  lemma {:induction false} IndexDecodes(b: seq<byte>, ps: seq<Item>, i: nat)
    requires Sits(b, HEADER, Flatten(IndexParts(ps))) && i < |ps| && ItemFits(ps, i)
    ensures var at := IndexAt(i);
            && at + INDEX <= |b|
            && U16(b, at) == Offset(KeyParts(ps), i) && U16(b, at + 2) == ps[i].format
            && U32(b, at + 4) == ps[i].length && U32(b, at + 8) == |ps[i].value|
            && U32(b, at + 12) == Offset(ValueParts(ps), i)
  {
    PartAt(b, HEADER, IndexParts(ps), i);
    EqualParts(IndexParts(ps), INDEX, i);
    FieldsDecode(b, IndexAt(i), Offset(KeyParts(ps), i), ps[i].format, ps[i].length, |ps[i].value|,
                 Offset(ValueParts(ps), i));
  }

  lemma {:induction false} StringSits(b: seq<byte>, at: nat, key: Text)
    requires Sits(b, at, key + [0]) && 0 !in key
    ensures Terminated(b, at) && CString(b, at) == key
  {
    SitsSlice(b, at, key + [0]);
    assert SitsByte(b, at, key + [0], |key|);
    CStringAt(b, at, key);
  }

  lemma {:induction false} KeyDecodes(b: seq<byte>, ps: seq<Item>, table: nat, i: nat, at: nat)
    requires Sits(b, table, Keys(ps)) && i < |ps| && 0 !in ps[i].key && at == table + Offset(KeyParts(ps), i)
    ensures Terminated(b, at) && CString(b, at) == ps[i].key
  {
    PartAt(b, table, KeyParts(ps), i);
    StringSits(b, at, ps[i].key);
  }

  lemma {:induction false} ValueDecodes(b: seq<byte>, ps: seq<Item>, table: nat, i: nat, at: nat)
    requires Sits(b, table, Values(ps)) && i < |ps| && at == table + Offset(ValueParts(ps), i)
    ensures at + |ps[i].value| <= |b| && b[at..at + |ps[i].value|] == ps[i].value
  {
    PartAt(b, table, ValueParts(ps), i);
    SitsSlice(b, at, ps[i].value);
  }

  lemma {:induction false} EntryIs(b: seq<byte>, i: nat, p: Item)
    requires HeaderOk(b) && IndexAt(i + 1) <= |b|
    requires U16(b, IndexAt(i) + 2) == p.format && U32(b, IndexAt(i) + 4) == p.length && MaxLength(b, i) == |p.value|
    requires Terminated(b, KeyAt(b, i)) && CString(b, KeyAt(b, i)) == p.key
    requires var at := ValueAt(b, i); at + |p.value| <= |b| && b[at..at + |p.value|] == p.value
    ensures EntryInFile(b, i) && EntryAt(b, i) == Stored(p)
  {
  }

  /** An index entry tells where its key and its value lie, and how long the value is. */
  lemma {:induction false} PlacesDecode(b: seq<byte>, ps: seq<Item>, pad: seq<byte>, i: nat)
    requires Laid(b, ps, pad) && Fits(ps, pad) && i < |ps|
    ensures HeaderOk(b) && IndexAt(i + 1) <= |b|
    ensures KeyAt(b, i) == KeyTable(ps) + Offset(KeyParts(ps), i)
    ensures ValueAt(b, i) == DataTable(ps, pad) + Offset(ValueParts(ps), i)
    ensures U16(b, IndexAt(i) + 2) == ps[i].format && U32(b, IndexAt(i) + 4) == ps[i].length
    ensures MaxLength(b, i) == |ps[i].value| && 0 !in ps[i].key
  {
    assert ItemFits(ps, i);
    HeaderDecodes(b, ps, pad);
    IndexDecodes(b, ps, i);
  }

  lemma {:induction false} EntryHasFields(b: seq<byte>, ps: seq<Item>, pad: seq<byte>, i: nat)
    requires Laid(b, ps, pad) && Fits(ps, pad) && i < |ps|
    ensures HeaderOk(b) && IndexAt(i + 1) <= |b| && MaxLength(b, i) == |ps[i].value|
    ensures U16(b, IndexAt(i) + 2) == ps[i].format && U32(b, IndexAt(i) + 4) == ps[i].length
  {
    PlacesDecode(b, ps, pad, i);
  }

  lemma {:induction false} EntryHasKey(b: seq<byte>, ps: seq<Item>, pad: seq<byte>, i: nat)
    requires Laid(b, ps, pad) && Fits(ps, pad) && i < |ps|
    ensures HeaderOk(b) && IndexAt(i + 1) <= |b|
    ensures Terminated(b, KeyAt(b, i)) && CString(b, KeyAt(b, i)) == ps[i].key
  {
    PlacesDecode(b, ps, pad, i);
    KeyDecodes(b, ps, KeyTable(ps), i, KeyAt(b, i));
  }

  lemma {:induction false} EntryHasValue(b: seq<byte>, ps: seq<Item>, pad: seq<byte>, i: nat)
    requires Laid(b, ps, pad) && Fits(ps, pad) && i < |ps|
    ensures HeaderOk(b) && IndexAt(i + 1) <= |b|
    ensures var at := ValueAt(b, i); at + |ps[i].value| <= |b| && b[at..at + |ps[i].value|] == ps[i].value
  {
    PlacesDecode(b, ps, pad, i);
    ValueDecodes(b, ps, DataTable(ps, pad), i, ValueAt(b, i));
  }

  lemma {:induction false} EntryDecodes(b: seq<byte>, ps: seq<Item>, pad: seq<byte>, i: nat)
    requires Laid(b, ps, pad) && Fits(ps, pad) && i < |ps|
    ensures HeaderOk(b) && IndexAt(i + 1) <= |b| && EntryInFile(b, i) && EntryAt(b, i) == Stored(ps[i])
  {
    EntryHasFields(b, ps, pad, i);
    EntryHasKey(b, ps, pad, i);
    EntryHasValue(b, ps, pad, i);
    EntryIs(b, i, ps[i]);
  }

  /** Round trip: decoding what the writer wrote gives back exactly its parameters, in order. */
  lemma {:induction false} RoundTrip(ps: seq<Item>, pad: seq<byte>, tail: seq<byte>)
    requires Fits(ps, pad)
    ensures var b := Serialize(ps, pad, tail);
            HeaderOk(b) && WellFormed(b) && |Entries(b)| == |ps| &&
            forall i :: 0 <= i < |ps| ==> Entries(b)[i] == Stored(ps[i])
  {
    var b := Serialize(ps, pad, tail);
    Layout(ps, pad, tail);
    HeaderDecodes(b, ps, pad);
    forall i | 0 <= i < |ps|
      ensures IndexAt(i + 1) <= |b| && EntryInFile(b, i) && EntryAt(b, i) == Stored(ps[i])
    {
      EntryDecodes(b, ps, pad, i);
    }
  }

  // ---------------------------------------------------------------- lookup

  predicate Matches(p: Param, key: Text) {
    p.key == Some(key)
  }

  /** The first value stored under a key. */
  function FirstMatch(ps: seq<Param>, key: Text): (v: Option<seq<byte>>)
    ensures v.None? <==> forall i :: 0 <= i < |ps| ==> !Matches(ps[i], key)
    ensures v.Some? ==> exists i :: 0 <= i < |ps| && Matches(ps[i], key) && v.value == ps[i].value &&
                                    forall j :: 0 <= j < i ==> !Matches(ps[j], key)
  {
    if ps == [] then None
    else
      var v := FirstMatch(ps[..|ps| - 1], key);
      var last := ps[|ps| - 1];
      if v.Some? then v
      else if Matches(last, key) then Some(last.value)
      else None
  }

  lemma {:induction false} FirstMatchIs(ps: seq<Param>, key: Text, i: nat)
    requires i < |ps| && Matches(ps[i], key) && forall j :: 0 <= j < i ==> !Matches(ps[j], key)
    ensures FirstMatch(ps, key) == Some(ps[i].value)
  {
  }

  /** Reading another file into a context never changes the answer for a key it already had. */
  lemma {:induction false} LookupIsStable(ps: seq<Param>, qs: seq<Param>, key: Text)
    ensures FirstMatch(ps + qs, key) ==
              if FirstMatch(ps, key).Some? then FirstMatch(ps, key) else FirstMatch(qs, key)
  {
    if qs == [] {
      assert ps + qs == ps;
    } else {
      LookupIsStable(ps, qs[..|qs| - 1], key);
      assert (ps + qs)[..|ps + qs| - 1] == ps + qs[..|qs| - 1];
    }
  }

  // ---------------------------------------------------------------- the growing store

  ghost function Pow2(k: nat): (p: nat)
    ensures p > 0
  {
    if k == 0 then 1 else 2 * Pow2(k - 1)
  }

  ghost predicate IsLeastCapacity(cap: nat, n: nat) {
    (exists k: nat :: cap == 64 * Pow2(k)) && cap >= n && forall k: nat :: 64 * Pow2(k) >= n ==> cap <= 64 * Pow2(k)
  }

  lemma {:induction false} Pow2Grows(j: nat, k: nat)
    requires j <= k
    ensures Pow2(j) <= Pow2(k)
  {
    if j < k {
      Pow2Grows(j, k - 1);
    }
  }

  /** Which allocations succeed: whether the context and the file buffer are granted, and at which
      entries of the file realloc, strdup and malloc fail. */
  datatype Heap = Heap(context: bool, buffer: bool, noRoom: set<nat>, noKey: set<nat>, noValue: set<nat>)

  /** The capacity before entry i of a file, read into a context with this count and capacity. */
  function CapacityAt(count: nat, capacity: nat, i: nat): nat {
    if i == 0 then capacity
    else
      var before := CapacityAt(count, capacity, i - 1);
      if count + i - 1 >= before then before * 2 else before
  }

  /** Entry i finds memory: for its value, and for more room if the store is full. */
  predicate Finds(heap: Heap, count: nat, capacity: nat, i: nat) {
    i !in heap.noValue && (count + i >= CapacityAt(count, capacity, i) ==> i !in heap.noRoom)
  }

  predicate AllFind(heap: Heap, count: nat, capacity: nat, n: nat) {
    n == 0 || (AllFind(heap, count, capacity, n - 1) && Finds(heap, count, capacity, n - 1))
  }

  function Taken(b: seq<byte>, heap: Heap, i: nat): Param
    requires HeaderOk(b) && IndexAt(i + 1) <= |b| && EntryInFile(b, i)
  {
    var p := EntryAt(b, i);
    if i in heap.noKey then p.(key := None) else p
  }

  /** The first n parameters as the store receives them. */
  ghost function TakenUpTo(b: seq<byte>, heap: Heap, n: nat): (ps: seq<Param>)
    requires WellFormed(b) && HeaderOk(b) && n <= Count(b)
    ensures |ps| == n
  {
    seq(n, i requires 0 <= i < n => Taken(b, heap, i))
  }

  /** The store receives an entry as it is, but without its key when the copy of that fails. */
  lemma {:induction false} TakenIs(b: seq<byte>, heap: Heap, n: nat, i: nat)
    requires WellFormed(b) && HeaderOk(b) && i < n <= Count(b)
    ensures var p, q := TakenUpTo(b, heap, n)[i], Entries(b)[i];
            && p.format == q.format && p.length == q.length && p.maxLength == q.maxLength
            && p.actualLength == q.actualLength && p.value == q.value
            && p.key == if i in heap.noKey then None else q.key
  {
    assert EntryInFile(b, i);
  }

  lemma {:induction false} TakenStep(b: seq<byte>, heap: Heap, n: nat, before: seq<Param>)
    requires WellFormed(b) && HeaderOk(b) && n < Count(b)
    ensures IndexAt(n + 1) <= |b| && EntryInFile(b, n)
    ensures before + TakenUpTo(b, heap, n + 1) == before + TakenUpTo(b, heap, n) + [Taken(b, heap, n)]
  {
    assert EntryInFile(b, n);
  }

  /** When every key can be copied, the store receives the entries of the file. */
  lemma {:induction false} AllTaken(b: seq<byte>, heap: Heap)
    requires WellFormed(b) && HeaderOk(b) && forall i :: 0 <= i < Count(b) ==> i !in heap.noKey
    ensures TakenUpTo(b, heap, Count(b)) == Entries(b)
  {
    forall i | 0 <= i < Count(b)
      ensures TakenUpTo(b, heap, Count(b))[i] == Entries(b)[i]
    {
      assert EntryInFile(b, i);
    }
  }

  /** An entry that does not find memory is the end, however many follow. */
  lemma {:induction false} EndsAt(heap: Heap, count: nat, capacity: nat, i: nat, n: nat)
    requires i < n && !Finds(heap, count, capacity, i)
    ensures !AllFind(heap, count, capacity, n)
  {
    if i < n - 1 {
      EndsAt(heap, count, capacity, i, n - 1);
    }
  }

  /** What sfo_read appends for a serialized file, when every key could be copied: the list written. */
  lemma {:induction false} ReadsBack(ps: seq<Item>, pad: seq<byte>, tail: seq<byte>, heap: Heap)
    requires Fits(ps, pad) && forall i :: 0 <= i < |ps| ==> i !in heap.noKey
    ensures var b := Serialize(ps, pad, tail);
            HeaderOk(b) && WellFormed(b) && Count(b) == |ps| &&
            forall i :: 0 <= i < |ps| ==> TakenUpTo(b, heap, |ps|)[i] == Stored(ps[i])
  {
    RoundTrip(ps, pad, tail);
    AllTaken(Serialize(ps, pad, tail), heap);
  }

  class SfoContext {
    var params: array<Param>
    var count: nat
    var capacity: nat

    ghost var doublings: nat  // successful reallocations
    ghost var moved: nat      // elements copied by them
    ghost var demand: nat     // slots asked for so far: count, or one more after a failed append

    ghost predicate Valid()
      reads this
    {
      && params.Length == capacity == 64 * Pow2(doublings)
      && count <= demand <= capacity && demand <= count + 1
      && (doublings > 0 ==> capacity < 2 * demand)
      && moved == capacity - 64
    }

    ghost function Params(): (ps: seq<Param>)
      reads this, params
      requires count <= params.Length
      ensures |ps| == count
    {
      params[..count]
    }

    /** A context as sfo_alloc leaves it when it succeeds. */
    constructor ()
      ensures Valid() && fresh(params) && count == demand == 0 && capacity == 64
    {
      params := new Param[64](_ => Param(None, 0, 0, 0, 0, []));
      count, capacity := 0, 64;
      doublings, moved, demand := 0, 0, 0;
    }

    /** A successful realloc: a longer array with the old elements in front. */
    static method Realloc(a: array<Param>, n: nat, cap: nat) returns (grown: array<Param>)
      requires n <= a.Length && n <= cap
      ensures fresh(grown) && grown.Length == cap && grown[..n] == a[..n]
    {
      grown := new Param[cap];
      for i := 0 to n
        invariant grown[..i] == a[..i]
      {
        grown[i] := a[i];
      }
    }

    /** Room for one more parameter: double the array when it is full, keeping what it holds. */
    method Reserve(ok: bool) returns (done: bool)
      requires Valid() && count < MAX_COUNT
      modifies this
      ensures Valid() && Params() == old(Params()) && count == old(count)
      ensures done <==> old(count < capacity) || ok
      ensures done ==> capacity == if old(count >= capacity) then old(capacity) * 2 else old(capacity)
      ensures done ==> count < capacity && demand == count + 1
      ensures !done ==> params == old(params) && demand == old(demand)
      ensures params == old(params) || fresh(params)
    {
      if count >= capacity {
        if !ok {
          return false;
        }
        params := Realloc(params, count, capacity * 2);
        moved := moved + capacity;
        capacity := capacity * 2;
        doublings := doublings + 1;
      }
      demand := count + 1;
      done := true;
    }

    /** The new parameter goes behind the others, into the room made for it. */
    method Append(p: Param)
      requires Valid() && count < capacity && demand == count + 1
      modifies this`count, params
      ensures Valid() && Params() == old(Params()) + [p] && demand == count && capacity == old(capacity)
    {
      params[count] := p;
      count := count + 1;
    }

    /** The allocations for one parameter, in their order, and the parameter when they succeed. */
    method Store(p: Param, grow: bool, value: bool) returns (ok: bool)
      requires Valid() && count < MAX_COUNT
      modifies this, params
      ensures Valid() && (params == old(params) || fresh(params))
      ensures ok <==> value && (old(count >= capacity) ==> grow)
      ensures ok ==> Params() == old(Params()) + [p] && demand == count
      ensures ok ==> capacity == if old(count >= capacity) then old(capacity) * 2 else old(capacity)
      ensures !ok ==> Params() == old(Params())
    {
      ok := Reserve(grow);
      ok := ok && value;
      if ok {
        Append(p);
      }
    }

    /** One round of the entry loop, in a store that began with `first` and room for `room`. */
    method ReadEntry(b: seq<byte>, heap: Heap, i: nat, ghost first: seq<Param>, ghost room: nat) returns (ok: bool)
      requires Valid() && count < MAX_COUNT && WellFormed(b) && HeaderOk(b) && i < Count(b)
      requires Params() == first + TakenUpTo(b, heap, i) && capacity == CapacityAt(|first|, room, i)
      modifies this, params
      ensures Valid() && (params == old(params) || fresh(params))
      ensures ok <==> Finds(heap, |first|, room, i)
      ensures ok ==> Params() == first + TakenUpTo(b, heap, i + 1) && demand == count
      ensures ok ==> capacity == CapacityAt(|first|, room, i + 1)
      ensures !ok ==> Params() == old(Params())
    {
      TakenStep(b, heap, i, first);
      ok := Store(Taken(b, heap, i), i !in heap.noRoom, i !in heap.noValue);
    }

    /** The entry loop of sfo_read, in a store that begins with `first` and room for `room`. */
    method ReadLoop(b: seq<byte>, heap: Heap, ghost first: seq<Param>, ghost room: nat) returns (ret: int)
      requires Valid() && WellFormed(b) && HeaderOk(b) && |first| + Count(b) <= MAX_COUNT
      requires Params() == first && capacity == room
      modifies this, params
      ensures Valid() && (params == old(params) || fresh(params))
      ensures |first| <= count <= |first| + Count(b)
      ensures Params() == first + TakenUpTo(b, heap, count - |first|) && AllFind(heap, |first|, room, count - |first|)
      ensures ret == if count - |first| == Count(b) then 0 else -1
      ensures ret == -1 ==> !Finds(heap, |first|, room, count - |first|)
      ensures ret == 0 && old(demand == count) ==> demand == count
    {
      for i := 0 to Count(b)
        invariant Valid() && (params == old(params) || fresh(params))
        invariant Params() == first + TakenUpTo(b, heap, i)
        invariant capacity == CapacityAt(|first|, room, i) && AllFind(heap, |first|, room, i)
        invariant old(demand == count) ==> demand == count
      {
        var ok := ReadEntry(b, heap, i, first, room);
        if !ok {
          return -1;
        }
      }
      ret := 0;
    }

    /** The loop as a whole: it stops at the first entry that does not find memory, and keeps what it has. */
    method ReadEntries(b: seq<byte>, heap: Heap) returns (ret: int)
      requires Valid() && WellFormed(b) && HeaderOk(b) && count + Count(b) <= MAX_COUNT
      modifies this, params
      ensures Valid() && (params == old(params) || fresh(params))
      ensures old(count) <= count <= old(count) + Count(b)
      ensures Params() == old(Params()) + TakenUpTo(b, heap, count - old(count))
      ensures ret == if AllFind(heap, old(count), old(capacity), Count(b)) then 0 else -1
      ensures ret == 0 <==> count == old(count) + Count(b)
      ensures AllFind(heap, old(count), old(capacity), count - old(count))
      ensures ret == -1 ==> !Finds(heap, old(count), old(capacity), count - old(count))
      ensures ret == 0 && old(demand == count) ==> demand == count
    {
      ghost var n, room := count, capacity;
      ret := ReadLoop(b, heap, Params(), capacity);
      if ret == -1 {
        EndsAt(heap, n, room, count - n, Count(b));
      }
    }
  }

  /** Amortised growth: the capacity is the least 64 * 2^k that holds what was asked for, and all
      reallocations together copied fewer than twice as many elements. */
  lemma {:induction false} AmortisedGrowth(ctx: SfoContext)
    requires ctx.Valid()
    ensures IsLeastCapacity(ctx.capacity, ctx.demand)
    ensures ctx.moved < 2 * ctx.demand || ctx.moved == 0
    ensures ctx.demand == ctx.count > 0 ==> ctx.moved < 2 * ctx.count
  {
    var d := ctx.doublings;
    forall k: nat | 64 * Pow2(k) >= ctx.demand
      ensures ctx.capacity <= 64 * Pow2(k)
    {
      if k < d {
        Pow2Grows(k, d - 1);
      } else {
        Pow2Grows(d, k);
      }
    }
  }

  // ---------------------------------------------------------------- the entry points

  function LowerCase(c: byte): byte {
    if 'A' as int <= c <= 'Z' as int then c + 32 else c
  }

  /** Longer than four characters and ending in ".pkg", in any case. */
  predicate IsPkgPath(path: Text) {
    |path| > 4 && forall i :: 0 <= i < 4 ==> LowerCase(path[|path| - 4 + i]) == Ascii(".pkg")[i]
  }

  /** The SFO bytes behind a path: the file itself, or the part of a PKG that holds them. */
  ghost function Source(path: Text, files: map<Text, seq<byte>>): Option<seq<byte>> {
    if path !in files then None
    else if IsPkgPath(path) then Pkg.Extracted(files[path])
    else Some(files[path])
  }

  lemma {:induction false} PkgEnding(p: Text, s: Text)
    requires |s| == 4
    ensures IsPkgPath(p + s) <==>
              p != [] && s[0] == '.' as int && s[1] in {'p' as int, 'P' as int} &&
              s[2] in {'k' as int, 'K' as int} && s[3] in {'g' as int, 'G' as int}
  {
    var path, dot := p + s, Ascii(".pkg");
    assert dot[0] == '.' as int && dot[1] == 'p' as int && dot[2] == 'k' as int && dot[3] == 'g' as int;
    forall i | 0 <= i < 4
      ensures path[|path| - 4 + i] == s[i]
    {
    }
    if IsPkgPath(path) {
      assert LowerCase(path[|path| - 4 + 0]) == dot[0] && LowerCase(path[|path| - 4 + 1]) == dot[1];
      assert LowerCase(path[|path| - 4 + 2]) == dot[2] && LowerCase(path[|path| - 4 + 3]) == dot[3];
    }
  }

  /** A path that has something before the ending .pkg, in any mixture of cases, is read as a PKG ... */
  lemma {:induction false} PkgIsOpened(files: map<Text, seq<byte>>, p: Text, s: Text)
    requires p != [] && |s| == 4 && p + s in files && s[0] == '.' as int && s[1] in {'p' as int, 'P' as int}
    requires s[2] in {'k' as int, 'K' as int} && s[3] in {'g' as int, 'G' as int}
    ensures Source(p + s, files) == Pkg.Extracted(files[p + s])
  {
    PkgEnding(p, s);
  }

  /** ... and any other as the SFO itself. */
  lemma {:induction false} OtherIsRead(files: map<Text, seq<byte>>, path: Text)
    requires path in files
    requires |path| > 4 ==>
               var s := path[|path| - 4..];
               !(s[0] == '.' as int && s[1] in {'p' as int, 'P' as int} && s[2] in {'k' as int, 'K' as int} &&
                 s[3] in {'g' as int, 'G' as int})
    ensures Source(path, files) == Some(files[path])
  {
    if |path| > 4 {
      PkgEnding(path[..|path| - 4], path[|path| - 4..]);
      assert path == path[..|path| - 4] + path[|path| - 4..];
    }
  }

  method Load(path: Text, files: map<Text, seq<byte>>, bufferOk: bool) returns (b: Option<seq<byte>>)
    ensures b == if bufferOk then Source(path, files) else None
  {
    if IsPkgPath(path) {
      b := Pkg.ReadSfoFromPkg(if path in files then Some(files[path]) else None, bufferOk);
    } else if path in files && bufferOk {
      b := Some(files[path]);
    } else {
      b := None;
    }
  }

  ghost predicate Parses(b: Option<seq<byte>>) {
    b.Some? && HeaderOk(b.value)
  }

  /** sfo_alloc: a fresh context, or null. */
  method SfoAlloc(heap: Heap) returns (ctx: SfoContext?)
    ensures ctx != null <==> heap.context
    ensures ctx != null ==> fresh(ctx) && ctx.Valid() && ctx.count == ctx.demand == 0 && ctx.capacity == 64
    ensures ctx != null ==> fresh(ctx.params)
  {
    ctx := null;
    if heap.context {
      ctx := new SfoContext();
    }
  }

  /** sfo_read. Parameters are appended; a failure keeps those read before it. */
  method SfoRead(ctx: SfoContext?, path: Option<Text>, files: map<Text, seq<byte>>, heap: Heap) returns (ret: int)
    requires ctx != null && path.Some? ==> ctx.Valid()
    requires ctx != null && path.Some? && Parses(Source(path.value, files)) ==>
               var b := Source(path.value, files).value; WellFormed(b) && ctx.count + Count(b) <= MAX_COUNT
    modifies ctx, if ctx == null then {} else {ctx.params}
    ensures ret == 0 || ret == -1
    ensures ret == 0 ==> ctx != null && path.Some? && heap.buffer && Parses(Source(path.value, files))
    ensures ctx != null && path.Some? ==> ctx.Valid() && old(ctx.count) <= ctx.count
    ensures ctx != null && path.Some? && heap.buffer && Parses(Source(path.value, files)) ==>
              var b, n := Source(path.value, files).value, ctx.count - old(ctx.count);
              && n <= Count(b) && ctx.Params() == old(ctx.Params()) + TakenUpTo(b, heap, n)
              && (ret == 0 <==> n == Count(b)) && AllFind(heap, old(ctx.count), old(ctx.capacity), n)
              && (ret == 0 <==> AllFind(heap, old(ctx.count), old(ctx.capacity), Count(b)))
              && (ret == -1 ==> !Finds(heap, old(ctx.count), old(ctx.capacity), n))
    ensures ctx != null && path.Some? && !(heap.buffer && Parses(Source(path.value, files))) ==>
              ctx.Params() == old(ctx.Params())
    ensures ret == 0 && old(ctx.demand == ctx.count) ==> ctx.demand == ctx.count
  {
    if ctx == null || path.None? {
      return -1;
    }
    var sfo := Load(path.value, files, heap.buffer);
    if sfo.None? {
      return -1;
    }
    if |sfo.value| < HEADER {
      return -1;
    }
    if U32(sfo.value, 0) != SFO_MAGIC {
      return -1;
    }
    ret := ctx.ReadEntries(sfo.value, heap);
  }

  /** sfo_get_param_value: the first match, or null. */
  method GetParamValue(ctx: SfoContext?, key: Option<Text>) returns (v: Option<seq<byte>>)
    requires ctx != null ==> ctx.Valid()
    ensures v == if ctx == null || key.None? then None else FirstMatch(ctx.Params(), key.value)
  {
    if ctx == null || key.None? {
      return None;
    }
    ghost var ps := ctx.Params();
    for i := 0 to ctx.count
      invariant forall j :: 0 <= j < i ==> !Matches(ps[j], key.value)
    {
      assert ps[i] == ctx.params[i];
      if ctx.params[i].key.Some? && ctx.params[i].key.value == key.value {
        FirstMatchIs(ps, key.value, i);
        return Some(ctx.params[i].value);
      }
    }
    v := None;
  }
}

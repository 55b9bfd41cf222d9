/** Bytes, little-endian words and in-place range copies, shared by every component. */
module Bytes {

  type byte = x: int | 0 <= x < 256
  type Text = seq<byte>  // the bytes of a string
  type u64 = x: int | 0 <= x < 0x1_0000_0000_0000_0000

  const TWO_64: nat := 0x1_0000_0000_0000_0000
  const TWO_63: nat := 0x8000_0000_0000_0000
  const TWO_32: nat := 0x1_0000_0000

  // ---------------------------------------------------------------- words

  /** Addition and subtraction of unsigned long values: one wrap at most. */
  function Add64(a: u64, b: u64): u64 {
    if a + b < TWO_64 then a + b else a + b - TWO_64
  }

  function Sub64(a: u64, b: u64): u64 {
    if a >= b then a - b else a - b + TWO_64
  }

  function Pow256(n: nat): (p: nat)
    ensures p > 0
  {
    if n == 0 then 1 else 256 * Pow256(n - 1)
  }

  /** The `n` low bytes of `v`, least significant first: how x86-64 stores an integer. */
  function Encode(v: nat, n: nat): (s: seq<byte>)
    ensures |s| == n
  {
    if n == 0 then [] else [v % 256] + Encode(v / 256, n - 1)
  }

  /** The integer held by a little-endian byte string. */
  function Decode(s: seq<byte>): nat {
    if s == [] then 0 else s[0] + 256 * Decode(s[1..])
  }

  lemma {:induction false} MulAtLeast(d: int, k: int)
    requires d > 0 && k >= 1
    ensures d * k >= d
  {
  }

  lemma {:induction false} DivModUnique(v: int, d: int, q: int, r: int)
    requires 0 <= r < d && v == d * q + r
    ensures v % d == r && v / d == q
  {
    var q', r' := v / d, v % d;
    assert v == d * q' + r' && 0 <= r' < d;
    if q' > q {
      assert d * (q' - q) >= d by { MulAtLeast(d, q' - q); }
    } else if q' < q {
      assert d * (q - q') >= d by { MulAtLeast(d, q - q'); }
    }
  }

  lemma {:induction false} SplitMod(v: nat, p: nat)
    requires p > 0
    ensures v % (256 * p) == v % 256 + 256 * ((v / 256) % p)
  {
    var q, r := v / 256 / p, v / 256 % p;
    assert v / 256 == q * p + r;
    assert v == 256 * (q * p + r) + v % 256;
    assert 256 * (q * p) == (256 * p) * q;
    var low := v % 256 + 256 * r;
    assert 0 <= low < 256 * p;
    assert v == (256 * p) * q + low;
    DivModUnique(v, 256 * p, q, low);
  }

  lemma {:induction false} DecodeEncode(v: nat, n: nat)
    ensures Decode(Encode(v, n)) == v % Pow256(n)
  {
    if n > 0 {
      DecodeEncode(v / 256, n - 1);
      assert Encode(v, n)[1..] == Encode(v / 256, n - 1);
      SplitMod(v, Pow256(n - 1));
    }
  }

  lemma {:induction false} DecodeBound(s: seq<byte>)
    ensures Decode(s) < Pow256(|s|)
  {
    if s != [] {
      DecodeBound(s[1..]);
    }
  }

  lemma {:induction false} EncodeDecode(s: seq<byte>)
    ensures Encode(Decode(s), |s|) == s
  {
    if s != [] {
      var v := Decode(s);
      assert v % 256 == s[0] && v / 256 == Decode(s[1..]);
      EncodeDecode(s[1..]);
    }
  }

  /** Words that fit their width survive a store and a load. */
  lemma {:induction false} WordRoundTrip(v: nat, n: nat)
    requires v < Pow256(n)
    ensures Decode(Encode(v, n)) == v
  {
    DecodeEncode(v, n);
    DivModUnique(v, Pow256(n), 0, v);
  }

  lemma {:induction false} Widths()
    ensures Pow256(2) == 0x1_0000 && Pow256(4) == TWO_32 && Pow256(8) == TWO_64
  {
  }

  /** Byte t of a value, counting from the least significant. */
  function Digit(v: nat, t: nat): byte {
    if t == 0 then v % 256 else Digit(v / 256, t - 1)
  }

  lemma {:induction false} EncodeDigit(v: nat, n: nat, t: nat)
    requires t < n
    ensures Encode(v, n)[t] == Digit(v, t)
  {
    if t > 0 {
      EncodeDigit(v / 256, n - 1, t - 1);
    }
  }

  /** Adding 256^j leaves the bytes below j alone and always changes byte j. */
  lemma {:induction false} DigitBump(v: nat, j: nat)
    ensures forall i :: 0 <= i < j ==> Digit(v + Pow256(j), i) == Digit(v, i)
    ensures Digit(v + Pow256(j), j) != Digit(v, j)
  {
    if j > 0 {
      DigitBump(v / 256, j - 1);
      assert (v + Pow256(j)) / 256 == v / 256 + Pow256(j - 1);
      assert (v + Pow256(j)) % 256 == v % 256;
    }
  }

  /** Only the value modulo 256^n matters to an n-byte store. */
  lemma {:induction false} EncodeMod(v: nat, w: nat, n: nat)
    requires v % Pow256(n) == w % Pow256(n)
    ensures Encode(v, n) == Encode(w, n)
  {
    DecodeEncode(v, n);
    DecodeEncode(w, n);
    EncodeDecode(Encode(v, n));
    EncodeDecode(Encode(w, n));
  }

  /** Storing a wrapped sum is storing the sum. */
  lemma {:induction false} EncodeSum(a: u64, b: u64)
    ensures Encode(Add64(a, b), 8) == Encode(a + b, 8)
  {
    Widths();
    var q := if a + b < TWO_64 then 0 else 1;
    assert a + b == TWO_64 * q + Add64(a, b);
    DivModUnique(a + b, TWO_64, q, Add64(a, b));
    DivModUnique(Add64(a, b), TWO_64, 0, Add64(a, b));
    EncodeMod(Add64(a, b), a + b, 8);
  }

  lemma {:induction false} DigitOfSum(a: u64, b: u64, t: nat)
    requires t < 8
    ensures Digit(Add64(a, b), t) == Digit(a + b, t)
  {
    EncodeSum(a, b);
    EncodeDigit(Add64(a, b), 8, t);
    EncodeDigit(a + b, 8, t);
  }

  function U16(b: seq<byte>, at: nat): (v: nat)
    requires at + 2 <= |b|
    ensures v < 0x1_0000
  {
    Widths();
    DecodeBound(b[at..at + 2]);
    Decode(b[at..at + 2])
  }

  function U32(b: seq<byte>, at: nat): (v: nat)
    requires at + 4 <= |b|
    ensures v < TWO_32
  {
    Widths();
    DecodeBound(b[at..at + 4]);
    Decode(b[at..at + 4])
  }

  function U64(b: seq<byte>, at: nat): (v: u64)
    requires at + 8 <= |b|
  {
    Widths();
    DecodeBound(b[at..at + 8]);
    Decode(b[at..at + 8])
  }

  lemma {:induction false} DigitOfU64(b: seq<byte>, at: nat, t: nat)
    requires at + 8 <= |b| && t < 8
    ensures Digit(U64(b, at), t) == b[at + t]
  {
    EncodeDecode(b[at..at + 8]);
    EncodeDigit(Decode(b[at..at + 8]), 8, t);
  }

  // ---------------------------------------------------------------- ranges

  function Zeros(n: nat): (s: seq<byte>)
    ensures |s| == n && forall i :: 0 <= i < n ==> s[i] == 0
  {
    seq(n, _ => 0)
  }

  /** `s` with the range starting at `at` replaced by `d`. */
  function Overlay(s: seq<byte>, at: nat, d: seq<byte>): (r: seq<byte>)
    requires at + |d| <= |s|
    ensures |r| == |s|
    ensures forall k :: 0 <= k < |s| ==> r[k] == if at <= k < at + |d| then d[k - at] else s[k]
  {
    seq(|s|, k requires 0 <= k < |s| => if at <= k < at + |d| then d[k - at] else s[k])
  }

  /** memcpy: copy `src` over `dst[at..]`, byte by byte. */
  method CopyInto(dst: array<byte>, at: nat, src: seq<byte>)
    requires at + |src| <= dst.Length
    modifies dst
    ensures dst[..] == Overlay(old(dst[..]), at, src)
  {
    for i := 0 to |src|
      invariant dst[..] == Overlay(old(dst[..]), at, src[..i])
    {
      dst[at + i] := src[i];
    }
    assert src[..|src|] == src;
  }

  /** memset(dst + at, 0, n). */
  method ZeroRange(dst: array<byte>, at: nat, n: nat)
    requires at + n <= dst.Length
    modifies dst
    ensures dst[..] == Overlay(old(dst[..]), at, Zeros(n))
  {
    for i := 0 to n
      invariant dst[..] == Overlay(old(dst[..]), at, Zeros(i))
    {
      dst[at + i] := 0;
    }
  }

  // ---------------------------------------------------------------- tables of parts

  /** Concatenation of the first n parts of a table. */
  function Join(parts: seq<seq<byte>>, n: nat): seq<byte>
    requires n <= |parts|
  {
    if n == 0 then [] else Join(parts, n - 1) + parts[n - 1]
  }

  function Flatten(parts: seq<seq<byte>>): seq<byte> {
    Join(parts, |parts|)
  }

  function Offset(parts: seq<seq<byte>>, i: nat): nat
    requires i <= |parts|
  {
    |Join(parts, i)|
  }

  ghost predicate SitsByte(whole: seq<byte>, at: nat, part: seq<byte>, k: nat) {
    k < |part| && at + k < |whole| && whole[at + k] == part[k]
  }

  /** `part` occupies `whole` from `at`. */
  ghost predicate Sits(whole: seq<byte>, at: nat, part: seq<byte>) {
    at + |part| <= |whole| && forall k :: 0 <= k < |part| ==> SitsByte(whole, at, part, k)
  }

  lemma {:induction false} SitsSlice(whole: seq<byte>, at: nat, part: seq<byte>)
    requires Sits(whole, at, part)
    ensures whole[at..at + |part|] == part
  {
    forall k | 0 <= k < |part|
      ensures whole[at..at + |part|][k] == part[k]
    {
      assert SitsByte(whole, at, part, k);
    }
  }

  lemma {:induction false} SitsWithin(a: seq<byte>, m: nat, b: seq<byte>, n: nat, c: seq<byte>)
    requires Sits(a, m, b) && Sits(b, n, c)
    ensures Sits(a, m + n, c)
  {
    var at := m + n;
    forall k | 0 <= k < |c|
      ensures SitsByte(a, at, c, k)
    {
      assert SitsByte(b, n, c, k) && SitsByte(a, m, b, n + k);
    }
  }

  lemma {:induction false} SitsBetween(a: seq<byte>, b: seq<byte>, c: seq<byte>)
    ensures Sits(a + b + c, |a|, b)
  {
  }

  lemma {:induction false} SitsInFront(a: seq<byte>, b: seq<byte>, n: nat, c: seq<byte>)
    requires Sits(a, n, c)
    ensures Sits(a + b, n, c)
  {
    forall k | 0 <= k < |c|
      ensures SitsByte(a + b, n, c, k)
    {
      assert SitsByte(a, n, c, k);
    }
  }

  lemma {:induction false} PartSits(parts: seq<seq<byte>>, n: nat, i: nat)
    requires i < n <= |parts|
    ensures Sits(Join(parts, n), Offset(parts, i), parts[i])
  {
    var init, last := Join(parts, n - 1), parts[n - 1];
    assert Join(parts, n) == init + last;
    if i < n - 1 {
      PartSits(parts, n - 1, i);
      SitsInFront(init, last, Offset(parts, i), parts[i]);
    } else {
      SitsBetween(init, last, []);
      assert init + last + [] == init + last;
    }
  }

  lemma {:induction false} PartAt(b: seq<byte>, at: nat, parts: seq<seq<byte>>, i: nat)
    requires Sits(b, at, Flatten(parts)) && i < |parts|
    ensures Sits(b, at + Offset(parts, i), parts[i])
  {
    var o, part := Offset(parts, i), parts[i];
    PartSits(parts, |parts|, i);
    SitsWithin(b, at, Flatten(parts), o, part);
  }

  /** A field of a record, read as a word where the fields before it end. */
  lemma {:induction false} FieldAt(b: seq<byte>, at: nat, parts: seq<seq<byte>>, i: nat, o: nat)
    requires Sits(b, at, Flatten(parts)) && i < |parts| && o == Offset(parts, i)
    ensures at + o + |parts[i]| <= |b|
    ensures |parts[i]| == 2 ==> U16(b, at + o) == Decode(parts[i])
    ensures |parts[i]| == 4 ==> U32(b, at + o) == Decode(parts[i])
    ensures |parts[i]| == 8 ==> U64(b, at + o) == Decode(parts[i])
  {
    PartAt(b, at, parts, i);
    SitsSlice(b, at + o, parts[i]);
  }

  // ---------------------------------------------------------------- C strings

  /** The NUL-terminated string at `at`; cut at the end of the buffer when nothing terminates it. */
  function CString(b: seq<byte>, at: nat): (s: seq<byte>)
    ensures 0 !in s
    decreases |b| - at
  {
    if at >= |b| || b[at] == 0 then [] else [b[at]] + CString(b, at + 1)
  }

  /** The bytes of a string constant of the program. */
  function Ascii(s: string): (b: seq<byte>)
    ensures |b| == |s|
    ensures forall i :: 0 <= i < |s| && s[i] < 128 as char ==> b[i] == s[i] as int
  {
    seq(|s|, i requires 0 <= i < |s| => s[i] as int % 256)
  }

  /** Reading at the place where a NUL-free string and its terminator lie gives the string back. */
  lemma {:induction false} CStringAt(b: seq<byte>, at: nat, s: seq<byte>)
    requires 0 !in s && at + |s| < |b|
    requires b[at..at + |s| + 1] == s + [0]
    ensures CString(b, at) == s
    decreases |s|
  {
    assert b[at] == (s + [0])[0];
    if s != [] {
      assert b[at + 1..at + |s| + 1] == s[1..] + [0] by {
        assert (s + [0])[1..] == s[1..] + [0];
      }
      CStringAt(b, at + 1, s[1..]);
    }
  }
}

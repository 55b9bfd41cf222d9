/** The loader at the start of the raw payload (src/bootstrap-bin.c): file tables, span, segment
    copies and R_X86_64_RELATIVE relocations. */
module ElfLoader {
  import opened Bytes

  const PAGE: nat := 0x4000
  const PT_LOAD: nat := 1
  const SHT_RELA: nat := 4
  const R_X86_64_RELATIVE: nat := 8

  datatype Phdr = Phdr(kind: nat, offset: u64, vaddr: u64, filesz: u64, memsz: u64)
  datatype Shdr = Shdr(kind: nat, offset: u64, size: u64)
  datatype Rela = Rela(offset: u64, info: u64, addend: u64)  // addend: the signed field as a 64-bit word

  // ---------------------------------------------------------------- the file

  predicate HasHeader(elf: seq<byte>) {
    |elf| >= 64
  }

  function Entry(elf: seq<byte>): u64
    requires HasHeader(elf)
  {
    U64(elf, 24)
  }

  function PhdrCount(elf: seq<byte>): nat
    requires HasHeader(elf)
  {
    U16(elf, 56)
  }

  function ShdrCount(elf: seq<byte>): nat
    requires HasHeader(elf)
  {
    U16(elf, 60)
  }

  function PhdrFrom(b: seq<byte>, at: nat): Phdr
    requires at + 56 <= |b|
  {
    Phdr(U32(b, at), U64(b, at + 8), U64(b, at + 16), U64(b, at + 32), U64(b, at + 40))
  }

  function ShdrFrom(b: seq<byte>, at: nat): Shdr
    requires at + 64 <= |b|
  {
    Shdr(U32(b, at + 4), U64(b, at + 24), U64(b, at + 32))
  }

  function PhdrAt(elf: seq<byte>, i: nat): Phdr
    requires HasHeader(elf) && U64(elf, 32) + 56 * (i + 1) <= |elf|
  {
    PhdrFrom(elf, U64(elf, 32) + 56 * i)
  }

  function ShdrAt(elf: seq<byte>, i: nat): Shdr
    requires HasHeader(elf) && U64(elf, 40) + 64 * (i + 1) <= |elf|
  {
    ShdrFrom(elf, U64(elf, 40) + 64 * i)
  }

  function RelaAt(elf: seq<byte>, at: nat): Rela
    requires at + 24 <= |elf|
  {
    Rela(U64(elf, at), U64(elf, at + 8), U64(elf, at + 16))
  }

  // ---- the C structs: fields in declaration order, with their widths

  const EHDR: seq<nat> := [16, 2, 2, 4, 8, 8, 8, 4, 2, 2, 2, 2, 2, 2]
  const PHDR: seq<nat> := [4, 4, 8, 8, 8, 8, 8, 8]
  const SHDR: seq<nat> := [4, 4, 8, 8, 8, 8, 4, 4, 8, 8]
  const RELA: seq<nat> := [8, 8, 8]

  /** The bytes at `at` are a struct with these fields. */
  ghost predicate Struct(b: seq<byte>, at: nat, fields: seq<seq<byte>>, widths: seq<nat>) {
    && |fields| == |widths| && (forall i :: 0 <= i < |fields| ==> |fields[i]| == widths[i])
    && Sits(b, at, Flatten(fields))
  }

  /** Where the i-th field of a struct begins. */
  function Place(widths: seq<nat>, i: nat): nat
    requires i <= |widths|
  {
    if i == 0 then 0 else Place(widths, i - 1) + widths[i - 1]
  }

  lemma {:induction false} PlaceIsOffset(b: seq<byte>, at: nat, fields: seq<seq<byte>>, widths: seq<nat>, i: nat)
    requires Struct(b, at, fields, widths) && i <= |fields|
    ensures Offset(fields, i) == Place(widths, i)
  {
    if i > 0 {
      PlaceIsOffset(b, at, fields, widths, i - 1);
    }
  }

  lemma {:induction false} StructField(b: seq<byte>, at: nat, fields: seq<seq<byte>>, widths: seq<nat>, i: nat, o: nat)
    requires Struct(b, at, fields, widths) && i < |fields| && o == Place(widths, i)
    ensures at + o + widths[i] <= |b|
    ensures widths[i] == 2 ==> U16(b, at + o) == Decode(fields[i])
    ensures widths[i] == 4 ==> U32(b, at + o) == Decode(fields[i])
    ensures widths[i] == 8 ==> U64(b, at + o) == Decode(fields[i])
  {
    PlaceIsOffset(b, at, fields, widths, i);
    FieldAt(b, at, fields, i, o);
  }

  /** Elf64_Phdr: p_type, p_flags, p_offset, p_vaddr, p_paddr, p_filesz, p_memsz, p_align. */
  lemma {:induction false} PhdrLayout(b: seq<byte>, at: nat, f: seq<seq<byte>>)
    requires Struct(b, at, f, PHDR)
    ensures at + 56 <= |b|
    ensures var h := PhdrFrom(b, at);
            && h.kind == Decode(f[0]) && h.offset == Decode(f[2]) && h.vaddr == Decode(f[3])
            && h.filesz == Decode(f[5]) && h.memsz == Decode(f[6])
  {
    StructField(b, at, f, PHDR, 0, 0);
    StructField(b, at, f, PHDR, 2, 8);
    StructField(b, at, f, PHDR, 3, 16);
    StructField(b, at, f, PHDR, 5, 32);
    StructField(b, at, f, PHDR, 6, 40);
    StructField(b, at, f, PHDR, 7, 48);
  }

  /** Elf64_Shdr: sh_name, sh_type, sh_flags, sh_addr, sh_offset, sh_size, sh_link, sh_info, ... */
  lemma {:induction false} ShdrLayout(b: seq<byte>, at: nat, f: seq<seq<byte>>)
    requires Struct(b, at, f, SHDR)
    ensures at + 64 <= |b|
    ensures var h := ShdrFrom(b, at); h.kind == Decode(f[1]) && h.offset == Decode(f[4]) && h.size == Decode(f[5])
  {
    StructField(b, at, f, SHDR, 1, 4);
    StructField(b, at, f, SHDR, 4, 24);
    StructField(b, at, f, SHDR, 5, 32);
    StructField(b, at, f, SHDR, 9, 56);
  }

  /** Elf64_Rela: r_offset, r_info, r_addend. */
  lemma {:induction false} RelaLayout(b: seq<byte>, at: nat, f: seq<seq<byte>>)
    requires Struct(b, at, f, RELA)
    ensures at + 24 <= |b|
    ensures var r := RelaAt(b, at); r.offset == Decode(f[0]) && r.info == Decode(f[1]) && r.addend == Decode(f[2])
  {
    StructField(b, at, f, RELA, 0, 0);
    StructField(b, at, f, RELA, 1, 8);
    StructField(b, at, f, RELA, 2, 16);
  }

  /** Elf64_Ehdr at the start of the file: e_entry, e_phoff, e_shoff, e_phnum and e_shnum. */
  lemma {:induction false} EhdrLayout(b: seq<byte>, f: seq<seq<byte>>)
    requires Struct(b, 0, f, EHDR)
    ensures HasHeader(b)
    ensures Entry(b) == Decode(f[4]) && U64(b, 32) == Decode(f[5]) && U64(b, 40) == Decode(f[6])
    ensures PhdrCount(b) == Decode(f[10]) && ShdrCount(b) == Decode(f[12])
  {
    StructField(b, 0, f, EHDR, 4, 24);
    StructField(b, 0, f, EHDR, 5, 32);
    StructField(b, 0, f, EHDR, 6, 40);
    StructField(b, 0, f, EHDR, 10, 56);
    StructField(b, 0, f, EHDR, 12, 60);
    StructField(b, 0, f, EHDR, 13, 62);
  }

  predicate Loads(h: Phdr) {
    h.kind == PT_LOAD && h.memsz != 0 && h.filesz != 0
  }

  predicate Relative(r: Rela) {
    r.info % TWO_32 == R_X86_64_RELATIVE
  }

  /** Every table and every range the loader reads lies inside the file. */
  ghost predicate WellFormed(elf: seq<byte>) {
    && HasHeader(elf)
    && U64(elf, 32) + 56 * PhdrCount(elf) <= |elf|
    && U64(elf, 40) + 64 * ShdrCount(elf) <= |elf|
    && (forall i :: 0 <= i < PhdrCount(elf) && Loads(PhdrAt(elf, i)) ==>
         PhdrAt(elf, i).offset + PhdrAt(elf, i).filesz <= |elf|)
    && (forall i :: 0 <= i < ShdrCount(elf) && ShdrAt(elf, i).kind == SHT_RELA ==>
         ShdrAt(elf, i).offset + ShdrAt(elf, i).size <= |elf|)
  }

  ghost function Phdrs(elf: seq<byte>): (hs: seq<Phdr>)
    requires WellFormed(elf)
    ensures |hs| == PhdrCount(elf)
  {
    seq(PhdrCount(elf), i requires 0 <= i < PhdrCount(elf) => PhdrAt(elf, i))
  }

  /** The first `n` entries of a relocation section. */
  ghost function SectionRelas(elf: seq<byte>, at: nat, n: nat): (rs: seq<Rela>)
    requires at + 24 * n <= |elf|
    ensures |rs| == n
  {
    seq(n, j requires 0 <= j < n => RelaAt(elf, at + 24 * j))
  }

  ghost function RelasOf(elf: seq<byte>, sh: Shdr): seq<Rela>
    requires sh.kind == SHT_RELA ==> sh.offset + sh.size <= |elf|
  {
    if sh.kind == SHT_RELA then SectionRelas(elf, sh.offset, sh.size / 24) else []
  }

  ghost predicate SectionsInFile(elf: seq<byte>, shs: seq<Shdr>) {
    forall i :: 0 <= i < |shs| && shs[i].kind == SHT_RELA ==> shs[i].offset + shs[i].size <= |elf|
  }

  /** The entries of the relocation sections among the first n, in file order. */
  ghost function RelasUpTo(elf: seq<byte>, shs: seq<Shdr>, n: nat): seq<Rela>
    requires SectionsInFile(elf, shs) && n <= |shs|
  {
    if n == 0 then [] else RelasUpTo(elf, shs, n - 1) + RelasOf(elf, shs[n - 1])
  }

  ghost function RelasIn(elf: seq<byte>, shs: seq<Shdr>): seq<Rela>
    requires SectionsInFile(elf, shs)
  {
    RelasUpTo(elf, shs, |shs|)
  }

  ghost function Shdrs(elf: seq<byte>): (shs: seq<Shdr>)
    requires WellFormed(elf)
    ensures |shs| == ShdrCount(elf) && SectionsInFile(elf, shs)
  {
    seq(ShdrCount(elf), i requires 0 <= i < ShdrCount(elf) => ShdrAt(elf, i))
  }

  ghost function Relas(elf: seq<byte>): seq<Rela>
    requires WellFormed(elf)
  {
    RelasIn(elf, Shdrs(elf))
  }

  // ---- where the tables lie

  /** Program header i lies at e_phoff + 56 * i, which is the size of the struct times i. */
  lemma {:induction false} PhdrsLayout(elf: seq<byte>, i: nat, f: seq<seq<byte>>)
    requires WellFormed(elf) && i < |Phdrs(elf)| && Struct(elf, U64(elf, 32) + 56 * i, f, PHDR)
    ensures |Phdrs(elf)| == U16(elf, 56)
    ensures var h := Phdrs(elf)[i];
            && h.kind == Decode(f[0]) && h.offset == Decode(f[2]) && h.vaddr == Decode(f[3])
            && h.filesz == Decode(f[5]) && h.memsz == Decode(f[6])
  {
    PhdrLayout(elf, U64(elf, 32) + 56 * i, f);
  }

  /** Section header i lies at e_shoff + 64 * i. */
  lemma {:induction false} ShdrsLayout(elf: seq<byte>, i: nat, f: seq<seq<byte>>)
    requires WellFormed(elf) && i < |Shdrs(elf)| && Struct(elf, U64(elf, 40) + 64 * i, f, SHDR)
    ensures |Shdrs(elf)| == U16(elf, 60)
    ensures var h := Shdrs(elf)[i]; h.kind == Decode(f[1]) && h.offset == Decode(f[4]) && h.size == Decode(f[5])
  {
    ShdrLayout(elf, U64(elf, 40) + 64 * i, f);
  }

  /** Number of relocation entries of the first n sections: those of type 4 hold one per 24 bytes. */
  ghost function EntriesBefore(shs: seq<Shdr>, n: nat): nat
    requires n <= |shs|
  {
    if n == 0 then 0 else EntriesBefore(shs, n - 1) + if shs[n - 1].kind == 4 then shs[n - 1].size / 24 else 0
  }

  lemma {:induction false} EntryCount(elf: seq<byte>, shs: seq<Shdr>, n: nat)
    requires SectionsInFile(elf, shs) && n <= |shs|
    ensures |RelasUpTo(elf, shs, n)| == EntriesBefore(shs, n)
  {
    if n > 0 {
      EntryCount(elf, shs, n - 1);
    }
  }

  lemma {:induction false} EntryOfSection(elf: seq<byte>, sh: Shdr, m: nat)
    requires sh.kind == 4 && sh.offset + sh.size <= |elf| && m < sh.size / 24
    ensures m < |RelasOf(elf, sh)| && sh.offset + 24 * m + 24 <= |elf|
    ensures RelasOf(elf, sh)[m] == RelaAt(elf, sh.offset + 24 * m)
  {
  }

  ghost function Concat(parts: seq<seq<Rela>>, n: nat): seq<Rela>
    requires n <= |parts|
  {
    if n == 0 then [] else Concat(parts, n - 1) + parts[n - 1]
  }

  lemma {:induction false} ConcatPlace(parts: seq<seq<Rela>>, n: nat, j: nat, m: nat)
    requires j < n <= |parts| && m < |parts[j]|
    ensures var place := |Concat(parts, j)| + m;
            place < |Concat(parts, n)| && Concat(parts, n)[place] == parts[j][m]
    decreases n
  {
    var k := n - 1;
    if j < k {
      ConcatPlace(parts, k, j, m);
    }
  }

  ghost function PartsOf(elf: seq<byte>, shs: seq<Shdr>): (parts: seq<seq<Rela>>)
    requires SectionsInFile(elf, shs)
    ensures |parts| == |shs|
  {
    seq(|shs|, i requires 0 <= i < |shs| => RelasOf(elf, shs[i]))
  }

  lemma {:induction false} RelasAreConcat(elf: seq<byte>, shs: seq<Shdr>, n: nat)
    requires SectionsInFile(elf, shs) && n <= |shs|
    ensures RelasUpTo(elf, shs, n) == Concat(PartsOf(elf, shs), n)
  {
    if n > 0 {
      RelasAreConcat(elf, shs, n - 1);
    }
  }

  lemma {:induction false} SectionPlace(elf: seq<byte>, shs: seq<Shdr>, j: nat, m: nat)
    requires SectionsInFile(elf, shs) && j < |shs| && m < |RelasOf(elf, shs[j])|
    ensures EntriesBefore(shs, j) + m < |RelasIn(elf, shs)|
    ensures RelasIn(elf, shs)[EntriesBefore(shs, j) + m] == RelasOf(elf, shs[j])[m]
  {
    var parts := PartsOf(elf, shs);
    EntryCount(elf, shs, j);
    RelasAreConcat(elf, shs, j);
    RelasAreConcat(elf, shs, |shs|);
    assert parts[j] == RelasOf(elf, shs[j]);
    ConcatPlace(parts, |shs|, j, m);
  }

  lemma {:induction false} EntryPlace(elf: seq<byte>, shs: seq<Shdr>, j: nat, m: nat)
    requires SectionsInFile(elf, shs) && j < |shs| && shs[j].kind == 4 && m < shs[j].size / 24
    ensures shs[j].offset + 24 * m + 24 <= |elf| && EntriesBefore(shs, j) + m < |RelasIn(elf, shs)|
    ensures RelasIn(elf, shs)[EntriesBefore(shs, j) + m] == RelaAt(elf, shs[j].offset + 24 * m)
  {
    EntryOfSection(elf, shs[j], m);
    SectionPlace(elf, shs, j, m);
  }

  /** Entry m of relocation section j comes after those of the sections before, and lies at the section's
      offset + 24 * m. */
  lemma {:induction false} RelasLayout(elf: seq<byte>, j: nat, m: nat, f: seq<seq<byte>>)
    requires WellFormed(elf) && j < |Shdrs(elf)| && Shdrs(elf)[j].kind == 4 && m < Shdrs(elf)[j].size / 24
    requires Struct(elf, Shdrs(elf)[j].offset + 24 * m, f, RELA)
    ensures var shs, rs := Shdrs(elf), Relas(elf);
            && |rs| == EntriesBefore(shs, |shs|) && EntriesBefore(shs, j) + m < |rs|
            && var r := rs[EntriesBefore(shs, j) + m];
               r.offset == Decode(f[0]) && r.info == Decode(f[1]) && r.addend == Decode(f[2])
  {
    var shs := Shdrs(elf);
    EntryCount(elf, shs, |shs|);
    EntryPlace(elf, shs, j, m);
    RelaLayout(elf, shs[j].offset + 24 * m, f);
  }

  // ---------------------------------------------------------------- the address span

  function TruncPage(x: nat): (r: nat)
    ensures r <= x < r + PAGE && r % PAGE == 0
  {
    x - x % PAGE
  }

  /** ROUND_PG on a 64-bit value: the addition wraps before the mask is applied. */
  function RoundPage(x: u64): (r: u64)
    ensures x + PAGE <= TWO_64 ==> x <= r < x + PAGE && r % PAGE == 0
    ensures x + PAGE > TWO_64 ==> r == 0
  {
    TruncPage(Add64(x, PAGE - 1))
  }

  /** The C mask ~(PAGE_SIZE - 1), sign-extended to 64 bits, subtracts the remainder. */
  lemma {:induction false} MaskIsTruncation(x: bv64)
    ensures x & 0xFFFF_FFFF_FFFF_C000 == x - x % 0x4000
  {
  }

  /** TRUNC_PG and ROUND_PG, with the page size as a number: the greatest multiple not above, and the
      least not below while nothing wraps. */
  lemma {:induction false} PagesAre(x: u64)
    ensures TruncPage(x) == x - x % 0x4000
    ensures x <= 0xFFFF_FFFF_FFFF_C000 ==> RoundPage(x) == (x + 0x3FFF) - (x + 0x3FFF) % 0x4000
    ensures x > 0xFFFF_FFFF_FFFF_C000 ==> RoundPage(x) == 0
  {
  }

  function End(h: Phdr): u64 {
    Add64(h.vaddr, h.memsz)
  }

  /** The scan's running minimum starts at the largest unsigned long. */
  ghost function MinVaddr(hs: seq<Phdr>): (m: u64)
    ensures forall i :: 0 <= i < |hs| ==> m <= hs[i].vaddr
    ensures hs != [] ==> exists i :: 0 <= i < |hs| && m == hs[i].vaddr
    ensures hs == [] ==> m == TWO_64 - 1
  {
    if hs == [] then TWO_64 - 1
    else
      var m, v := MinVaddr(hs[..|hs| - 1]), hs[|hs| - 1].vaddr;
      if v < m then v else m
  }

  ghost function MaxEnd(hs: seq<Phdr>): (m: u64)
    ensures forall i :: 0 <= i < |hs| ==> End(hs[i]) <= m
    ensures m == 0 || exists i :: 0 <= i < |hs| && m == End(hs[i])
  {
    if hs == [] then 0
    else
      var m, e := MaxEnd(hs[..|hs| - 1]), End(hs[|hs| - 1]);
      if m < e then e else m
  }

  ghost function Low(hs: seq<Phdr>): u64 {
    TruncPage(MinVaddr(hs))
  }

  ghost function High(hs: seq<Phdr>): u64 {
    RoundPage(MaxEnd(hs))
  }

  ghost function ImageSize(hs: seq<Phdr>): u64 {
    Sub64(High(hs), Low(hs))
  }

  /** No header's end, rounded up to a page, leaves the 64-bit address space. */
  ghost predicate NoWrap(hs: seq<Phdr>) {
    forall i :: 0 <= i < |hs| ==> hs[i].vaddr + hs[i].memsz + PAGE <= TWO_64
  }

  ghost predicate Spans(lo: int, hi: int, hs: seq<Phdr>) {
    forall i :: 0 <= i < |hs| ==> lo <= hs[i].vaddr && hs[i].vaddr + hs[i].memsz <= hi
  }

  /** The masked bounds cover every header exactly when nothing wraps around 2^64.
      A header at address 0 with no memory has nothing to cover. */
  lemma {:induction false} SpanCoversExactly(hs: seq<Phdr>)
    ensures Spans(Low(hs), High(hs), hs) <==> NoWrap(hs)
  {
  }

  lemma {:induction false} MaxEndFits(hs: seq<Phdr>)
    requires NoWrap(hs)
    ensures MaxEnd(hs) + PAGE <= TWO_64
  {
  }

  lemma {:induction false} SizeIsPlain(hs: seq<Phdr>)
    requires hs != [] && NoWrap(hs)
    ensures Low(hs) <= MinVaddr(hs) <= MaxEnd(hs) <= High(hs)
    ensures ImageSize(hs) == High(hs) - Low(hs)
  {
    MaxEndFits(hs);
  }

  lemma {:induction false} AlignedBelow(a: int, b: int, x: int)
    requires a % PAGE == 0 && b % PAGE == 0 && a <= x < b + PAGE
    ensures a <= b
  {
  }

  lemma {:induction false} AlignedAbove(x: int, b: int, a: int)
    requires a % PAGE == 0 && b % PAGE == 0 && b - PAGE < x <= a
    ensures b <= a
  {
  }

  lemma {:induction false} EnclosingBounds(hs: seq<Phdr>, lo: int, hi: int)
    requires hs != [] && NoWrap(hs) && lo % PAGE == 0 && hi % PAGE == 0 && Spans(lo, hi, hs)
    ensures lo <= Low(hs) && High(hs) <= hi
  {
    SizeIsPlain(hs);
    MaxEndFits(hs);
    var low: int, top: int, high: int := Low(hs), MaxEnd(hs), High(hs);
    AlignedBelow(lo, low, MinVaddr(hs));
    AlignedAbove(top, high, hi);
  }

  /** The mapped span is the least page-aligned interval around the headers, with less than two
      pages of slack around the tight one. */
  lemma {:induction false} SpanIsLeast(hs: seq<Phdr>)
    requires hs != [] && NoWrap(hs)
    ensures Low(hs) % PAGE == 0 && High(hs) % PAGE == 0 && Spans(Low(hs), High(hs), hs)
    ensures forall lo, hi | lo % PAGE == 0 && hi % PAGE == 0 && Spans(lo, hi, hs) ::
              lo <= Low(hs) && High(hs) <= hi
    ensures ImageSize(hs) == High(hs) - Low(hs) < (MaxEnd(hs) - MinVaddr(hs)) + 2 * PAGE
  {
    SizeIsPlain(hs);
    MaxEndFits(hs);
    SpanCoversExactly(hs);
    forall lo, hi | lo % PAGE == 0 && hi % PAGE == 0 && Spans(lo, hi, hs)
      ensures lo <= Low(hs) && High(hs) <= hi
    {
      EnclosingBounds(hs, lo, hi);
    }
  }

  // ---------------------------------------------------------------- what the image holds

  predicate InFile(elf: seq<byte>, h: Phdr) {
    Loads(h) ==> h.offset + h.filesz <= |elf|
  }

  function FileBytes(elf: seq<byte>, h: Phdr): (d: seq<byte>)
    requires h.offset + h.filesz <= |elf|
    ensures |d| == h.filesz && forall k :: 0 <= k < h.filesz ==> d[k] == elf[h.offset + k]
  {
    elf[h.offset..h.offset + h.filesz]
  }

  ghost predicate SegmentsFit(elf: seq<byte>, hs: seq<Phdr>, n: nat) {
    forall i :: 0 <= i < |hs| ==> InFile(elf, hs[i]) && (Loads(hs[i]) ==> hs[i].vaddr + hs[i].filesz <= n)
  }

  ghost predicate SlotsFit(rs: seq<Rela>, n: nat) {
    forall i :: 0 <= i < |rs| && Relative(rs[i]) ==> rs[i].offset + 8 <= n
  }

  /** The segment pass over an image: the first n headers, in order. */
  ghost function CopiedUpTo(img: seq<byte>, elf: seq<byte>, hs: seq<Phdr>, n: nat): (r: seq<byte>)
    requires SegmentsFit(elf, hs, |img|) && n <= |hs|
    ensures |r| == |img|
  {
    if n == 0 then img
    else
      var h, before := hs[n - 1], CopiedUpTo(img, elf, hs, n - 1);
      if Loads(h) then Overlay(before, h.vaddr, FileBytes(elf, h)) else before
  }

  ghost function Copied(img: seq<byte>, elf: seq<byte>, hs: seq<Phdr>): (r: seq<byte>)
    requires SegmentsFit(elf, hs, |img|)
    ensures |r| == |img|
  {
    CopiedUpTo(img, elf, hs, |hs|)
  }

  /** The 8 bytes stored for an entry: base + addend modulo 2^64. */
  function Patch(r: Rela, base: u64): (s: seq<byte>)
    ensures |s| == 8
  {
    Encode(Add64(base, r.addend), 8)
  }

  /** The relocation pass over an image, entry by entry. */
  ghost function Relocated(img: seq<byte>, rs: seq<Rela>, base: u64): (r: seq<byte>)
    requires SlotsFit(rs, |img|)
    ensures |r| == |img|
  {
    if rs == [] then img
    else
      var e := rs[|rs| - 1];
      var before := Relocated(img, rs[..|rs| - 1], base);
      if Relative(e) then Overlay(before, e.offset, Patch(e, base)) else before
  }

  ghost predicate Fits(elf: seq<byte>, hs: seq<Phdr>, rs: seq<Rela>, size: nat) {
    SegmentsFit(elf, hs, size) && SlotsFit(rs, size)
  }

  /** The image of given headers and relocation entries in a mapping at `base`. */
  ghost function Loaded(elf: seq<byte>, hs: seq<Phdr>, rs: seq<Rela>, size: nat, base: u64): (img: seq<byte>)
    requires Fits(elf, hs, rs, size)
    ensures |img| == size
  {
    Relocated(Copied(Zeros(size), elf, hs), rs, base)
  }

  ghost predicate Loadable(elf: seq<byte>) {
    WellFormed(elf) && Fits(elf, Phdrs(elf), Relas(elf), ImageSize(Phdrs(elf)))
  }

  // ---------------------------------------------------------------- byte-level reference

  predicate SegmentCovers(h: Phdr, k: int) {
    Loads(h) && h.vaddr <= k < h.vaddr + h.filesz
  }

  predicate SlotCovers(r: Rela, k: int) {
    Relative(r) && r.offset <= k < r.offset + 8
  }

  /** The last of the first n headers whose copy reaches byte k, or -1. */
  ghost function LastSegmentUpTo(hs: seq<Phdr>, n: nat, k: int): (i: int)
    requires n <= |hs|
    ensures -1 <= i < n
    ensures i >= 0 ==> SegmentCovers(hs[i], k)
    ensures forall j :: i < j < n ==> !SegmentCovers(hs[j], k)
  {
    if n == 0 then -1
    else if SegmentCovers(hs[n - 1], k) then n - 1
    else LastSegmentUpTo(hs, n - 1, k)
  }

  ghost function LastSegment(hs: seq<Phdr>, k: int): (i: int)
    ensures -1 <= i < |hs|
    ensures i >= 0 ==> SegmentCovers(hs[i], k)
    ensures forall j :: i < j < |hs| ==> !SegmentCovers(hs[j], k)
  {
    LastSegmentUpTo(hs, |hs|, k)
  }

  /** The last relative entry whose slot reaches byte k, or -1. */
  ghost function LastSlot(rs: seq<Rela>, k: int): (i: int)
    ensures -1 <= i < |rs|
    ensures i >= 0 ==> SlotCovers(rs[i], k)
    ensures forall j :: 0 <= j < |rs| && j > i ==> !SlotCovers(rs[j], k)
  {
    if rs == [] then -1
    else if SlotCovers(rs[|rs| - 1], k) then |rs| - 1
    else LastSlot(rs[..|rs| - 1], k)
  }

  lemma {:induction false} CopiedByte(img: seq<byte>, elf: seq<byte>, hs: seq<Phdr>, n: nat, k: nat)
    requires SegmentsFit(elf, hs, |img|) && n <= |hs| && k < |img|
    ensures var i := LastSegmentUpTo(hs, n, k);
            CopiedUpTo(img, elf, hs, n)[k] == if i < 0 then img[k] else elf[hs[i].offset + (k - hs[i].vaddr)]
  {
    if n > 0 {
      CopiedByte(img, elf, hs, n - 1, k);
    }
  }

  lemma {:induction false} RelocatedByte(img: seq<byte>, rs: seq<Rela>, base: u64, k: nat)
    requires SlotsFit(rs, |img|) && k < |img|
    ensures var i := LastSlot(rs, k);
            Relocated(img, rs, base)[k] == if i < 0 then img[k] else Patch(rs[i], base)[k - rs[i].offset]
  {
    if rs != [] {
      RelocatedByte(img, rs[..|rs| - 1], base, k);
    }
  }

  /** Loader refinement: every byte comes from the last relocation over it, else from the last
      non-empty PT_LOAD copy over it, else it is zero. */
  lemma {:induction false} LoadedByte(elf: seq<byte>, hs: seq<Phdr>, rs: seq<Rela>, size: nat, base: u64, k: nat)
    requires Fits(elf, hs, rs, size) && k < size
    ensures var s, r := LastSegment(hs, k), LastSlot(rs, k);
            Loaded(elf, hs, rs, size, base)[k] ==
              if r >= 0 then Patch(rs[r], base)[k - rs[r].offset]
              else if s >= 0 then elf[hs[s].offset + (k - hs[s].vaddr)]
              else 0
  {
    CopiedByte(Zeros(size), elf, hs, |hs|, k);
    RelocatedByte(Copied(Zeros(size), elf, hs), rs, base, k);
  }

  /** The memory tail of a header, past its file bytes, is zero where nothing else is placed. */
  lemma {:induction false} MemoryTailIsZero(
    elf: seq<byte>, hs: seq<Phdr>, rs: seq<Rela>, size: nat, base: u64, i: nat, k: nat)
    requires Fits(elf, hs, rs, size) && i < |hs| && k < size
    requires hs[i].vaddr + hs[i].filesz <= k < hs[i].vaddr + hs[i].memsz
    requires forall j :: 0 <= j < |hs| && j != i ==> !SegmentCovers(hs[j], k)
    requires forall j :: 0 <= j < |rs| ==> !SlotCovers(rs[j], k)
    ensures Loaded(elf, hs, rs, size, base)[k] == 0
  {
    LoadedByte(elf, hs, rs, size, base, k);
  }

  // ---- the same, spelled out

  lemma {:induction false} SlotCoversItself(rs: seq<Rela>, j: nat, k: nat)
    requires j < |rs| && rs[j].info % 0x1_0000_0000 == 8 && rs[j].offset <= k < rs[j].offset + 8
    requires forall i :: j < i < |rs| && rs[i].info % 0x1_0000_0000 == 8 ==>
               rs[i].offset + 8 <= rs[j].offset || rs[j].offset + 8 <= rs[i].offset
    ensures LastSlot(rs, k) == j
  {
    assert SlotCovers(rs[j], k);
    forall i | j < i < |rs|
      ensures !SlotCovers(rs[i], k)
    {
    }
  }

  /** The slot of a relative entry (type 8) that no later one touches holds base + addend. */
  lemma {:induction false} SlotIs(elf: seq<byte>, hs: seq<Phdr>, rs: seq<Rela>, size: nat, base: u64, j: nat)
    requires Fits(elf, hs, rs, size) && j < |rs| && rs[j].info % 0x1_0000_0000 == 8
    requires forall i :: j < i < |rs| && rs[i].info % 0x1_0000_0000 == 8 ==>
               rs[i].offset + 8 <= rs[j].offset || rs[j].offset + 8 <= rs[i].offset
    ensures rs[j].offset + 8 <= size
    ensures Decode(Loaded(elf, hs, rs, size, base)[rs[j].offset..rs[j].offset + 8]) ==
              if base + rs[j].addend < 0x1_0000_0000_0000_0000 then base + rs[j].addend
              else base + rs[j].addend - 0x1_0000_0000_0000_0000
  {
    var at, img := rs[j].offset, Copied(Zeros(size), elf, hs);
    assert Relative(rs[j]);
    forall t | 0 <= t < 8
      ensures Relocated(img, rs, base)[at + t] == Patch(rs[j], base)[t]
    {
      SlotCoversItself(rs, j, at + t);
      RelocatedByte(img, rs, base, at + t);
    }
    assert Relocated(img, rs, base)[at..at + 8] == Patch(rs[j], base);
    Widths();
    WordRoundTrip(Add64(base, rs[j].addend), 8);
  }

  lemma {:induction false} NoSlot(rs: seq<Rela>, k: nat)
    requires forall j :: 0 <= j < |rs| && rs[j].info % 0x1_0000_0000 == 8 ==>
               k < rs[j].offset || rs[j].offset + 8 <= k
    ensures LastSlot(rs, k) < 0
  {
    forall j | 0 <= j < |rs|
      ensures !SlotCovers(rs[j], k)
    {
    }
  }

  /** Away from all slots, a byte is the file's, at the place the last header over it says: one of type 1
      that has bytes in memory and in the file. */
  lemma {:induction false} SegmentByteIs(
    elf: seq<byte>, hs: seq<Phdr>, rs: seq<Rela>, size: nat, base: u64, i: nat, k: nat)
    requires Fits(elf, hs, rs, size) && i < |hs| && k < size
    requires hs[i].kind == 1 && hs[i].memsz > 0 && hs[i].vaddr <= k < hs[i].vaddr + hs[i].filesz
    requires forall j :: i < j < |hs| && hs[j].kind == 1 && hs[j].memsz > 0 ==>
               k < hs[j].vaddr || hs[j].vaddr + hs[j].filesz <= k
    requires forall j :: 0 <= j < |rs| && rs[j].info % 0x1_0000_0000 == 8 ==>
               k < rs[j].offset || rs[j].offset + 8 <= k
    ensures var o := hs[i].offset + (k - hs[i].vaddr); o < |elf| && Loaded(elf, hs, rs, size, base)[k] == elf[o]
  {
    LoadedByte(elf, hs, rs, size, base, k);
    NoSlot(rs, k);
    assert SegmentCovers(hs[i], k);
    forall j | i < j < |hs|
      ensures !SegmentCovers(hs[j], k)
    {
    }
  }

  /** Away from all slots and headers, it is zero. */
  lemma {:induction false} OtherByteIs(elf: seq<byte>, hs: seq<Phdr>, rs: seq<Rela>, size: nat, base: u64, k: nat)
    requires Fits(elf, hs, rs, size) && k < size
    requires forall j :: 0 <= j < |hs| && hs[j].kind == 1 && hs[j].memsz > 0 ==>
               k < hs[j].vaddr || hs[j].vaddr + hs[j].filesz <= k
    requires forall j :: 0 <= j < |rs| && rs[j].info % 0x1_0000_0000 == 8 ==>
               k < rs[j].offset || rs[j].offset + 8 <= k
    ensures Loaded(elf, hs, rs, size, base)[k] == 0
  {
    LoadedByte(elf, hs, rs, size, base, k);
    NoSlot(rs, k);
    forall j | 0 <= j < |hs|
      ensures !SegmentCovers(hs[j], k)
    {
    }
  }

  // ---------------------------------------------------------------- algebra of the relocation pass

  lemma {:induction false} FitParts(a: seq<Rela>, b: seq<Rela>, n: nat)
    ensures SlotsFit(a + b, n) <==> SlotsFit(a, n) && SlotsFit(b, n)
  {
    var c := a + b;
    assert forall i :: 0 <= i < |a| ==> a[i] == c[i];
    assert forall i :: 0 <= i < |b| ==> b[i] == c[|a| + i];
  }

  lemma {:induction false} RelocatedAppend(img: seq<byte>, a: seq<Rela>, b: seq<Rela>, base: u64)
    requires SlotsFit(a + b, |img|)
    ensures SlotsFit(a, |img|) && SlotsFit(b, |img|)
    ensures Relocated(img, a + b, base) == Relocated(Relocated(img, a, base), b, base)
  {
    FitParts(a, b, |img|);
    if b == [] {
      assert a + b == a;
    } else {
      assert (a + b)[..|a + b| - 1] == a + b[..|b| - 1];
      RelocatedAppend(img, a, b[..|b| - 1], base);
    }
  }

  /** Running the pass again changes nothing, even when slots overlap: every value comes from the
      file, none from the image. */
  lemma {:induction false} RelocationIsIdempotent(img: seq<byte>, rs: seq<Rela>, base: u64)
    requires SlotsFit(rs, |img|)
    ensures Relocated(Relocated(img, rs, base), rs, base) == Relocated(img, rs, base)
  {
    var once := Relocated(img, rs, base);
    var twice := Relocated(once, rs, base);
    forall k | 0 <= k < |img|
      ensures twice[k] == once[k]
    {
      RelocatedByte(img, rs, base, k);
      RelocatedByte(once, rs, base, k);
    }
  }

  /** Two section headers in a row over the same entries act like one. */
  lemma {:induction false} RepeatedSectionIsHarmless(
    img: seq<byte>, a: seq<Rela>, b: seq<Rela>, c: seq<Rela>, base: u64)
    requires SlotsFit(a + b + c, |img|)
    ensures SlotsFit(a + b + b + c, |img|)
    ensures Relocated(img, a + b + b + c, base) == Relocated(img, a + b + c, base)
  {
    FitParts(a + b, c, |img|);
    FitParts(a, b, |img|);
    FitParts(a + b, b, |img|);
    FitParts(a + b + b, c, |img|);
    RelocatedAppend(img, a + b + b, c, base);
    RelocatedAppend(img, a + b, b, base);
    RelocatedAppend(img, a, b, base);
    RelocatedAppend(img, a + b, c, base);
    RelocationIsIdempotent(Relocated(img, a, base), b, base);
  }

  lemma {:induction false} SectionsOfParts(elf: seq<byte>, a: seq<Shdr>, b: seq<Shdr>)
    ensures SectionsInFile(elf, a + b) <==> SectionsInFile(elf, a) && SectionsInFile(elf, b)
  {
    assert forall i :: 0 <= i < |a| ==> a[i] == (a + b)[i];
    assert forall i :: 0 <= i < |b| ==> b[i] == (a + b)[|a| + i];
  }

  lemma {:induction false} RelasOfPrefix(elf: seq<byte>, a: seq<Shdr>, b: seq<Shdr>, n: nat)
    requires SectionsInFile(elf, a) && SectionsInFile(elf, a + b) && n <= |a|
    ensures RelasUpTo(elf, a + b, n) == RelasUpTo(elf, a, n)
  {
    if n > 0 {
      RelasOfPrefix(elf, a, b, n - 1);
    }
  }

  lemma {:induction false} RelasAppend(elf: seq<byte>, a: seq<Shdr>, b: seq<Shdr>, c: seq<Shdr>, n: nat, m: nat)
    requires SectionsInFile(elf, a) && SectionsInFile(elf, b) && SectionsInFile(elf, c)
    requires c == a + b && n <= |b| && m == |a| + n
    ensures RelasUpTo(elf, c, m) == RelasIn(elf, a) + RelasUpTo(elf, b, n)
    decreases n
  {
    if n == 0 {
      RelasOfPrefix(elf, a, b, |a|);
    } else {
      var n', m' := n - 1, m - 1;
      RelasAppend(elf, a, b, c, n', m');
      var s := c[m'];
      assert b[n'] == s;
      assert RelasUpTo(elf, c, m) == RelasUpTo(elf, c, m') + RelasOf(elf, s);
      assert RelasUpTo(elf, b, n) == RelasUpTo(elf, b, n') + RelasOf(elf, s);
    }
  }

  lemma {:induction false} JoinSections(elf: seq<byte>, a: seq<Shdr>, b: seq<Shdr>, size: nat)
    requires SectionsInFile(elf, a) && SectionsInFile(elf, b)
    requires SlotsFit(RelasIn(elf, a), size) && SlotsFit(RelasIn(elf, b), size)
    ensures SectionsInFile(elf, a + b) && RelasIn(elf, a + b) == RelasIn(elf, a) + RelasIn(elf, b)
    ensures SlotsFit(RelasIn(elf, a + b), size)
  {
    SectionsOfParts(elf, a, b);
    RelasAppend(elf, a, b, a + b, |b|, |a + b|);
    FitParts(RelasIn(elf, a), RelasIn(elf, b), size);
  }

  /** The same table reached through two section headers in a row is applied as if reached once. */
  lemma {:induction false} RepeatedHeaderIsHarmless(
    elf: seq<byte>, a: seq<Shdr>, s: Shdr, b: seq<Shdr>, img: seq<byte>, base: u64)
    requires SectionsInFile(elf, a) && SectionsInFile(elf, [s]) && SectionsInFile(elf, b)
    requires SlotsFit(RelasIn(elf, a), |img|) && SlotsFit(RelasIn(elf, [s]), |img|) && SlotsFit(RelasIn(elf, b), |img|)
    ensures SectionsInFile(elf, a + [s] + b) && SectionsInFile(elf, a + [s] + [s] + b)
    ensures SlotsFit(RelasIn(elf, a + [s] + b), |img|) && SlotsFit(RelasIn(elf, a + [s] + [s] + b), |img|)
    ensures Relocated(img, RelasIn(elf, a + [s] + [s] + b), base) == Relocated(img, RelasIn(elf, a + [s] + b), base)
  {
    var ra, rs, rb := RelasIn(elf, a), RelasIn(elf, [s]), RelasIn(elf, b);
    JoinSections(elf, a, [s], |img|);
    JoinSections(elf, a + [s], b, |img|);
    JoinSections(elf, a + [s], [s], |img|);
    JoinSections(elf, a + [s] + [s], b, |img|);
    RepeatedSectionIsHarmless(img, ra, rs, rb, base);
  }

  /** Distinct relative entries never share a byte. */
  ghost predicate Disjoint(rs: seq<Rela>) {
    forall x, y :: x in rs && y in rs && Relative(x) && Relative(y) && x != y ==>
      x.offset + 8 <= y.offset || y.offset + 8 <= x.offset
  }

  /** With disjoint slots the image does not depend on the order of sections and entries. */
  lemma {:induction false} RelocationOrderIsIrrelevant(img: seq<byte>, rs: seq<Rela>, rs': seq<Rela>, base: u64)
    requires SlotsFit(rs, |img|) && Disjoint(rs)
    requires forall r :: r in rs <==> r in rs'
    ensures SlotsFit(rs', |img|) && Relocated(img, rs', base) == Relocated(img, rs, base)
  {
    assert forall i :: 0 <= i < |rs'| ==> rs'[i] in rs;
    var one, two := Relocated(img, rs, base), Relocated(img, rs', base);
    forall k | 0 <= k < |img|
      ensures two[k] == one[k]
    {
      RelocatedByte(img, rs, base, k);
      RelocatedByte(img, rs', base, k);
      var i, i' := LastSlot(rs, k), LastSlot(rs', k);
      if i >= 0 {
        assert rs[i] in rs';
      }
      if i' >= 0 {
        assert rs'[i'] in rs;
      }
    }
  }

  // ---------------------------------------------------------------- rebasing

  ghost predicate Intact(rs: seq<Rela>, at: u64, t: nat) {
    var j := LastSlot(rs, at + t);
    j >= 0 && rs[j].offset == at
  }

  /** Every byte of every slot was last written at that slot's own offset: no slot is torn by a
      later one that overlaps it partly. */
  ghost predicate NoTornSlot(rs: seq<Rela>) {
    forall i, t :: 0 <= i < |rs| && Relative(rs[i]) && 0 <= t < 8 ==> Intact(rs, rs[i].offset, t)
  }

  function Word(img: seq<byte>, at: nat): u64
    requires at + 8 <= |img|
  {
    U64(img, at)
  }

  /** Moving the image from b1 to b2 moves the word of entry i by exactly b2 - b1. */
  ghost predicate MovesWith(img: seq<byte>, rs: seq<Rela>, i: nat, b1: u64, b2: u64)
    requires SlotsFit(rs, |img|) && i < |rs| && Relative(rs[i])
  {
    var at := rs[i].offset;
    Sub64(Word(Relocated(img, rs, b2), at), Word(Relocated(img, rs, b1), at)) == Sub64(b2, b1)
  }

  ghost predicate Rebases(img: seq<byte>, rs: seq<Rela>)
    requires SlotsFit(rs, |img|)
  {
    forall i, b1: u64, b2: u64 :: 0 <= i < |rs| && Relative(rs[i]) ==> MovesWith(img, rs, i, b1, b2)
  }

  /** An intact slot holds base + addend of one entry. */
  lemma {:induction false} IntactWord(img: seq<byte>, rs: seq<Rela>, at: u64, base: u64) returns (j: nat)
    requires SlotsFit(rs, |img|) && at + 8 <= |img|
    requires forall t :: 0 <= t < 8 ==> Intact(rs, at, t)
    ensures j == LastSlot(rs, at) && 0 <= j < |rs|
    ensures Word(Relocated(img, rs, base), at) == Add64(base, rs[j].addend)
  {
    assert Intact(rs, at, 0);
    j := LastSlot(rs, at);
    var out := Relocated(img, rs, base);
    forall t | 0 <= t < 8
      ensures out[at + t] == Patch(rs[j], base)[t]
    {
      assert Intact(rs, at, t);
      var j' := LastSlot(rs, at + t);
      assert SlotCovers(rs[j], at + t) && SlotCovers(rs[j'], at);
      RelocatedByte(img, rs, base, at + t);
    }
    assert out[at..at + 8] == Patch(rs[j], base);
    Widths();
    WordRoundTrip(Add64(base, rs[j].addend), 8);
  }

  lemma {:induction false} NoTornSlotRebases(img: seq<byte>, rs: seq<Rela>, i: nat, b1: u64, b2: u64)
    requires SlotsFit(rs, |img|) && NoTornSlot(rs) && i < |rs| && Relative(rs[i])
    ensures MovesWith(img, rs, i, b1, b2)
  {
    var at := rs[i].offset;
    var j1 := IntactWord(img, rs, at, b1);
    var j2 := IntactWord(img, rs, at, b2);
  }

  /** One byte of a slot: byte t of its word is byte q of the value of the entry last over it. */
  lemma {:induction false} SlotDigit(img: seq<byte>, rs: seq<Rela>, at: u64, t: nat, j: int, base: u64)
    requires SlotsFit(rs, |img|) && at + 8 <= |img| && t < 8 && j == LastSlot(rs, at + t) && j >= 0
    ensures 0 <= at + t - rs[j].offset < 8
    ensures Digit(Word(Relocated(img, rs, base), at), t) == Digit(base + rs[j].addend, at + t - rs[j].offset)
  {
    var q := at + t - rs[j].offset;
    RelocatedByte(img, rs, base, at + t);
    DigitOfU64(Relocated(img, rs, base), at, t);
    EncodeDigit(Add64(base, rs[j].addend), 8, q);
    DigitOfSum(base, rs[j].addend, q);
  }

  lemma {:induction false} PowGrows(m: nat, n: nat)
    requires m < n
    ensures Pow256(m) < Pow256(n)
  {
    if m + 1 < n {
      PowGrows(m, n - 1);
    }
  }

  ghost function Step(m: nat): (b: u64)
    requires m < 8
    ensures b == Pow256(m)
  {
    Widths();
    PowGrows(m, 8);
    Pow256(m)
  }

  /** Moving by 256^m is seen at byte m of a word that moves along, and below m nowhere. */
  lemma {:induction false} MovedWord(w1: u64, w2: u64, m: nat)
    requires m < 8 && Sub64(w2, w1) == Step(m)
    ensures forall i :: 0 <= i < m ==> Digit(w2, i) == Digit(w1, i)
    ensures Digit(w2, m) != Digit(w1, m)
  {
    DigitBump(w1, m);
    assert w2 == Add64(w1, Step(m));
    forall i | 0 <= i <= m
      ensures Digit(w2, i) == Digit(w1 + Pow256(m), i)
    {
      DigitOfSum(w1, Step(m), i);
    }
  }

  /** A word showing, at byte t, byte q != t of a sum does not move along with that sum. */
  lemma {:induction false} MisplacedByte(w1: u64, w2: u64, a: u64, t: nat, q: nat, m: nat)
    requires t < 8 && q < 8 && t != q && m == if q < t then t else q
    requires Digit(w1, t) == Digit(a, q) && Digit(w2, t) == Digit(a + Pow256(m), q)
    ensures Sub64(w2, w1) != Step(m)
  {
    DigitBump(a, m);
    if Sub64(w2, w1) == Step(m) {
      MovedWord(w1, w2, m);
    }
  }

  /** A torn slot has two bases between which its word does not move along. */
  lemma {:induction false} TornSlotDoesNotRebase(img: seq<byte>, rs: seq<Rela>, i: nat, t: nat, j: int, m: nat)
    requires SlotsFit(rs, |img|) && i < |rs| && Relative(rs[i]) && t < 8
    requires j == LastSlot(rs, rs[i].offset + t) && j >= 0 && rs[j].offset != rs[i].offset
    requires var q := rs[i].offset + t - rs[j].offset; m == if q < t then t else q
    requires m < 8
    ensures !MovesWith(img, rs, i, 0, Step(m))
  {
    var at, b := rs[i].offset, Step(m);
    SlotDigit(img, rs, at, t, j, 0);
    SlotDigit(img, rs, at, t, j, b);
    MisplacedByte(Word(Relocated(img, rs, 0), at), Word(Relocated(img, rs, b), at), rs[j].addend, t,
                  at + t - rs[j].offset, m);
  }

  lemma {:induction false} NotIntactDoesNotRebase(img: seq<byte>, rs: seq<Rela>, i: nat, t: nat)
    requires SlotsFit(rs, |img|) && i < |rs| && Relative(rs[i]) && t < 8 && !Intact(rs, rs[i].offset, t)
    ensures !Rebases(img, rs)
  {
    assert SlotCovers(rs[i], rs[i].offset + t);
    var j := LastSlot(rs, rs[i].offset + t);
    var q := rs[i].offset + t - rs[j].offset;
    TornSlotDoesNotRebase(img, rs, i, t, j, if q < t then t else q);
  }

  /** The words of all slots move by exactly the difference of the bases, for all bases, if and only
      if no slot is torn. */
  lemma {:induction false} RebasesExactly(img: seq<byte>, rs: seq<Rela>)
    requires SlotsFit(rs, |img|)
    ensures Rebases(img, rs) <==> NoTornSlot(rs)
  {
    if NoTornSlot(rs) {
      forall i, b1: u64, b2: u64 | 0 <= i < |rs| && Relative(rs[i])
        ensures MovesWith(img, rs, i, b1, b2)
      {
        NoTornSlotRebases(img, rs, i, b1, b2);
      }
    } else {
      var i, t :| 0 <= i < |rs| && Relative(rs[i]) && 0 <= t < 8 && !Intact(rs, rs[i].offset, t);
      NotIntactDoesNotRebase(img, rs, i, t);
    }
  }

  /** The smallest failure: a slot that the next entry overlaps halfway is torn, and does not rebase. */
  lemma {:induction false} OverlapTears(img: seq<byte>)
    requires |img| >= 12
    ensures var rs := [Rela(0, R_X86_64_RELATIVE, 0), Rela(4, R_X86_64_RELATIVE, 0)];
            SlotsFit(rs, |img|) && !NoTornSlot(rs) && !Rebases(img, rs)
  {
    var rs := [Rela(0, R_X86_64_RELATIVE, 0), Rela(4, R_X86_64_RELATIVE, 0)];
    assert SlotCovers(rs[1], 4) && LastSlot(rs, 4) == 1;
    assert !Intact(rs, rs[0].offset, 4);
    NotIntactDoesNotRebase(img, rs, 0, 4);
  }

  /** Rebase theorem. Loads at two bases agree on every byte outside the slots; and every slot's word
      moves with the base if and only if no slot is torn. */
  lemma {:induction false} RebaseTheorem(elf: seq<byte>, hs: seq<Phdr>, rs: seq<Rela>, size: nat, b1: u64, b2: u64)
    requires Fits(elf, hs, rs, size)
    ensures forall k :: 0 <= k < size && LastSlot(rs, k) < 0 ==>
              Loaded(elf, hs, rs, size, b1)[k] == Loaded(elf, hs, rs, size, b2)[k]
    ensures Rebases(Copied(Zeros(size), elf, hs), rs) <==> NoTornSlot(rs)
  {
    var img := Copied(Zeros(size), elf, hs);
    forall k | 0 <= k < size && LastSlot(rs, k) < 0
      ensures Relocated(img, rs, b1)[k] == Relocated(img, rs, b2)[k]
    {
      RelocatedByte(img, rs, b1, k);
      RelocatedByte(img, rs, b2, k);
    }
    RebasesExactly(img, rs);
  }

  /** Disjoint slots, the case a linker produces, are never torn. */
  lemma {:induction false} DisjointIsNotTorn(rs: seq<Rela>)
    requires Disjoint(rs)
    ensures NoTornSlot(rs)
  {
  }

  // ---------------------------------------------------------------- containment

  /** The slot lies inside one header's memory. */
  ghost predicate Backed(hs: seq<Phdr>, r: Rela) {
    exists i :: 0 <= i < |hs| && hs[i].vaddr <= r.offset && r.offset + 8 <= hs[i].vaddr + hs[i].memsz
  }

  ghost predicate FileWithinMemory(hs: seq<Phdr>) {
    forall i :: 0 <= i < |hs| ==> hs[i].filesz <= hs[i].memsz
  }

  lemma {:induction false} CopiesInFile(elf: seq<byte>)
    requires WellFormed(elf)
    ensures forall i :: 0 <= i < |Phdrs(elf)| ==> InFile(elf, Phdrs(elf)[i])
  {
  }

  lemma {:induction false} HeadersContain(elf: seq<byte>, hs: seq<Phdr>, rs: seq<Rela>, z: nat)
    requires forall i :: 0 <= i < |hs| ==> InFile(elf, hs[i])
    requires NoWrap(hs) && FileWithinMemory(hs) && z < |hs| && hs[z].vaddr < PAGE
    requires forall i :: 0 <= i < |rs| && Relative(rs[i]) ==> Backed(hs, rs[i])
    ensures Low(hs) == 0 && SegmentsFit(elf, hs, ImageSize(hs)) && SlotsFit(rs, ImageSize(hs))
  {
  }

  /** With a header in page 0, no write of either pass leaves the mapping. */
  lemma {:induction false} Containment(elf: seq<byte>, z: nat)
    requires WellFormed(elf) && NoWrap(Phdrs(elf)) && FileWithinMemory(Phdrs(elf))
    requires z < |Phdrs(elf)| && Phdrs(elf)[z].vaddr < PAGE
    requires forall i :: 0 <= i < |Relas(elf)| && Relative(Relas(elf)[i]) ==> Backed(Phdrs(elf), Relas(elf)[i])
    ensures Low(Phdrs(elf)) == 0 && Loadable(elf)
  {
    CopiesInFile(elf);
    HeadersContain(elf, Phdrs(elf), Relas(elf), z);
  }

  /** The copies do not subtract the rounded minimum address. When some copy ends in the last page
      of the span, all copies stay inside the mapping exactly when that minimum is zero. */
  lemma {:induction false} BaseZeroIsNeeded(elf: seq<byte>, hs: seq<Phdr>, z: nat)
    requires forall i :: 0 <= i < |hs| ==> InFile(elf, hs[i])
    requires NoWrap(hs) && FileWithinMemory(hs) && z < |hs| && Loads(hs[z])
    requires hs[z].vaddr + hs[z].filesz > High(hs) - PAGE
    ensures SegmentsFit(elf, hs, ImageSize(hs)) <==> Low(hs) == 0
  {
  }

  // ---------------------------------------------------------------- the loader

  /** What the mmap wrapper did: a zeroed mapping at some address, or an error number. */
  datatype Mmap = Mapped(base: u64) | Failed(errno: u64)

  /** The pointer the wrapper hands back: on failure, minus the error number. */
  function MmapPointer(m: Mmap): u64 {
    match m
    case Mapped(base) => base
    case Failed(errno) => Sub64(0, errno)
  }

  const MAP_FAILED: u64 := TWO_64 - 1

  /** The test for MAP_FAILED sees a failure exactly when its error number is 1. */
  lemma {:induction false} FailureSeenExactly(errno: u64)
    ensures MmapPointer(Failed(errno)) == MAP_FAILED <==> errno == 1
  {
  }

  /** Unmapped: the mapping failed unseen, and the copies of both passes go to `at`. */
  datatype Result = NotLoaded | Unmapped(at: u64) | Running(img: array<byte>, entry: u64)

  lemma {:induction false} ScanStep(hs: seq<Phdr>, i: nat)
    requires i < |hs|
    ensures var m, e := MinVaddr(hs[..i]), MaxEnd(hs[..i]);
            && MinVaddr(hs[..i + 1]) == (if hs[i].vaddr < m then hs[i].vaddr else m)
            && MaxEnd(hs[..i + 1]) == (if e < End(hs[i]) then End(hs[i]) else e)
  {
    assert hs[..i + 1][..i] == hs[..i];
  }

  method ScanSpan(elf: seq<byte>) returns (low: u64, size: u64)
    requires WellFormed(elf)
    ensures low == Low(Phdrs(elf)) && size == ImageSize(Phdrs(elf))
  {
    ghost var hs := Phdrs(elf);
    var minVaddr: u64, maxVaddr: u64 := TWO_64 - 1, 0;
    for i := 0 to PhdrCount(elf)
      invariant minVaddr == MinVaddr(hs[..i]) && maxVaddr == MaxEnd(hs[..i])
    {
      var h := PhdrAt(elf, i);
      ScanStep(hs, i);
      if h.vaddr < minVaddr {
        minVaddr := h.vaddr;
      }
      if maxVaddr < End(h) {
        maxVaddr := End(h);
      }
    }
    assert hs[..|hs|] == hs;
    low := TruncPage(minVaddr);
    size := Sub64(RoundPage(maxVaddr), low);
  }

  /** Header i of the file, its place in the pass, and what its turn does. */
  lemma {:induction false} CopyStep(img: seq<byte>, elf: seq<byte>, i: nat)
    requires WellFormed(elf) && SegmentsFit(elf, Phdrs(elf), |img|) && i < PhdrCount(elf)
    ensures var hs, h := Phdrs(elf), PhdrAt(elf, i);
            && h == hs[i] && InFile(elf, h) && (Loads(h) ==> h.vaddr + h.filesz <= |img|)
            && CopiedUpTo(img, elf, hs, i + 1) ==
                 if Loads(h) then Overlay(CopiedUpTo(img, elf, hs, i), h.vaddr, FileBytes(elf, h))
                 else CopiedUpTo(img, elf, hs, i)
  {
  }

  /** Program header i of the segment pass over an image that was `start`. */
  method CopySegment(elf: seq<byte>, i: nat, img: array<byte>, ghost start: seq<byte>)
    requires WellFormed(elf) && SegmentsFit(elf, Phdrs(elf), |start|) && i < PhdrCount(elf)
    requires img[..] == CopiedUpTo(start, elf, Phdrs(elf), i)
    modifies img
    ensures img[..] == CopiedUpTo(start, elf, Phdrs(elf), i + 1)
  {
    var h := PhdrAt(elf, i);
    CopyStep(start, elf, i);
    if h.kind == PT_LOAD {
      if h.memsz != 0 && h.filesz != 0 {
        CopyInto(img, h.vaddr, FileBytes(elf, h));
      }
    }
  }

  method CopySegments(elf: seq<byte>, img: array<byte>)
    requires WellFormed(elf) && SegmentsFit(elf, Phdrs(elf), img.Length)
    modifies img
    ensures img[..] == Copied(old(img[..]), elf, Phdrs(elf))
  {
    ghost var start := img[..];
    for i := 0 to PhdrCount(elf)
      invariant img[..] == CopiedUpTo(start, elf, Phdrs(elf), i)
    {
      CopySegment(elf, i, img, start);
    }
  }

  method RelocateSection(elf: seq<byte>, sh: Shdr, img: array<byte>, base: u64)
    requires sh.offset + sh.size <= |elf|
    requires SlotsFit(SectionRelas(elf, sh.offset, sh.size / 24), img.Length)
    modifies img
    ensures img[..] == Relocated(old(img[..]), SectionRelas(elf, sh.offset, sh.size / 24), base)
  {
    ghost var rs := SectionRelas(elf, sh.offset, sh.size / 24);
    for j := 0 to sh.size / 24
      invariant img[..] == Relocated(old(img[..]), rs[..j], base)
    {
      var r := RelaAt(elf, sh.offset + 24 * j);
      assert rs[..j + 1][..j] == rs[..j] && rs[..j + 1][j] == r;
      if r.info % TWO_32 == R_X86_64_RELATIVE {
        CopyInto(img, r.offset, Encode(Add64(base, r.addend), 8));
      }
    }
    assert rs[..|rs|] == rs;
  }

  /** What the first n sections store fits when everything does. */
  lemma {:induction false} SectionPrefixFits(elf: seq<byte>, shs: seq<Shdr>, n: nat, m: nat, size: nat)
    requires SectionsInFile(elf, shs) && n <= m <= |shs| && SlotsFit(RelasUpTo(elf, shs, m), size)
    ensures SlotsFit(RelasUpTo(elf, shs, n), size)
    decreases m
  {
    if n < m {
      var k := m - 1;
      var before, last := RelasUpTo(elf, shs, k), RelasOf(elf, shs[k]);
      assert RelasUpTo(elf, shs, m) == before + last;
      FitParts(before, last, size);
      SectionPrefixFits(elf, shs, n, k, size);
    }
  }

  method ApplyRelocations(elf: seq<byte>, img: array<byte>, base: u64)
    requires WellFormed(elf) && SlotsFit(Relas(elf), img.Length)
    modifies img
    ensures img[..] == Relocated(old(img[..]), Relas(elf), base)
  {
    ghost var shs, start := Shdrs(elf), img[..];
    SectionPrefixFits(elf, shs, 0, |shs|, img.Length);
    for i := 0 to ShdrCount(elf)
      invariant SlotsFit(RelasUpTo(elf, shs, i), img.Length)
      invariant img[..] == Relocated(start, RelasUpTo(elf, shs, i), base)
    {
      var sh := ShdrAt(elf, i);
      assert shs[i] == sh;
      SectionPrefixFits(elf, shs, i + 1, |shs|, img.Length);
      RelocatedAppend(start, RelasUpTo(elf, shs, i), RelasOf(elf, sh), base);
      if sh.kind != SHT_RELA {
        continue;
      }
      RelocateSection(elf, sh, img, base);
    }
  }

  /** payload_exec up to the jump. A file that is not ELF, or a mapping failure the code sees, loads
      nothing; another failure goes on without a mapping; otherwise the mapping holds the image for
      its own address. */
  method PayloadExec(elf: seq<byte>, mm: Mmap) returns (r: Result)
    requires |elf| >= 4
    requires elf[..4] == [0x7F, 0x45, 0x4C, 0x46] ==> WellFormed(elf) && (mm.Mapped? ==> Loadable(elf))
    requires mm.Mapped? ==> mm.base != MAP_FAILED
    ensures r.NotLoaded? <==> elf[..4] != [0x7F, 0x45, 0x4C, 0x46] || (mm.Failed? && mm.errno == 1)
    ensures r.Unmapped? <==> elf[..4] == [0x7F, 0x45, 0x4C, 0x46] && mm.Failed? && mm.errno != 1
    ensures r.Unmapped? ==> r.at + mm.errno == TWO_64 || r.at == mm.errno == 0
    ensures r.Running? ==> r.img[..] == Loaded(elf, Phdrs(elf), Relas(elf), ImageSize(Phdrs(elf)), mm.base)
    ensures r.Running? ==> r.entry == Add64(mm.base, Entry(elf))
  {
    assert elf[..4] == [elf[0], elf[1], elf[2], elf[3]];
    if elf[0] != 0x7f || elf[1] != 'E' as int || elf[2] != 'L' as int || elf[3] != 'F' as int {
      return NotLoaded;
    }
    var low, size := ScanSpan(elf);
    if MmapPointer(mm) == MAP_FAILED {
      return NotLoaded;
    }
    if mm.Failed? {
      return Unmapped(MmapPointer(mm));
    }
    var img := new byte[size](_ => 0);
    assert img[..] == Zeros(size);
    CopySegments(elf, img);
    ApplyRelocations(elf, img, mm.base);
    r := Running(img, Add64(mm.base, Entry(elf)));
  }
}

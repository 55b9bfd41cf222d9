/** The database rebuild (src/sqlite_db.c): what each directory entry contributes, and the loops that
    reconcile the listing into the tbl_appbrowse_* tables and tbl_appinfo. */
module Rebuild {
  import opened Bytes
  import opened Wrappers
  import opened Sfo
  import opened Tables

  // ---------------------------------------------------------------- names inside SQL text

  // The check and the row insert paste a directory name, as it is, between two apostrophes.

  const QUOTE: byte := '\'' as int

  /** Every apostrophe is one of a pair: pasted, the name makes a string literal. */
  predicate Quotable(name: Text) {
    if name == [] then true
    else if name[0] != QUOTE then Quotable(name[1..])
    else |name| >= 2 && name[1] == QUOTE && Quotable(name[2..])
  }

  /** What that literal stands for: of each pair, one apostrophe. */
  function Literal(name: Text): (s: Text)
    ensures |s| <= |name|
  {
    if name == [] then []
    else if |name| >= 2 && name[0] == QUOTE && name[1] == QUOTE then [QUOTE] + Literal(name[2..])
    else [name[0]] + Literal(name[1..])
  }

  /** How SQL writes a string inside apostrophes. */
  function Quoted(s: Text): Text {
    if s == [] then []
    else (if s[0] == QUOTE then [QUOTE, QUOTE] else [s[0]]) + Quoted(s[1..])
  }

  lemma {:induction false} QuotedLiteral(name: Text)
    requires Quotable(name)
    ensures Quoted(Literal(name)) == name
  {
    if name != [] {
      var rest := if name[0] == QUOTE then name[2..] else name[1..];
      QuotedLiteral(rest);
      assert Literal(name)[1..] == Literal(rest);
    }
  }

  /** Names that make literals are looked for as different strings. */
  lemma {:induction false} LiteralsDiffer(a: Text, b: Text)
    requires Quotable(a) && Quotable(b) && Literal(a) == Literal(b)
    ensures a == b
  {
    QuotedLiteral(a);
    QuotedLiteral(b);
  }

  /** The name that is looked for is the directory's own exactly when it has no apostrophe. */
  lemma {:induction false} LiteralIsName(name: Text)
    requires Quotable(name)
    ensures Literal(name) == name <==> QUOTE !in name
  {
    if name != [] && name[0] != QUOTE {
      LiteralIsName(name[1..]);
      assert name == [name[0]] + name[1..];
    }
  }

  // ---------------------------------------------------------------- files and titles

  datatype DirEnt = DirEnt(name: Text, isDir: bool)

  /** A file sfo_read can be given: its tables lead nowhere outside it, unless it is no SFO at all. */
  type SfoFile = b: seq<byte> | WellFormed(b) && (HeaderOk(b) ==> Count(b) <= MAX_COUNT)
    ghost witness []

  /** What a rebuild finds. Per path: the size of an app.pkg, and the bytes of a param.sfo. Per name:
      what memory it gets while it reads the latter; all it asks for unless listed. `malformed` has
      names that, pasted between apostrophes, make statements SQLite does not compile. */
  datatype Files = Files(
    sizes: map<Text, nat>, metas: map<Text, SfoFile>, heaps: map<Text, Heap>, malformed: set<Text>)

  function HeapFor(fs: Files, name: Text): Heap {
    if name in fs.heaps then fs.heaps[name] else Heap(true, true, {}, {}, {})
  }

  /** Pasted into a statement, the name is a literal, or breaks the statement. What it does otherwise,
      as a piece of SQL, is not described. */
  predicate Pastes(fs: Files, name: Text) {
    Quotable(name) || name in fs.malformed
  }

  function PkgPath(name: Text): Text {
    Ascii("/user/app/") + name + Ascii("/app.pkg")
  }

  function MetaPath(name: Text): Text {
    Ascii("/system_data/priv/appmeta/") + name + Ascii("/param.sfo")
  }

  /** The file can be read, and every allocation for it succeeds. */
  ghost predicate ReadsAll(b: SfoFile, heap: Heap) {
    HeaderOk(b) && heap.context && heap.buffer && AllFind(heap, 0, 64, Count(b))
  }

  /** What sfo_read makes of a title's param.sfo in a fresh context, if it can. */
  ghost function ParamsOf(fs: Files, name: Text): Option<seq<Param>> {
    var path, heap := MetaPath(name), HeapFor(fs, name);
    if path in fs.metas && ReadsAll(fs.metas[path], heap)
    then Some(TakenUpTo(fs.metas[path], heap, Count(fs.metas[path])))
    else None
  }

  /** A stored value read as a C string. */
  function Str0(v: seq<byte>): Text {
    CString(v, 0)
  }

  function Lookup(ps: seq<Param>, key: string): Option<seq<byte>> {
    FirstMatch(ps, Ascii(key))
  }

  /** The four fields a title cannot do without. */
  datatype App = App(titleId: Text, title: Text, contentId: Text, category: Text, size: nat, params: seq<Param>)

  predicate Complete(ps: seq<Param>) {
    && Lookup(ps, "TITLE").Some? && Lookup(ps, "TITLE_ID").Some?
    && Lookup(ps, "CONTENT_ID").Some? && Lookup(ps, "CATEGORY").Some?
  }

  /** A directory entry that gets as far as the insert, once its name is not in the table. */
  ghost predicate HasFields(fs: Files, e: DirEnt) {
    && e.isDir && |e.name| == 9 && PkgPath(e.name) in fs.sizes
    && ParamsOf(fs, e.name).Some? && Complete(ParamsOf(fs, e.name).value)
  }

  /** And whose insert is well-formed. */
  ghost predicate Eligible(fs: Files, e: DirEnt) {
    HasFields(fs, e) && Quotable(e.name)
  }

  function AppFrom(ps: seq<Param>, size: nat): App
    requires Complete(ps)
  {
    var category := Str0(Lookup(ps, "CATEGORY").value);
    App(Str0(Lookup(ps, "TITLE_ID").value), Str0(Lookup(ps, "TITLE").value), Str0(Lookup(ps, "CONTENT_ID").value),
        if category == Ascii("gp") then Ascii("gd") else category, size, ps)
  }

  ghost function AppOf(fs: Files, e: DirEnt): App
    requires HasFields(fs, e)
  {
    AppFrom(ParamsOf(fs, e.name).value, fs.sizes[PkgPath(e.name)])
  }

  function RowOf(name: Text, app: App): Row {
    Row(app.titleId, app.contentId, app.title, Ascii("/user/appmeta/") + Literal(name), app.category, app.size,
        if app.category == Ascii("gde") then Ascii("app") else Ascii("game"))
  }

  // The keys of tbl_appinfo, family by family, in the order of the inserts.

  function CoreKey(i: nat): string
    requires i < 4
  {
    match i
    case 0 => "TITLE"
    case 1 => "TITLE_ID"
    case 2 => "CATEGORY"
    case _ => "CONTENT_ID"
  }

  function OptionalKey(i: nat): string
    requires i < 4
  {
    match i
    case 0 => "APP_VER"
    case 1 => "VERSION"
    case 2 => "FORMAT"
    case _ => "INSTALL_DIR_SAVEDATA"
  }

  function OptionalKeys(): (keys: seq<string>)
    ensures |keys| == 4
  {
    seq(4, i requires 0 <= i < 4 => OptionalKey(i))
  }

  function IntKey(i: nat): string
    requires i < 10
  {
    match i
    case 0 => "APP_TYPE"
    case 1 => "ATTRIBUTE"
    case 2 => "PARENTAL_LEVEL"
    case 3 => "SYSTEM_VER"
    case 4 => "DOWNLOAD_DATA_SIZE"
    case 5 => "REMOTE_PLAY_KEY_ASSIGN"
    case 6 => "ATTRIBUTE_INTERNAL"
    case 7 => "DISP_LOCATION_1"
    case 8 => "DISP_LOCATION_2"
    case _ => "PT_PARAM"
  }

  function IntKeys(): (keys: seq<string>)
    ensures |keys| == 10
  {
    seq(10, i requires 0 <= i < 10 => IntKey(i))
  }

  function PathKey(i: nat): string
    requires i < 3
  {
    match i
    case 0 => "_metadata_path"
    case 1 => "_org_path"
    case _ => "#_size"
  }

  function FixedKey(i: nat): string
    requires i < 17
  {
    match i
    case 0 => "#_contents_status"
    case 1 => "#_access_index"
    case 2 => "_contents_location"
    case 3 => "#_update_index"
    case 4 => "#exit_type"
    case 5 => "_contents_ext_type"
    case 6 => "_current_slot"
    case 7 => "_disable_live_detail"
    case 8 => "_hdd_location"
    case 9 => "_path_info"
    case 10 => "_path_info_2"
    case 11 => "_size_other_hdd"
    case 12 => "_sort_priority"
    case 13 => "_uninstallable"
    case 14 => "_view_category"
    case 15 => "_working_status"
    case _ => "#_booted"
  }

  function FixedValue(i: nat): nat {
    match i
    case 1 => 1    // #_access_index
    case 3 => 74   // #_update_index
    case 12 => 100 // _sort_priority
    case 13 => 1   // _uninstallable
    case 16 => 1   // #_booted
    case _ => 0
  }

  function TimeKey(i: nat): string
    requires i < 3
  {
    match i
    case 0 => "#_last_access_time"
    case 1 => "#_mtime"
    case _ => "#_promote_time"
  }

  function Decimal(i: nat): string
    requires i < 10
  {
    [(i + '0' as int) as char]
  }

  function TimeValue(i: nat): string
    requires i < 3
  {
    match i
    case 0 => "2020-01-01 20:20:03.000"
    case 1 => "2020-01-01 20:20:02.000"
    case _ => "2020-01-01 20:20:01.000"
  }

  function TwoDigits(i: nat): string
    requires i < 100
  {
    Decimal(i / 10) + Decimal(i % 10)
  }

  function UserDefinedKey(i: nat): string
    requires i < 4
  {
    "USER_DEFINED_PARAM_" + Decimal(i + 1)
  }

  function UserDefinedKeys(): (keys: seq<string>)
    ensures |keys| == 4
  {
    seq(4, i requires 0 <= i < 4 => UserDefinedKey(i))
  }

  /** The two key families of the second loop, alternating. */
  function TransferKey(i: nat): string
    requires i < 14
  {
    (if i % 2 == 0 then "SERVICE_ID_ADDCONT_ADD_" else "SAVE_DATA_TRANSFER_TITLE_ID_LIST_") + Decimal(i / 2 + 1)
  }

  function TransferKeys(): (keys: seq<string>)
    ensures |keys| == 14
  {
    seq(14, i requires 0 <= i < 14 => TransferKey(i))
  }

  function TitleKey(i: nat): string
    requires i < 30
  {
    "TITLE_" + TwoDigits(i)
  }

  function TitleKeys(): (keys: seq<string>)
    ensures |keys| == 30
  {
    seq(30, i requires 0 <= i < 30 => TitleKey(i))
  }

  function TextValue(ps: seq<Param>, key: string): Option<Val> {
    var v := Lookup(ps, key);
    if v.None? then None else Some(Str(Str0(v.value)))
  }

  /** insert_appinfo_sfo_value: nothing for a key the SFO does not have. */
  function OptionalAttr(ps: seq<Param>, key: string): seq<Attr> {
    var v := TextValue(ps, key);
    if v.None? then [] else [(Ascii(key), v.value)]
  }

  /** insert_appinfo_sfo_value_int: the first four bytes of the value, or 0 without one. */
  function IntValue(ps: seq<Param>, key: string): Val {
    var v := Lookup(ps, key);
    Num(if v.Some? && |v.value| >= 4 then U32(v.value, 0) else 0)
  }

  function OptionalAttrs(ps: seq<Param>, keys: seq<string>, n: nat): seq<Attr>
    requires n <= |keys|
  {
    if n == 0 then [] else OptionalAttrs(ps, keys, n - 1) + OptionalAttr(ps, keys[n - 1])
  }

  function AllOptional(ps: seq<Param>, keys: seq<string>): seq<Attr> {
    OptionalAttrs(ps, keys, |keys|)
  }

  function IntAttrs(ps: seq<Param>, keys: seq<string>): (r: seq<Attr>)
    ensures |r| == |keys|
  {
    seq(|keys|, i requires 0 <= i < |keys| => (Ascii(keys[i]), IntValue(ps, keys[i])))
  }

  function CoreValue(app: App, i: nat): Val
    requires i < 4
  {
    match i
    case 0 => Str(app.title)
    case 1 => Str(app.titleId)
    case 2 => Str(app.category)
    case _ => Str(app.contentId)
  }

  function CoreAttrs(app: App): (r: seq<Attr>)
    ensures |r| == 4
  {
    seq(4, i requires 0 <= i < 4 => (Ascii(CoreKey(i)), CoreValue(app, i)))
  }

  function PathValue(name: Text, app: App, i: nat): Val
    requires i < 3
  {
    match i
    case 0 => Str(Ascii("/user/appmeta/") + name)
    case 1 => Str(Ascii("/user/app/") + name)
    case _ => Num(app.size)
  }

  function PathAttrs(name: Text, app: App): (r: seq<Attr>)
    ensures |r| == 3
  {
    seq(3, i requires 0 <= i < 3 => (Ascii(PathKey(i)), PathValue(name, app, i)))
  }

  function FixedAttrs(): (r: seq<Attr>)
    ensures |r| == 17
  {
    seq(17, i requires 0 <= i < 17 => (Ascii(FixedKey(i)), Num(FixedValue(i))))
  }

  function TimeAttrs(): (r: seq<Attr>)
    ensures |r| == 3
  {
    seq(3, i requires 0 <= i < 3 => (Ascii(TimeKey(i)), Str(Ascii(TimeValue(i)))))
  }

  /** Everything a newly added title puts into tbl_appinfo, group after group. */
  function Group(name: Text, app: App, g: nat): seq<Attr>
    requires g < 9
  {
    match g
    case 0 => CoreAttrs(app)
    case 1 => AllOptional(app.params, OptionalKeys())
    case 2 => IntAttrs(app.params, IntKeys())
    case 3 => IntAttrs(app.params, UserDefinedKeys())
    case 4 => AllOptional(app.params, TransferKeys())
    case 5 => AllOptional(app.params, TitleKeys())
    case 6 => PathAttrs(name, app)
    case 7 => FixedAttrs()
    case _ => TimeAttrs()
  }

  function Groups(name: Text, app: App): (groups: seq<seq<Attr>>)
    ensures |groups| == 9
  {
    seq(9, g requires 0 <= g < 9 => Group(name, app, g))
  }

  function TitleOf(name: Text, app: App): (c: Candidate)
    ensures c.Title?
  {
    Title(Literal(name), RowOf(name, app), Groups(name, app))
  }

  ghost function CandidateOf(fs: Files, e: DirEnt): Candidate {
    if Eligible(fs, e) then TitleOf(e.name, AppOf(fs, e)) else Skipped
  }

  ghost function Candidates(fs: Files, list: seq<DirEnt>): (cs: seq<Candidate>)
    ensures |cs| == |list|
  {
    seq(|list|, i requires 0 <= i < |list| => CandidateOf(fs, list[i]))
  }

  // ---------------------------------------------------------------- the value of each key

  function Digit10(c: char): nat {
    if '0' <= c <= '9' then c as int - '0' as int else 0
  }

  /** Which of the 89 keys has this length and these characters: its third, last but one and last. */
  function NumberBy(size: nat, third: char, tens: char, last: char): nat {
    match size
    case 5 => 0
    case 6 => if third == 'R' then 6 else 68
    case 7 => if third == 'P' then 4 else if third == 'R' then 5 else 87
    case 8 =>
      if last == 'D' then 1 else if last == 'Y' then 2 else if last == 'E' then 8
      else if third == '_' then 17 else if third == 'b' then 85 else 36 + 10 * Digit10(tens) + Digit10(last)
    case 9 => if last == 'E' then 9 else 67
    case 10 => if last == 'D' then 3 else if last == 'R' then 11 else if last == 'e' then 73 else 78
    case 12 => 79
    case 13 => if last == 't' then 75 else 77
    case 14 =>
      if last == 'L' then 10 else if last == 'h' then 66 else if third == 'a' then 70 else if third == 'u' then 72
      else if third == 'o' then 81 else if third == 'n' then 82 else if third == 'i' then 83 else 88
    case 15 => if last == '1' then 15 else if last == '2' then 16 else if last == 'd' then 80 else 84
    case 17 => 69
    case 18 =>
      if third == 'W' then 12 else if third == 'T' then 14 else if last == 'n' then 71
      else if third == 'o' then 74 else 86
    case 20 =>
      if third == 'S' then 7 else if last == '1' then 18 else if last == '2' then 19 else if last == '3' then 20
      else if last == '4' then 21 else 76
    case 24 => 20 + 2 * Digit10(last)
    case 34 => 21 + 2 * Digit10(last)
    case _ => 13
  }

  function Number(key: Text): nat {
    if |key| < 3 then 89
    else NumberBy(|key|, key[2] as char, key[|key| - 2] as char, key[|key| - 1] as char)
  }

  lemma {:induction false} NumberIs(s: string)
    requires |s| >= 3 && s[2] < 128 as char && s[|s| - 2] < 128 as char && s[|s| - 1] < 128 as char
    ensures Number(Ascii(s)) == NumberBy(|s|, s[2], s[|s| - 2], s[|s| - 1])
  {
  }

  lemma {:induction false} CoreNumber(i: nat)
    requires i < 4
    ensures Number(Ascii(CoreKey(i))) == i
  {
    NumberIs(CoreKey(i));
  }

  lemma {:induction false} OptionalNumber(i: nat)
    requires i < 4
    ensures Number(Ascii(OptionalKey(i))) == 4 + i
  {
    NumberIs(OptionalKey(i));
  }

  lemma {:induction false} IntNumber(i: nat)
    requires i < 10
    ensures Number(Ascii(IntKey(i))) == 8 + i
  {
    NumberIs(IntKey(i));
  }

  lemma {:induction false} UserDefinedNumber(i: nat)
    requires i < 4
    ensures Number(Ascii(UserDefinedKey(i))) == 18 + i
  {
    NumberIs(UserDefinedKey(i));
  }

  lemma {:induction false} TransferNumber(i: nat)
    requires i < 14
    ensures Number(Ascii(TransferKey(i))) == 22 + i
  {
    NumberIs(TransferKey(i));
  }

  lemma {:induction false} TitleNumber(i: nat)
    requires i < 30
    ensures Number(Ascii(TitleKey(i))) == 36 + i
  {
    NumberIs(TitleKey(i));
  }

  lemma {:induction false} PathNumber(i: nat)
    requires i < 3
    ensures Number(Ascii(PathKey(i))) == 66 + i
  {
    NumberIs(PathKey(i));
  }

  lemma {:induction false} FixedNumberLow(i: nat)
    requires i < 9
    ensures Number(Ascii(FixedKey(i))) == 69 + i
  {
    NumberIs(FixedKey(i));
  }

  lemma {:induction false} FixedNumberHigh(i: nat)
    requires 9 <= i < 17
    ensures Number(Ascii(FixedKey(i))) == 69 + i
  {
    NumberIs(FixedKey(i));
  }

  lemma {:induction false} TimeNumber(i: nat)
    requires i < 3
    ensures Number(Ascii(TimeKey(i))) == 86 + i
  {
    NumberIs(TimeKey(i));
  }

  /** The number of the first key of a group. */
  function FirstNumber(g: nat): nat {
    match g
    case 0 => 0
    case 1 => 4
    case 2 => 8
    case 3 => 18
    case 4 => 22
    case 5 => 36
    case 6 => 66
    case 7 => 69
    case 8 => 86
    case _ => 89
  }

  /** Key i of group g. */
  predicate IsKey(g: nat, i: nat) {
    g < 9 && FirstNumber(g) + i < FirstNumber(g + 1)
  }

  function KeyOf(g: nat, i: nat): string
    requires IsKey(g, i)
  {
    match g
    case 0 => CoreKey(i)
    case 1 => OptionalKey(i)
    case 2 => IntKey(i)
    case 3 => UserDefinedKey(i)
    case 4 => TransferKey(i)
    case 5 => TitleKey(i)
    case 6 => PathKey(i)
    case 7 => FixedKey(i)
    case _ => TimeKey(i)
  }

  lemma {:induction false} KeyNumber(g: nat, i: nat)
    requires IsKey(g, i)
    ensures Number(Ascii(KeyOf(g, i))) == FirstNumber(g) + i
  {
    match g
    case 0 => CoreNumber(i);
    case 1 => OptionalNumber(i);
    case 2 => IntNumber(i);
    case 3 => UserDefinedNumber(i);
    case 4 => TransferNumber(i);
    case 5 => TitleNumber(i);
    case 6 => PathNumber(i);
    case 7 => if i < 9 { FixedNumberLow(i); } else { FixedNumberHigh(i); }
    case _ => TimeNumber(i);
  }

  /** The value computed for a key; None for an optional one that the SFO does not have. */
  function KeyValue(name: Text, app: App, g: nat, i: nat): Option<Val>
    requires IsKey(g, i)
  {
    match g
    case 0 => Some(CoreValue(app, i))
    case 1 => TextValue(app.params, OptionalKey(i))
    case 2 => Some(IntValue(app.params, IntKey(i)))
    case 3 => Some(IntValue(app.params, UserDefinedKey(i)))
    case 4 => TextValue(app.params, TransferKey(i))
    case 5 => TextValue(app.params, TitleKey(i))
    case 6 => Some(PathValue(name, app, i))
    case 7 => Some(Num(FixedValue(i)))
    case _ => Some(Str(Ascii(TimeValue(i))))
  }

  /** Attributes for keys with these numbers. */
  ghost predicate SomeOf(attrs: seq<Attr>, first: nat, n: nat) {
    forall j :: 0 <= j < |attrs| ==> first <= Number(attrs[j].0) < first + n
  }

  ghost predicate KeysFrom(keys: seq<string>, first: nat) {
    forall k :: 0 <= k < |keys| ==> Number(Ascii(keys[k])) == first + k
  }

  /** Every attribute for optional keys has one of them. */
  lemma {:induction false} OptionalKeyOf(ps: seq<Param>, keys: seq<string>, n: nat, j: nat) returns (k: nat)
    requires n <= |keys| && j < |OptionalAttrs(ps, keys, n)|
    ensures k < n && OptionalAttrs(ps, keys, n)[j].0 == Ascii(keys[k])
  {
    k := n - 1;
    if j < |OptionalAttrs(ps, keys, k)| {
      k := OptionalKeyOf(ps, keys, k, j);
    }
  }

  lemma {:induction false} OneOptional(ps: seq<Param>, key: string, other: Text)
    ensures var a := OptionalAttr(ps, key);
            FirstIn(a, |a|, other) == if other == Ascii(key) then TextValue(ps, key) else None
  {
    var a := OptionalAttr(ps, key);
    if TextValue(ps, key).Some? {
      assert FirstIn(a, 0, other) == None;
    }
  }

  lemma {:induction false} OneMoreOptional(ps: seq<Param>, keys: seq<string>, n: nat, key: Text)
    requires n < |keys|
    ensures var a, b := OptionalAttrs(ps, keys, n), OptionalAttrs(ps, keys, n + 1);
            FirstIn(b, |b|, key) ==
              Better(FirstIn(a, |a|, key), if key == Ascii(keys[n]) then TextValue(ps, keys[n]) else None)
  {
    var more := OptionalAttr(ps, keys[n]);
    OneOptional(ps, keys[n], key);
    FirstInAppend(OptionalAttrs(ps, keys, n), more, |more|, key);
  }

  lemma {:induction false} KeysDiffer(keys: seq<string>, first: nat, j: nat, k: nat)
    requires KeysFrom(keys, first) && j < |keys| && k < |keys| && Ascii(keys[j]) == Ascii(keys[k])
    ensures j == k
  {
  }

  /** Among the attributes for optional keys, a key has the value the SFO gives it, or none. */
  lemma {:induction false} OptionalIsFirst(ps: seq<Param>, keys: seq<string>, n: nat, first: nat, k: nat)
    requires n <= |keys| && KeysFrom(keys, first) && k < |keys|
    ensures var a := OptionalAttrs(ps, keys, n);
            FirstIn(a, |a|, Ascii(keys[k])) == if k < n then TextValue(ps, keys[k]) else None
  {
    if n > 0 {
      var m := n - 1;
      OptionalIsFirst(ps, keys, m, first, k);
      OneMoreOptional(ps, keys, m, Ascii(keys[k]));
      if Ascii(keys[m]) == Ascii(keys[k]) {
        KeysDiffer(keys, first, m, k);
      }
    }
  }

  ghost predicate SfoGroup(g: nat) {
    g == 1 || g == 4 || g == 5
  }

  function OptionalKeysOf(g: nat): seq<string> {
    if g == 1 then OptionalKeys() else if g == 4 then TransferKeys() else TitleKeys()
  }

  lemma {:induction false} OptionalKeysAre(g: nat)
    requires SfoGroup(g)
    ensures var keys := OptionalKeysOf(g);
            && KeysFrom(keys, FirstNumber(g)) && FirstNumber(g) + |keys| == FirstNumber(g + 1)
            && forall i :: 0 <= i < |keys| ==> IsKey(g, i) && keys[i] == KeyOf(g, i)
  {
    var keys := OptionalKeysOf(g);
    forall i: nat | i < |keys|
      ensures IsKey(g, i) && keys[i] == KeyOf(g, i) && Number(Ascii(keys[i])) == FirstNumber(g) + i
    {
      assert IsKey(g, i) && keys[i] == KeyOf(g, i);
      KeyNumber(g, i);
    }
  }

  lemma {:induction false} OptionalNumbers(name: Text, app: App, g: nat)
    requires SfoGroup(g)
    ensures SomeOf(Group(name, app, g), FirstNumber(g), FirstNumber(g + 1) - FirstNumber(g))
  {
    var keys, a := OptionalKeysOf(g), Group(name, app, g);
    OptionalKeysAre(g);
    forall j: nat | j < |a|
      ensures FirstNumber(g) <= Number(a[j].0) < FirstNumber(g + 1)
    {
      var k := OptionalKeyOf(app.params, keys, |keys|, j);
      assert a[j].0 == Ascii(keys[k]);
    }
  }

  /** What an optional group gives a key of its own. */
  lemma {:induction false} OptionalGroupGives(name: Text, app: App, g: nat)
    requires SfoGroup(g)
    ensures var a := Group(name, app, g);
            && SomeOf(a, FirstNumber(g), FirstNumber(g + 1) - FirstNumber(g))
            && forall i: nat :: IsKey(g, i) ==> FirstIn(a, |a|, Ascii(KeyOf(g, i))) == KeyValue(name, app, g, i)
  {
    var keys := OptionalKeysOf(g);
    OptionalKeysAre(g);
    OptionalNumbers(name, app, g);
    assert Group(name, app, g) == OptionalAttrs(app.params, keys, |keys|);
    forall i: nat | IsKey(g, i)
      ensures FirstIn(Group(name, app, g), |Group(name, app, g)|, Ascii(KeyOf(g, i))) == KeyValue(name, app, g, i)
    {
      OptionalIsFirst(app.params, keys, |keys|, FirstNumber(g), i);
      assert keys[i] == KeyOf(g, i);
    }
  }

  lemma {:induction false} MandatoryIsListed(name: Text, app: App, g: nat, i: nat)
    requires IsKey(g, i) && !SfoGroup(g)
    ensures |Group(name, app, g)| == FirstNumber(g + 1) - FirstNumber(g) && KeyValue(name, app, g, i).Some?
    ensures Group(name, app, g)[i] == (Ascii(KeyOf(g, i)), KeyValue(name, app, g, i).value)
  {
  }

  lemma {:induction false} MandatoryNumbers(name: Text, app: App, g: nat)
    requires g < 9 && !SfoGroup(g)
    ensures SomeOf(Group(name, app, g), FirstNumber(g), FirstNumber(g + 1) - FirstNumber(g))
  {
    var a := Group(name, app, g);
    MandatoryIsListed(name, app, g, 0);
    forall i: nat | i < |a|
      ensures FirstNumber(g) <= Number(a[i].0) < FirstNumber(g + 1)
    {
      MandatoryIsListed(name, app, g, i);
      KeyNumber(g, i);
    }
  }

  lemma {:induction false} MandatoryKeyGives(name: Text, app: App, g: nat, i: nat)
    requires IsKey(g, i) && !SfoGroup(g)
    ensures var a := Group(name, app, g); FirstIn(a, |a|, Ascii(KeyOf(g, i))) == KeyValue(name, app, g, i)
  {
    var a := Group(name, app, g);
    MandatoryIsListed(name, app, g, i);
    KeyNumber(g, i);
    forall j: nat | j < i
      ensures a[j].0 != a[i].0
    {
      MandatoryIsListed(name, app, g, j);
      KeyNumber(g, j);
    }
    FirstInIs(a, |a|, a[i].0, i);
  }

  lemma {:induction false} MandatoryGroupGives(name: Text, app: App, g: nat)
    requires g < 9 && !SfoGroup(g)
    ensures var a := Group(name, app, g);
            && SomeOf(a, FirstNumber(g), FirstNumber(g + 1) - FirstNumber(g))
            && forall i: nat :: IsKey(g, i) ==> FirstIn(a, |a|, Ascii(KeyOf(g, i))) == KeyValue(name, app, g, i)
  {
    MandatoryNumbers(name, app, g);
    forall i: nat | IsKey(g, i)
      ensures var a := Group(name, app, g); FirstIn(a, |a|, Ascii(KeyOf(g, i))) == KeyValue(name, app, g, i)
    {
      MandatoryKeyGives(name, app, g, i);
    }
  }

  lemma {:induction false} GroupGives(name: Text, app: App, g: nat)
    requires g < 9
    ensures var a := Groups(name, app)[g];
            && SomeOf(a, FirstNumber(g), FirstNumber(g + 1) - FirstNumber(g))
            && forall i: nat :: IsKey(g, i) ==> FirstIn(a, |a|, Ascii(KeyOf(g, i))) == KeyValue(name, app, g, i)
  {
    if SfoGroup(g) {
      OptionalGroupGives(name, app, g);
    } else {
      MandatoryGroupGives(name, app, g);
    }
  }

  lemma {:induction false} FirstNumbersGrow(h: nat, g: nat)
    requires h < g <= 9
    ensures FirstNumber(h + 1) <= FirstNumber(g)
  {
  }

  lemma {:induction false} NotInOtherGroup(attrs: seq<Attr>, h: nat, g: nat, key: Text)
    requires h < 9 && g < 9 && h != g && FirstNumber(g) <= Number(key) < FirstNumber(g + 1)
    requires SomeOf(attrs, FirstNumber(h), FirstNumber(h + 1) - FirstNumber(h))
    ensures forall j :: 0 <= j < |attrs| ==> attrs[j].0 != key
  {
    if h < g {
      FirstNumbersGrow(h, g);
    } else {
      FirstNumbersGrow(g, h);
    }
  }

  /** Each of the 89 keys is given exactly the value computed for it, and an optional one that the SFO
      does not have is given none: no two attributes of a title have the same key. */
  lemma {:induction false} KeyIsGiven(name: Text, app: App, g: nat, i: nat)
    requires IsKey(g, i)
    ensures AttrOf(TitleOf(name, app), Ascii(KeyOf(g, i))) == KeyValue(name, app, g, i)
  {
    var groups: seq<seq<Attr>>, key := Groups(name, app), Ascii(KeyOf(g, i));
    KeyNumber(g, i);
    GroupGives(name, app, g);
    forall h: nat, j: nat | h < 9 && h != g && j < |groups[h]|
      ensures groups[h][j].0 != key
    {
      GroupGives(name, app, h);
      NotInOtherGroup(groups[h], h, g, key);
    }
    FirstOfOnly(groups, 9, g, key);
  }

  /** Every key of a title that a pass adds is in tbl_appinfo at its end: with its earlier value if it
      had one, otherwise with the value computed for it. */
  lemma {:induction false} TitleIsComplete(
    m: Info, rows: multiset<Row>, unique: bool, cs: seq<Candidate>, k: nat, name: Text, app: App, g: nat, i: nat)
    requires k < |cs| && AddsAt(rows, unique, cs, k) && cs[k] == TitleOf(name, app)
    requires IsKey(g, i) && KeyValue(name, app, g, i).Some?
    ensures var p := (app.titleId, Ascii(KeyOf(g, i)));
            Get(InfoPass(m, rows, unique, cs, |cs|), p) ==
              Better(Get(InfoPass(m, rows, unique, cs, k), p), KeyValue(name, app, g, i))
  {
    KeyIsGiven(name, app, g, i);
    AddedIsComplete(m, rows, unique, cs, k, Ascii(KeyOf(g, i)));
  }

  lemma {:induction false} SamePath(name: Text)
    ensures Ascii("/user/appmeta/") + Literal(name) == Ascii("/user/appmeta/") + name <==> Literal(name) == name
  {
    var dir := Ascii("/user/appmeta/");
    assert (dir + name)[|dir|..] == name && (dir + Literal(name))[|dir|..] == Literal(name);
  }

  lemma {:induction false} CandidateAt(fs: Files, list: seq<DirEnt>, i: nat)
    requires i < |list|
    ensures var c := Candidates(fs, list)[i];
            && c == CandidateOf(fs, list[i]) && (c.Title? <==> Eligible(fs, list[i]))
            && (c.Title? ==> c == TitleOf(list[i].name, AppOf(fs, list[i])))
            && (c.Title? ==> c.name == Literal(list[i].name) && c.row.titleId == AppOf(fs, list[i]).titleId)
  {
  }

  /** What a title puts into tbl_appinfo agrees with its row in the browse table. The path in the row
      is pasted, that in tbl_appinfo is not: they agree when the name has no apostrophe. */
  lemma {:induction false} RowAgreesWithInfo(name: Text, app: App)
    ensures var c := TitleOf(name, app);
            && AttrOf(c, Ascii("TITLE")) == Some(Str(c.row.titleName))
            && AttrOf(c, Ascii("TITLE_ID")) == Some(Str(c.row.titleId))
            && AttrOf(c, Ascii("CATEGORY")) == Some(Str(c.row.category))
            && AttrOf(c, Ascii("CONTENT_ID")) == Some(Str(c.row.contentId))
            && AttrOf(c, Ascii("#_size")) == Some(Num(c.row.contentSize))
            && (AttrOf(c, Ascii("_metadata_path")) == Some(Str(c.row.metaDataPath)) <==> Literal(name) == name)
  {
    SamePath(name);
    KeyIsGiven(name, app, 0, 0);
    KeyIsGiven(name, app, 0, 1);
    KeyIsGiven(name, app, 0, 2);
    KeyIsGiven(name, app, 0, 3);
    KeyIsGiven(name, app, 6, 2);
    KeyIsGiven(name, app, 6, 0);
  }

  // ---------------------------------------------------------------- the loops

  lemma {:induction false} PutAllPrefix(m: Info, title: Text, a: seq<Attr>, b: seq<Attr>, n: nat)
    requires n <= |a|
    ensures PutAll(m, title, a + b, n) == PutAll(m, title, a, n)
  {
    if n > 0 {
      PutAllPrefix(m, title, a, b, n - 1);
    }
  }

  lemma {:induction false} PutAllAppend(m: Info, title: Text, a: seq<Attr>, b: seq<Attr>, n: nat)
    requires n <= |b|
    ensures PutAll(m, title, a + b, |a| + n) == PutAll(PutAll(m, title, a, |a|), title, b, n)
    decreases n
  {
    if n == 0 {
      PutAllPrefix(m, title, a, b, |a|);
    } else {
      PutAllAppend(m, title, a, b, n - 1);
      assert (a + b)[|a| + n - 1] == b[n - 1];
    }
  }

  lemma {:induction false} OptionalStep(m: Info, title: Text, ps: seq<Param>, keys: seq<string>, n: nat)
    requires n < |keys|
    ensures var first, more := OptionalAttrs(ps, keys, n), OptionalAttr(ps, keys[n]);
            PutAll(m, title, OptionalAttrs(ps, keys, n + 1), |OptionalAttrs(ps, keys, n + 1)|) ==
              PutAll(PutAll(m, title, first, |first|), title, more, |more|)
  {
    var more := OptionalAttr(ps, keys[n]);
    PutAllAppend(m, title, OptionalAttrs(ps, keys, n), more, |more|);
  }

  lemma {:induction false} GroupDone(
    m: Info, title: Text, groups: seq<seq<Attr>>, g: nat, attrs: seq<Attr>) returns (next: nat)
    requires g < |groups| && groups[g] == attrs
    ensures next == g + 1
    ensures PutGroups(m, title, groups, next) == PutAll(PutGroups(m, title, groups, g), title, attrs, |attrs|)
  {
    next := g + 1;
  }

  /** A table and what readdir yields while it is rebuilt; None when /user/app does not open. */
  datatype Listing = Listing(table: Text, dir: Option<seq<DirEnt>>)

  predicate EntryPastes(fs: Files, e: DirEnt) {
    e.isDir && |e.name| == 9 ==> Pastes(fs, e.name)
  }

  ghost predicate ListingPastes(fs: Files, l: Listing) {
    l.dir.Some? ==> forall e :: e in l.dir.value ==> EntryPastes(fs, e)
  }

  /** No directory name is a piece of SQL when it is pasted between apostrophes. */
  ghost predicate NamesPaste(fs: Files, ls: seq<Listing>) {
    forall i :: 0 <= i < |ls| ==> ListingPastes(fs, ls[i])
  }

  predicate AllOpen(ls: seq<Listing>, n: nat)
    requires n <= |ls|
  {
    forall i :: 0 <= i < n ==> ls[i].dir.Some?
  }

  ghost function VisitOf(fs: Files, l: Listing): Visit {
    Visit(l.table, if l.dir.None? then None else Some(Candidates(fs, l.dir.value)))
  }

  ghost function VisitsOf(fs: Files, ls: seq<Listing>): (vs: seq<Visit>)
    ensures |vs| == |ls| && forall i :: 0 <= i < |ls| ==> vs[i] == VisitOf(fs, ls[i])
  {
    seq(|ls|, i requires 0 <= i < |ls| => VisitOf(fs, ls[i]))
  }

  lemma {:induction false} NotPkg(name: Text)
    ensures !IsPkgPath(MetaPath(name))
  {
    var path := MetaPath(name);
    assert path[|path| - 4 + 1] == Ascii("/param.sfo")[7] == 's' as int;
    assert Ascii(".pkg")[1] == 'p' as int;
  }

  /** Reading a title's param.sfo into a fresh context. */
  method ReadParams(fs: Files, name: Text) returns (ctx: SfoContext?, ret: int)
    ensures ctx != null ==> fresh(ctx) && ctx.Valid()
    ensures ret == 0 <==> ParamsOf(fs, name).Some?
    ensures ret == 0 ==> ctx != null && ctx.Params() == ParamsOf(fs, name).value
  {
    var path, heap := MetaPath(name), HeapFor(fs, name);
    NotPkg(name);
    ctx := SfoAlloc(heap);
    ret := SfoRead(ctx, Some(path), fs.metas, heap);
  }

  /** The databases an abstract run goes through. */
  ghost predicate IsTrail(db: Db, vs: seq<Visit>, trail: seq<Db>) {
    && Known(db, vs) && |trail| == |vs| + 1
    && forall i {:trigger Run(db, vs, i)} :: 0 <= i <= |vs| ==> trail[i] == Run(db, vs, i)
  }

  ghost function TrailOf(db: Db, vs: seq<Visit>): (trail: seq<Db>)
    requires Known(db, vs)
    ensures IsTrail(db, vs, trail)
  {
    seq(|vs| + 1, i requires 0 <= i <= |vs| => Run(db, vs, i))
  }

  /** A value of the context as a string. */
  method GetText(ctx: SfoContext, key: string) returns (v: Option<Text>)
    requires ctx.Valid()
    ensures v.Some? <==> Lookup(ctx.Params(), key).Some?
    ensures v.Some? ==> v.value == Str0(Lookup(ctx.Params(), key).value)
  {
    var value := GetParamValue(ctx, Some(Ascii(key)));
    v := if value.None? then None else Some(Str0(value.value));
  }

  /** The four fields, looked up in the context. */
  method ReadFields(ctx: SfoContext, size: nat) returns (app: Option<App>)
    requires ctx.Valid()
    ensures app == if Complete(ctx.Params()) then Some(AppFrom(ctx.Params(), size)) else None
  {
    var title := GetText(ctx, "TITLE");
    var titleId := GetText(ctx, "TITLE_ID");
    var content := GetText(ctx, "CONTENT_ID");
    var category := GetText(ctx, "CATEGORY");
    if title.None? || titleId.None? || content.None? || category.None? {
      return None;
    }
    var shown := if category.value == Ascii("gp") then Ascii("gd") else category.value;
    app := Some(App(titleId.value, title.value, content.value, shown, size, ctx.params[..ctx.count]));
  }

  /** The files of one title, read in the order of the loop body; None for a title to skip. */
  method ReadApp(fs: Files, e: DirEnt) returns (app: Option<App>)
    requires e.isDir && |e.name| == 9
    ensures app == if HasFields(fs, e) then Some(AppOf(fs, e)) else None
  {
    if PkgPath(e.name) !in fs.sizes {
      return None;
    }
    var ctx, ret := ReadParams(fs, e.name);
    if ret != 0 {
      return None;
    }
    app := ReadFields(ctx, fs.sizes[PkgPath(e.name)]);
  }

  ghost predicate SameExcept(a: map<Text, multiset<Row>>, b: map<Text, multiset<Row>>, table: Text) {
    && table in b && a.Keys == b.Keys
    && forall t :: t in a && t != table ==> b[t] == a[t]
  }

  lemma {:induction false} SameExceptIsUpdate(a: map<Text, multiset<Row>>, b: map<Text, multiset<Row>>, table: Text)
    requires SameExcept(a, b, table)
    ensures b == a[table := b[table]]
  {
  }

  class AppDb {
    var browse: map<Text, multiset<Row>>
    var info: Info
    const uniqueTitle: bool

    ghost function View(): Db
      reads this
    {
      Db(browse, info, uniqueTitle)
    }

    constructor (db: Db)
      ensures View() == db
    {
      browse, info, uniqueTitle := db.browse, db.info, db.uniqueTitle;
    }

    /** insert_appinfo_row and insert_appinfo_row_int. */
    method InsertRow(title: Text, key: Text, val: Val)
      modifies this`info
      ensures info == Put(old(info), title, (key, val))
    {
      if (title, key) !in info {
        info := info[(title, key) := val];
      }
    }

    method InsertAll(title: Text, attrs: seq<Attr>)
      modifies this`info
      ensures info == PutAll(old(info), title, attrs, |attrs|)
    {
      for i := 0 to |attrs|
        invariant info == PutAll(old(info), title, attrs, i)
      {
        InsertRow(title, attrs[i].0, attrs[i].1);
      }
    }

    /** insert_appinfo_sfo_value. */
    method InsertSfoValue(title: Text, ps: seq<Param>, key: string)
      modifies this`info
      ensures info == PutAll(old(info), title, OptionalAttr(ps, key), |OptionalAttr(ps, key)|)
    {
      ghost var before, attrs := info, OptionalAttr(ps, key);
      var value := Lookup(ps, key);
      if value.Some? {
        InsertRow(title, Ascii(key), Str(Str0(value.value)));
        assert PutAll(before, title, attrs, 1) == Put(PutAll(before, title, attrs, 0), title, attrs[0]);
      }
    }

    method InsertSfoValues(title: Text, ps: seq<Param>, keys: seq<string>)
      modifies this`info
      ensures info == PutAll(old(info), title, AllOptional(ps, keys), |AllOptional(ps, keys)|)
    {
      for i := 0 to |keys|
        invariant info == PutAll(old(info), title, OptionalAttrs(ps, keys, i), |OptionalAttrs(ps, keys, i)|)
      {
        OptionalStep(old(info), title, ps, keys, i);
        InsertSfoValue(title, ps, keys[i]);
      }
    }

    /** insert_appinfo_sfo_value_int for each of the keys. */
    method InsertSfoInts(title: Text, ps: seq<Param>, keys: seq<string>)
      modifies this`info
      ensures info == PutAll(old(info), title, IntAttrs(ps, keys), |keys|)
    {
      for i := 0 to |keys|
        invariant info == PutAll(old(info), title, IntAttrs(ps, keys), i)
      {
        InsertRow(title, Ascii(keys[i]), IntValue(ps, keys[i]));
      }
    }

    /** The groups taken from the SFO, after the core group. */
    method InsertFromSfo(t: Text, ps: seq<Param>, ghost start: Info, ghost groups: seq<seq<Attr>>)
      requires |groups| == 9 && info == PutGroups(start, t, groups, 1)
      requires groups[1] == AllOptional(ps, OptionalKeys()) && groups[2] == IntAttrs(ps, IntKeys())
      requires groups[3] == IntAttrs(ps, UserDefinedKeys()) && groups[4] == AllOptional(ps, TransferKeys())
      requires groups[5] == AllOptional(ps, TitleKeys())
      modifies this`info
      ensures info == PutGroups(start, t, groups, 6)
    {
      ghost var g := 1;
      InsertSfoValues(t, ps, OptionalKeys());
      g := GroupDone(start, t, groups, g, groups[g]);
      InsertSfoInts(t, ps, IntKeys());
      g := GroupDone(start, t, groups, g, groups[g]);
      InsertSfoInts(t, ps, UserDefinedKeys());
      g := GroupDone(start, t, groups, g, groups[g]);
      InsertSfoValues(t, ps, TransferKeys());
      g := GroupDone(start, t, groups, g, groups[g]);
      InsertSfoValues(t, ps, TitleKeys());
      g := GroupDone(start, t, groups, g, groups[g]);
    }

    /** The groups of paths and constants at the end. */
    method InsertFixed(t: Text, name: Text, app: App, ghost start: Info, ghost groups: seq<seq<Attr>>)
      requires |groups| == 9 && info == PutGroups(start, t, groups, 6)
      requires groups[6] == PathAttrs(name, app) && groups[7] == FixedAttrs() && groups[8] == TimeAttrs()
      modifies this`info
      ensures info == PutGroups(start, t, groups, 9)
    {
      ghost var g := 6;
      InsertAll(t, PathAttrs(name, app));
      g := GroupDone(start, t, groups, g, groups[g]);
      InsertAll(t, FixedAttrs());
      g := GroupDone(start, t, groups, g, groups[g]);
      InsertAll(t, TimeAttrs());
      g := GroupDone(start, t, groups, g, groups[g]);
    }

    /** All inserts into tbl_appinfo that follow the insert of a row. */
    method InsertAttributes(name: Text, app: App)
      modifies this`info
      ensures info == PutGroups(old(info), app.titleId, Groups(name, app), |Groups(name, app)|)
    {
      ghost var start, groups, g := info, Groups(name, app), 0;
      InsertAll(app.titleId, CoreAttrs(app));
      g := GroupDone(start, app.titleId, groups, g, groups[g]);
      InsertFromSfo(app.titleId, app.params, start, groups);
      InsertFixed(app.titleId, name, app, start, groups);
    }

    /** Whether the SELECT finds a row: with a name that breaks it, it finds none. */
    method Select(table: Text, fs: Files, name: Text) returns (found: bool)
      requires table in browse && Pastes(fs, name)
      ensures found == (Quotable(name) && Present(browse[table], Literal(name)))
    {
      if name in fs.malformed && !Quotable(name) {
        return false;
      }
      found := Present(browse[table], Literal(name));
    }

    /** The row insert and what follows it, for a title read from its files. */
    method AddTitle(table: Text, fs: Files, name: Text, app: App) returns (added: bool)
      requires table in browse && Pastes(fs, name)
      modifies this
      ensures added == (Quotable(name) && !(uniqueTitle && Present(old(browse)[table], app.titleId)))
      ensures SameExcept(old(browse), browse, table)
      ensures browse[table] == if added then old(browse)[table] + multiset{RowOf(name, app)} else old(browse)[table]
      ensures info == if added then PutGroups(old(info), app.titleId, Groups(name, app), 9) else old(info)
    {
      if name in fs.malformed && !Quotable(name) {
        return false;
      }
      if uniqueTitle && Present(browse[table], app.titleId) {
        return false;
      }
      browse := browse[table := browse[table] + multiset{RowOf(name, app)}];
      InsertAttributes(name, app);
      added := true;
    }

    /** One directory entry, with the skips of the loop body in their order. */
    method RebuildEntry(table: Text, e: DirEnt, fs: Files, ghost c: Candidate) returns (added: bool)
      requires table in browse && c == CandidateOf(fs, e) && EntryPastes(fs, e)
      modifies this
      ensures SameExcept(old(browse), browse, table)
      ensures added == Adds(old(browse)[table], uniqueTitle, c)
      ensures browse[table] == RowStep(old(browse)[table], uniqueTitle, c)
      ensures info == if added then Attributed(old(info), c) else old(info)
    {
      if !e.isDir || |e.name| != 9 {
        return false;
      }
      var found := Select(table, fs, e.name);
      if found {
        return false;
      }
      var app := ReadApp(fs, e);
      if app.None? {
        return false;
      }
      added := AddTitle(table, fs, e.name, app.value);
    }

    /** The readdir loop. */
    method RebuildEntries(table: Text, list: seq<DirEnt>, fs: Files, ghost cs: seq<Candidate>) returns (added: nat)
      requires table in browse && cs == Candidates(fs, list) && forall e :: e in list ==> EntryPastes(fs, e)
      modifies this
      ensures SameExcept(old(browse), browse, table)
      ensures browse[table] == RowPass(old(browse)[table], uniqueTitle, cs, |cs|)
      ensures info == InfoPass(old(info), old(browse)[table], uniqueTitle, cs, |cs|)
      ensures added == Added(old(browse)[table], uniqueTitle, cs, |cs|)
    {
      added := 0;
      ghost var rows, m := browse[table], info;
      for i := 0 to |list|
        invariant SameExcept(old(browse), browse, table)
        invariant browse[table] == RowPass(rows, uniqueTitle, cs, i)
        invariant info == InfoPass(m, rows, uniqueTitle, cs, i)
        invariant added == Added(rows, uniqueTitle, cs, i)
      {
        PassUnfold(m, rows, uniqueTitle, cs, i);
        var more := RebuildEntry(table, list[i], fs, cs[i]);
        if more {
          added := added + 1;
        }
      }
    }

    /** rebuild_appbrowse_table. */
    method RebuildAppbrowseTable(l: Listing, fs: Files, ghost v: Visit) returns (rc: int, added: nat)
      requires v == VisitOf(fs, l) && v.table in browse && ListingPastes(fs, l)
      modifies this
      ensures rc == if l.dir.None? then 0 else 1
      ensures View() == VisitStep(old(View()), v)
      ensures v.dir.Some? ==> added == Added(old(browse)[v.table], uniqueTitle, v.dir.value, |v.dir.value|)
    {
      if l.dir.None? {
        return 0, 0;
      }
      added := RebuildEntries(l.table, l.dir.value, fs, v.dir.value);
      SameExceptIsUpdate(old(browse), browse, l.table);
      rc := 1;
    }

    /** One round of the loop over the tables. */
    method RebuildNext(ls: seq<Listing>, fs: Files, i: nat, ghost db: Db, ghost trail: seq<Db>) returns (open: bool)
      requires i < |ls| && ListingPastes(fs, ls[i]) && IsTrail(db, VisitsOf(fs, ls), trail) && View() == trail[i]
      modifies this
      ensures View() == trail[i + 1]
      ensures open == ls[i].dir.Some?
    {
      ghost var vs, next := VisitsOf(fs, ls), i + 1;
      RunStep(db, vs, i);
      assert trail[next] == Run(db, vs, next) && trail[i] == Run(db, vs, i);
      var rc, added := RebuildAppbrowseTable(ls[i], fs, vs[i]);
      open := rc != 0;
    }

    /** The loop over the tables, from state to state of the abstract run. */
    method RebuildLoop(ls: seq<Listing>, fs: Files, ghost db: Db, ghost trail: seq<Db>) returns (allOpen: bool)
      requires IsTrail(db, VisitsOf(fs, ls), trail) && View() == trail[0] && NamesPaste(fs, ls)
      modifies this
      ensures View() == trail[|ls|]
      ensures allOpen == AllOpen(ls, |ls|)
    {
      allOpen := true;
      for i := 0 to |ls|
        invariant View() == trail[i]
        invariant allOpen == AllOpen(ls, i)
      {
        var open := RebuildNext(ls, fs, i, db, trail);
        if !open {
          allOpen := false;
        }
      }
    }

    /** All tables, each in its turn; one that fails does not stop the others. */
    method RebuildTables(ls: seq<Listing>, fs: Files) returns (allOpen: bool)
      requires Known(View(), VisitsOf(fs, ls)) && NamesPaste(fs, ls)
      modifies this
      ensures View() == Run(old(View()), VisitsOf(fs, ls), |ls|)
      ensures allOpen == AllOpen(ls, |ls|)
    {
      ghost var db, vs := View(), VisitsOf(fs, ls);
      ghost var trail := TrailOf(db, vs);
      assert trail[0] == Run(db, vs, 0) && trail[|ls|] == Run(db, vs, |ls|);
      allOpen := RebuildLoop(ls, fs, db, trail);
    }

    /** appdb_rebuild on an open database: the tables, and the final save. */
    method AppdbRebuild(isOpen: bool, ls: seq<Listing>, fs: Files, saved: bool) returns (ret: int)
      requires Known(View(), VisitsOf(fs, ls)) && NamesPaste(fs, ls)
      modifies this
      ensures View() == if isOpen then Run(old(View()), VisitsOf(fs, ls), |ls|) else old(View())
      ensures ret == if isOpen && ls != [] && saved && AllOpen(ls, |ls|) then 1 else 0
    {
      if !isOpen {
        return 0;
      }
      if ls == [] {
        return 0;
      }
      var allOpen := RebuildTables(ls, fs);
      ret := if allOpen && saved then 1 else 0;
    }
  }

  // ---------------------------------------------------------------- the theorems, for directories and files

  /** Over a whole run, for a directory of a listing: when table j's turn adds a row for entry k, each
      key with a value is in tbl_appinfo when all tables are done, with the value it had before the
      entry's turn if it had one, otherwise with the value the directory's files give. */
  lemma {:induction false} AddedTitleIsComplete(
    db: Db, fs: Files, ls: seq<Listing>, j: nat, k: nat, g: nat, i: nat)
    requires Known(db, VisitsOf(fs, ls)) && j < |ls| && ls[j].dir.Some? && k < |ls[j].dir.value|
    requires AddedIn(db, VisitsOf(fs, ls), j, k) && IsKey(g, i)
    ensures Eligible(fs, ls[j].dir.value[k])
    ensures var vs, e := VisitsOf(fs, ls), ls[j].dir.value[k];
            var p, v := (AppOf(fs, e).titleId, Ascii(KeyOf(g, i))), KeyValue(e.name, AppOf(fs, e), g, i);
            v.Some? ==> Get(Run(db, vs, |vs|).info, p) == Better(Get(InfoBefore(db, vs, j, k), p), v)
  {
    var vs, list := VisitsOf(fs, ls), ls[j].dir.value;
    assert vs[j] == VisitOf(fs, ls[j]);
    CandidateAt(fs, list, k);
    KeyIsGiven(list[k].name, AppOf(fs, list[k]), g, i);
    if KeyValue(list[k].name, AppOf(fs, list[k]), g, i).Some? {
      RunIsComplete(db, vs, j, k, Ascii(KeyOf(g, i)));
    }
  }

  ghost predicate DistinctDirs(list: seq<DirEnt>) {
    forall i, j :: 0 <= i < j < |list| ==> list[i].name != list[j].name
  }

  /** A title the table misses has for TITLE_ID what its directory is looked for as: the directory
      name, when that has no apostrophe. */
  ghost predicate HonestDir(rows: multiset<Row>, fs: Files, e: DirEnt) {
    Eligible(fs, e) && !Present(rows, Literal(e.name)) ==> AppOf(fs, e).titleId == Literal(e.name)
  }

  ghost predicate HonestDirs(rows: multiset<Row>, fs: Files, list: seq<DirEnt>) {
    forall i :: 0 <= i < |list| ==> HonestDir(rows, fs, list[i])
  }

  ghost predicate HonestListings(db: Db, fs: Files, ls: seq<Listing>) {
    forall i :: 0 <= i < |ls| && ls[i].table in db.browse && ls[i].dir.Some? ==>
      HonestDirs(db.browse[ls[i].table], fs, ls[i].dir.value)
  }

  lemma {:induction false} HonestMeans(rows: multiset<Row>, fs: Files, list: seq<DirEnt>)
    ensures Honest(rows, Candidates(fs, list)) <==> HonestDirs(rows, fs, list)
    ensures DistinctDirs(list) ==> DistinctNames(Candidates(fs, list))
  {
    var cs := Candidates(fs, list);
    forall i | 0 <= i < |list|
      ensures cs[i].Title? <==> Eligible(fs, list[i])
      ensures cs[i].Title? ==> cs[i].name == Literal(list[i].name) && cs[i].row.titleId == AppOf(fs, list[i]).titleId
    {
      CandidateAt(fs, list, i);
    }
    if DistinctDirs(list) {
      forall i, j | 0 <= i < j < |list| && cs[i].Title? && cs[j].Title?
        ensures cs[i].name != cs[j].name
      {
        if cs[i].name == cs[j].name {
          LiteralsDiffer(list[i].name, list[j].name);
        }
      }
    }
  }

  ghost predicate GoodListings(db: Db, fs: Files, ls: seq<Listing>) {
    && (forall i :: 0 <= i < |ls| ==> ls[i].table in db.browse)
    && (forall i, j :: 0 <= i < j < |ls| ==> ls[i].table != ls[j].table)
    && (forall i :: 0 <= i < |ls| && ls[i].dir.Some? ==> DistinctDirs(ls[i].dir.value))
    && NamesPaste(fs, ls)
  }

  /** The listing has no entry that the other one, of the same table, did not have. */
  ghost predicate ListedBefore(l': Listing, l: Listing) {
    && l'.table == l.table
    && (l'.dir.Some? ==> l.dir.Some? && forall e :: e in l'.dir.value ==> e in l.dir.value)
  }

  ghost predicate ListedIn(l': Listing, ls: seq<Listing>) {
    exists i :: 0 <= i < |ls| && ListedBefore(l', ls[i])
  }

  lemma {:induction false} WithinListed(fs: Files, l': Listing, l: Listing)
    requires ListedBefore(l', l)
    ensures Within(VisitOf(fs, l'), VisitOf(fs, l))
  {
    if l'.dir.Some? {
      var cs', cs := Candidates(fs, l'.dir.value), Candidates(fs, l.dir.value);
      forall c | c in cs'
        ensures c in cs
      {
        var j :| 0 <= j < |cs'| && cs'[j] == c;
        assert l'.dir.value[j] in l.dir.value;
        var i :| 0 <= i < |l.dir.value| && l.dir.value[i] == l'.dir.value[j];
        assert cs[i] == c;
      }
    }
  }

  /** Every listing has its entries among those of one of the others. */
  ghost predicate AllListedIn(ls': seq<Listing>, ls: seq<Listing>) {
    forall j :: 0 <= j < |ls'| ==> ListedIn(ls'[j], ls)
  }

  lemma {:induction false} ReadIfListed(fs: Files, ls': seq<Listing>, ls: seq<Listing>)
    requires AllListedIn(ls', ls)
    ensures forall j :: 0 <= j < |ls'| ==> ReadIn(VisitsOf(fs, ls')[j], VisitsOf(fs, ls))
  {
    var vs, vs' := VisitsOf(fs, ls), VisitsOf(fs, ls');
    forall j | 0 <= j < |ls'|
      ensures ReadIn(vs'[j], vs)
    {
      assert ListedIn(ls'[j], ls);
      var i :| 0 <= i < |ls| && ListedBefore(ls'[j], ls[i]);
      WithinListed(fs, ls'[j], ls[i]);
      assert vs'[j] == VisitOf(fs, ls'[j]) && vs[i] == VisitOf(fs, ls[i]);
    }
  }

  lemma {:induction false} GoodVisits(db: Db, fs: Files, ls: seq<Listing>)
    requires GoodListings(db, fs, ls)
    ensures var vs := VisitsOf(fs, ls);
            && Known(db, vs) && DistinctTables(vs) && DistinctListings(vs)
            && ((forall i :: 0 <= i < |vs| ==> HonestVisit(db, vs[i])) <==> HonestListings(db, fs, ls))
  {
    var vs := VisitsOf(fs, ls);
    forall i | 0 <= i < |ls|
      ensures HonestVisit(db, vs[i]) <==> ls[i].dir.Some? ==> HonestDirs(db.browse[ls[i].table], fs, ls[i].dir.value)
      ensures vs[i].dir.Some? ==> DistinctNames(vs[i].dir.value)
    {
      assert vs[i] == VisitOf(fs, ls[i]);
      if ls[i].dir.Some? {
        HonestMeans(db.browse[ls[i].table], fs, ls[i].dir.value);
      }
    }
  }

  /** A second full rebuild over unchanged files, reading the same entries in any order, leaves the
      database as it is exactly when the tables refuse duplicate titles or every missing title has for
      TITLE_ID what its directory is looked for as. */
  lemma {:induction false} SecondRebuildExactly(db: Db, fs: Files, ls: seq<Listing>, ls': seq<Listing>)
    requires GoodListings(db, fs, ls) && AllListedIn(ls', ls) && AllListedIn(ls, ls')
    ensures var vs, vs' := VisitsOf(fs, ls), VisitsOf(fs, ls');
            && Known(db, vs) && Known(Run(db, vs, |vs|), vs')
            && (Run(Run(db, vs, |vs|), vs', |vs'|) == Run(db, vs, |vs|) <==>
                db.uniqueTitle || HonestListings(db, fs, ls))
  {
    GoodVisits(db, fs, ls);
    ReadIfListed(fs, ls', ls);
    ReadIfListed(fs, ls, ls');
    RebuildTwiceExactly(db, VisitsOf(fs, ls), VisitsOf(fs, ls'));
  }

  /** Under that condition no later rebuild over unchanged files changes anything, whatever order,
      and however much of the entries, readdir and sqlite_master deliver this time. */
  lemma {:induction false} LaterRebuildChangesNothing(db: Db, fs: Files, ls: seq<Listing>, ls': seq<Listing>)
    requires GoodListings(db, fs, ls) && (db.uniqueTitle || HonestListings(db, fs, ls)) && AllListedIn(ls', ls)
    ensures var vs, vs' := VisitsOf(fs, ls), VisitsOf(fs, ls');
            && Known(db, vs) && Known(Run(db, vs, |vs|), vs')
            && Run(Run(db, vs, |vs|), vs', |vs'|) == Run(db, vs, |vs|)
  {
    GoodVisits(db, fs, ls);
    ReadIfListed(fs, ls', ls);
    LaterRunChangesNothing(db, VisitsOf(fs, ls), VisitsOf(fs, ls'));
  }

  /** The directory /user/app: no two entries share a name. */
  ghost predicate OneEntryPerName(dir: set<DirEnt>) {
    forall e, e' :: e in dir && e' in dir && e.name == e'.name ==> e == e'
  }

  /** Every listing opens and yields that directory, in some order. */
  ghost predicate Lists(ls: seq<Listing>, dir: set<DirEnt>) {
    forall i :: 0 <= i < |ls| ==> ls[i].dir.Some? && forall e :: e in dir <==> e in ls[i].dir.value
  }

  ghost predicate Covers(ls: seq<Listing>, t: Text) {
    exists i :: 0 <= i < |ls| && ls[i].table == t
  }

  ghost function Titles(fs: Files, dir: set<DirEnt>): set<Candidate> {
    set e | e in dir && Eligible(fs, e) :: CandidateOf(fs, e)
  }

  lemma {:induction false} TitleIsListed(fs: Files, list: seq<DirEnt>, e: DirEnt)
    requires e in list
    ensures CandidateOf(fs, e) in Candidates(fs, list)
  {
    var i :| 0 <= i < |list| && list[i] == e;
    assert Candidates(fs, list)[i] == CandidateOf(fs, e);
  }

  lemma {:induction false} ListedIsTitle(fs: Files, list: seq<DirEnt>, c: Candidate) returns (e: DirEnt)
    requires c in Candidates(fs, list)
    ensures e in list && c == CandidateOf(fs, e)
  {
    var i :| 0 <= i < |list| && Candidates(fs, list)[i] == c;
    e := list[i];
  }

  lemma {:induction false} TitleIsEligible(fs: Files, e: DirEnt)
    ensures CandidateOf(fs, e).Title? <==> Eligible(fs, e)
    ensures Eligible(fs, e) ==> CandidateOf(fs, e).name == Literal(e.name)
  {
  }

  lemma {:induction false} EntryOfTitle(fs: Files, dir: set<DirEnt>, c: Candidate) returns (e: DirEnt)
    requires c in Titles(fs, dir)
    ensures e in dir && Eligible(fs, e) && Quotable(e.name)
    ensures c == CandidateOf(fs, e) && c.Title? && c.name == Literal(e.name) && c.row.titleId == AppOf(fs, e).titleId
  {
    e :| e in dir && Eligible(fs, e) && c == CandidateOf(fs, e);
  }

  lemma {:induction false} ListingIsUniform(fs: Files, dir: set<DirEnt>, table: Text, list: seq<DirEnt>)
    requires DistinctDirs(list) && forall e :: e in dir <==> e in list
    ensures UniformVisit(Visit(table, Some(Candidates(fs, list))), Titles(fs, dir))
  {
    HonestMeans(multiset{}, fs, list);
    forall c
      ensures c in Titles(fs, dir) <==> c in Candidates(fs, list) && c.Title?
    {
      if c in Titles(fs, dir) {
        var e := EntryOfTitle(fs, dir, c);
        TitleIsListed(fs, list, e);
      }
      if c in Candidates(fs, list) && c.Title? {
        var e := ListedIsTitle(fs, list, c);
        TitleIsEligible(fs, e);
      }
    }
  }

  lemma {:induction false} SameNameSameEntry(fs: Files, dir: set<DirEnt>, e: DirEnt, e': DirEnt)
    requires OneEntryPerName(dir) && e in dir && e' in dir && Quotable(e.name) && Quotable(e'.name)
    requires Literal(e.name) == Literal(e'.name)
    ensures e == e'
  {
    LiteralsDiffer(e.name, e'.name);
  }

  lemma {:induction false} OneRowEach(fs: Files, dir: set<DirEnt>)
    requires OneEntryPerName(dir)
    ensures OneRowPerName(Titles(fs, dir))
  {
    var titles := Titles(fs, dir);
    forall c, c' | c in titles && c' in titles && c.Title? && c'.Title? && c.name == c'.name
      ensures c == c'
    {
      var e := EntryOfTitle(fs, dir, c);
      var e' := EntryOfTitle(fs, dir, c');
      SameNameSameEntry(fs, dir, e, e');
    }
  }

  /** Every title that some visited table misses has for TITLE_ID what its directory is looked for as. */
  ghost predicate MissingAreHonest(db: Db, fs: Files, ls: seq<Listing>, dir: set<DirEnt>) {
    forall e, i :: e in dir && 0 <= i < |ls| && ls[i].table in db.browse ==>
      HonestDir(db.browse[ls[i].table], fs, e)
  }

  lemma {:induction false} MissingAreNamed(db: Db, fs: Files, ls: seq<Listing>, dir: set<DirEnt>)
    requires GoodListings(db, fs, ls) && MissingAreHonest(db, fs, ls, dir)
    ensures Known(db, VisitsOf(fs, ls))
    ensures Named(Missing(db, VisitsOf(fs, ls), Titles(fs, dir), |ls|))
  {
    var vs := VisitsOf(fs, ls);
    forall c | c in Missing(db, vs, Titles(fs, dir), |ls|)
      ensures c.Title? && c.row.titleId == c.name
    {
      var e := EntryOfTitle(fs, dir, c);
      var i :| 0 <= i < |ls| && !Present(db.browse[vs[i].table], c.name);
      assert vs[i] == VisitOf(fs, ls[i]) && HonestDir(db.browse[ls[i].table], fs, e);
    }
  }

  lemma {:induction false} UniformListings(db: Db, fs: Files, ls: seq<Listing>, dir: set<DirEnt>)
    requires GoodListings(db, fs, ls) && Lists(ls, dir) && OneEntryPerName(dir) && MissingAreHonest(db, fs, ls, dir)
    ensures Known(db, VisitsOf(fs, ls)) && DistinctTables(VisitsOf(fs, ls))
    ensures Uniform(db, VisitsOf(fs, ls), Titles(fs, dir))
  {
    var vs := VisitsOf(fs, ls);
    forall i | 0 <= i < |vs|
      ensures UniformVisit(vs[i], Titles(fs, dir))
    {
      assert vs[i] == VisitOf(fs, ls[i]);
      ListingIsUniform(fs, dir, ls[i].table, ls[i].dir.value);
    }
    MissingAreNamed(db, fs, ls, dir);
    OneRowEach(fs, dir);
  }

  lemma {:induction false} HonestForBoth(db: Db, fs: Files, ls: seq<Listing>, ls': seq<Listing>, dir: set<DirEnt>)
    requires forall t :: Covers(ls, t) <==> Covers(ls', t)
    requires MissingAreHonest(db, fs, ls, dir)
    ensures MissingAreHonest(db, fs, ls', dir)
  {
    forall e, i | e in dir && 0 <= i < |ls'| && ls'[i].table in db.browse
      ensures HonestDir(db.browse[ls'[i].table], fs, e)
    {
      assert Covers(ls', ls'[i].table);
      var j :| 0 <= j < |ls| && ls[j].table == ls'[i].table;
    }
  }

  lemma {:induction false} SameTables(fs: Files, ls: seq<Listing>, t: Text)
    ensures VisitedBy(VisitsOf(fs, ls), t) <==> Covers(ls, t)
  {
  }

  /** Whatever order readdir and sqlite_master deliver, the rebuilt database is the same, when every
      title that some table misses is honest about its name. */
  lemma {:induction false} RebuildOrderIsIrrelevant(
    db: Db, fs: Files, ls: seq<Listing>, ls': seq<Listing>, dir: set<DirEnt>)
    requires GoodListings(db, fs, ls) && GoodListings(db, fs, ls') && OneEntryPerName(dir)
    requires Lists(ls, dir) && Lists(ls', dir)
    requires forall t :: Covers(ls, t) <==> Covers(ls', t)
    requires MissingAreHonest(db, fs, ls, dir)
    ensures Known(db, VisitsOf(fs, ls)) && Known(db, VisitsOf(fs, ls'))
    ensures Run(db, VisitsOf(fs, ls), |ls|) == Run(db, VisitsOf(fs, ls'), |ls'|)
  {
    var vs, vs' := VisitsOf(fs, ls), VisitsOf(fs, ls');
    HonestForBoth(db, fs, ls, ls', dir);
    UniformListings(db, fs, ls, dir);
    UniformListings(db, fs, ls', dir);
    forall t
      ensures VisitedBy(vs, t) <==> VisitedBy(vs', t)
    {
      SameTables(fs, ls, t);
      SameTables(fs, ls', t);
    }
    RebuildIsConfluent(db, vs, vs', Titles(fs, dir));
  }
}

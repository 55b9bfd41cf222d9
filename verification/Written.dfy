/** From what the writer of a param.sfo put in to the rows and attributes of its title, in the terms of
    the file and of tbl_appinfo, and what that means for one directory (src/sqlite_db.c). */
module Written {
  import opened Bytes
  import opened Wrappers
  import opened Sfo
  import opened Tables
  import opened Rebuild
  import Pkg

  // ---------------------------------------------------------------- reading what was written

  function StoredAll(items: seq<Item>): (ps: seq<Param>)
    ensures |ps| == |items|
  {
    seq(|items|, i requires 0 <= i < |items| => Stored(items[i]))
  }

  ghost predicate FirstUnder(items: seq<Item>, key: string, i: int) {
    0 <= i < |items| && items[i].key == Ascii(key) && forall j :: 0 <= j < i ==> items[j].key != Ascii(key)
  }

  ghost predicate HasKey(items: seq<Item>, key: string) {
    exists i :: 0 <= i < |items| && items[i].key == Ascii(key)
  }

  /** The first value under the key begins with this string and a NUL. */
  ghost predicate HoldsText(items: seq<Item>, key: string, text: Text) {
    0 !in text && exists i, rest :: FirstUnder(items, key, i) && items[i].value == text + [0] + rest
  }

  /** Four bytes as a number, least significant first. */
  function Little(v: seq<byte>): int
    requires |v| >= 4
  {
    var v0: int, v1: int, v2: int, v3: int := v[0], v[1], v[2], v[3];
    v0 + 0x100 * v1 + 0x1_0000 * v2 + 0x100_0000 * v3
  }

  /** The first value under the key begins with this number. */
  ghost predicate HoldsInt(items: seq<Item>, key: string, w: nat) {
    exists i :: FirstUnder(items, key, i) && |items[i].value| >= 4 && w == Little(items[i].value)
  }

  ghost predicate Grants(heap: Heap, n: nat) {
    heap.context && heap.buffer &&
    forall i: nat :: i < n ==> i !in heap.noRoom && i !in heap.noKey && i !in heap.noValue
  }

  /** The title's param.sfo is what a writer makes of these parameters, and memory suffices to read it. */
  ghost predicate WrittenAs(fs: Files, name: Text, items: seq<Item>, pad: seq<byte>, tail: seq<byte>) {
    var path := Ascii("/system_data/priv/appmeta/") + name + Ascii("/param.sfo");
    && path in fs.metas && Fits(items, pad)
    && fs.metas[path] == Serialize(items, pad, tail) && Grants(HeapFor(fs, name), |items|)
  }

  lemma {:induction false} GrantsAll(heap: Heap, m: nat, n: nat)
    requires Grants(heap, n) && m <= n
    ensures AllFind(heap, 0, 64, m)
  {
    if m > 0 {
      GrantsAll(heap, m - 1, n);
    }
  }

  lemma {:induction false} WrittenIsRead(fs: Files, name: Text, items: seq<Item>, pad: seq<byte>, tail: seq<byte>)
    requires WrittenAs(fs, name, items, pad, tail)
    ensures ParamsOf(fs, name) == Some(StoredAll(items))
  {
    var heap := HeapFor(fs, name);
    GrantsAll(heap, |items|, |items|);
    ReadsBack(items, pad, tail, heap);
    assert TakenUpTo(Serialize(items, pad, tail), heap, |items|) == StoredAll(items);
  }

  lemma {:induction false} StoredIsFound(items: seq<Item>, key: string)
    ensures Lookup(StoredAll(items), key).Some? <==> HasKey(items, key)
  {
    var ps := StoredAll(items);
    forall i | 0 <= i < |items|
      ensures Matches(ps[i], Ascii(key)) <==> items[i].key == Ascii(key)
    {
    }
    if HasKey(items, key) {
      var i :| 0 <= i < |items| && items[i].key == Ascii(key);
      assert Matches(ps[i], Ascii(key));
    }
  }

  /** A key's value is the first one written under it. */
  lemma {:induction false} WrittenValueIsUsed(
    fs: Files, name: Text, items: seq<Item>, pad: seq<byte>, tail: seq<byte>, key: string, i: nat)
    requires WrittenAs(fs, name, items, pad, tail) && FirstUnder(items, key, i)
    ensures ParamsOf(fs, name).Some? && Lookup(ParamsOf(fs, name).value, key) == Some(items[i].value)
  {
    WrittenIsRead(fs, name, items, pad, tail);
    FirstMatchIs(StoredAll(items), Ascii(key), i);
  }

  lemma {:induction false} NothingIsMadeUp(
    fs: Files, name: Text, items: seq<Item>, pad: seq<byte>, tail: seq<byte>, key: string)
    requires WrittenAs(fs, name, items, pad, tail) && !HasKey(items, key)
    ensures ParamsOf(fs, name).Some? && Lookup(ParamsOf(fs, name).value, key) == None
  {
    WrittenIsRead(fs, name, items, pad, tail);
    StoredIsFound(items, key);
  }

  lemma {:induction false} StringEnds(text: Text, rest: seq<byte>)
    requires 0 !in text
    ensures Str0(text + [0] + rest) == text
  {
    var b := text + [0] + rest;
    assert b[0..0 + |text| + 1] == text + [0];
    CStringAt(b, 0, text);
  }

  lemma {:induction false} WrittenTextIsUsed(
    fs: Files, name: Text, items: seq<Item>, pad: seq<byte>, tail: seq<byte>, key: string, text: Text)
    requires WrittenAs(fs, name, items, pad, tail) && HoldsText(items, key, text)
    ensures ParamsOf(fs, name).Some? && Lookup(ParamsOf(fs, name).value, key).Some?
    ensures Str0(Lookup(ParamsOf(fs, name).value, key).value) == text
  {
    var i, rest :| FirstUnder(items, key, i) && items[i].value == text + [0] + rest;
    WrittenValueIsUsed(fs, name, items, pad, tail, key, i);
    StringEnds(text, rest);
  }

  // ---------------------------------------------------------------- the title and its row

  lemma {:induction false} WrittenIsComplete(items: seq<Item>)
    ensures Complete(StoredAll(items)) <==>
              && HasKey(items, "TITLE") && HasKey(items, "TITLE_ID")
              && HasKey(items, "CONTENT_ID") && HasKey(items, "CATEGORY")
  {
    StoredIsFound(items, "TITLE");
    StoredIsFound(items, "TITLE_ID");
    StoredIsFound(items, "CONTENT_ID");
    StoredIsFound(items, "CATEGORY");
  }

  /** Which directories are added: those with an app.pkg and the four fields in what the SFO's writer wrote. */
  lemma {:induction false} WrittenTitleIsEligible(
    fs: Files, e: DirEnt, items: seq<Item>, pad: seq<byte>, tail: seq<byte>)
    requires WrittenAs(fs, e.name, items, pad, tail)
    ensures Eligible(fs, e) <==>
              && e.isDir && |e.name| == 9 && Quotable(e.name)
              && Ascii("/user/app/") + e.name + Ascii("/app.pkg") in fs.sizes
              && HasKey(items, "TITLE") && HasKey(items, "TITLE_ID")
              && HasKey(items, "CONTENT_ID") && HasKey(items, "CATEGORY")
  {
    WrittenIsRead(fs, e.name, items, pad, tail);
    WrittenIsComplete(items);
  }

  lemma {:induction false} AppHas(fs: Files, e: DirEnt, key: string, text: Text)
    requires HasFields(fs, e) && key in {"TITLE", "TITLE_ID", "CONTENT_ID", "CATEGORY"}
    requires Lookup(ParamsOf(fs, e.name).value, key).Some?
    requires Str0(Lookup(ParamsOf(fs, e.name).value, key).value) == text
    ensures key == "TITLE" ==> AppOf(fs, e).title == text
    ensures key == "TITLE_ID" ==> AppOf(fs, e).titleId == text
    ensures key == "CONTENT_ID" ==> AppOf(fs, e).contentId == text
    ensures key == "CATEGORY" ==> AppOf(fs, e).category == if text == Ascii("gp") then Ascii("gd") else text
  {
  }

  lemma {:induction false} AppSize(fs: Files, e: DirEnt)
    requires HasFields(fs, e)
    ensures AppOf(fs, e).params == ParamsOf(fs, e.name).value
    ensures var path := Ascii("/user/app/") + e.name + Ascii("/app.pkg");
            path in fs.sizes && AppOf(fs, e).size == fs.sizes[path]
  {
  }

  lemma {:induction false} TwoAndThree()
    ensures |Ascii("gd")| == |Ascii("gp")| == 2 && |Ascii("gde")| == 3
  {
  }

  lemma {:induction false} RowIs(name: Text, app: App)
    ensures var row := TitleOf(name, app).row;
            && row.titleName == app.title && row.titleId == app.titleId && row.contentId == app.contentId
            && row.category == app.category && row.contentSize == app.size
            && row.uiCategory == (if app.category == Ascii("gde") then Ascii("app") else Ascii("game"))
            && row.metaDataPath == Ascii("/user/appmeta/") + Literal(name)
  {
  }

  /** The row a title gets, column by column, from the strings its param.sfo was written with: category
      "gp" becomes "gd", and "gde" makes an app where any other category makes a game. */
  lemma {:induction false} WrittenRow(
    fs: Files, e: DirEnt, items: seq<Item>, pad: seq<byte>, tail: seq<byte>,
    title: Text, titleId: Text, contentId: Text, category: Text)
    requires WrittenAs(fs, e.name, items, pad, tail) && Eligible(fs, e)
    requires HoldsText(items, "TITLE", title) && HoldsText(items, "TITLE_ID", titleId)
    requires HoldsText(items, "CONTENT_ID", contentId) && HoldsText(items, "CATEGORY", category)
    ensures CandidateOf(fs, e).Title?
    ensures var row, path := CandidateOf(fs, e).row, Ascii("/user/app/") + e.name + Ascii("/app.pkg");
            && row.titleName == title && row.titleId == titleId && row.contentId == contentId
            && row.category == (if category == Ascii("gp") then Ascii("gd") else category)
            && row.uiCategory == (if category == Ascii("gde") then Ascii("app") else Ascii("game"))
            && row.metaDataPath == Ascii("/user/appmeta/") + Literal(e.name)
            && path in fs.sizes && row.contentSize == fs.sizes[path]
  {
    WrittenTextIsUsed(fs, e.name, items, pad, tail, "TITLE", title);
    WrittenTextIsUsed(fs, e.name, items, pad, tail, "TITLE_ID", titleId);
    WrittenTextIsUsed(fs, e.name, items, pad, tail, "CONTENT_ID", contentId);
    WrittenTextIsUsed(fs, e.name, items, pad, tail, "CATEGORY", category);
    AppHas(fs, e, "TITLE", title);
    AppHas(fs, e, "TITLE_ID", titleId);
    AppHas(fs, e, "CONTENT_ID", contentId);
    AppHas(fs, e, "CATEGORY", category);
    AppSize(fs, e);
    RowIs(e.name, AppOf(fs, e));
    TwoAndThree();
  }

  // ---------------------------------------------------------------- the attributes

  lemma {:induction false} IntKeyPlace(key: string) returns (g: nat, i: nat)
    requires key in {"APP_TYPE", "ATTRIBUTE", "PARENTAL_LEVEL", "SYSTEM_VER", "DOWNLOAD_DATA_SIZE",
                     "REMOTE_PLAY_KEY_ASSIGN", "ATTRIBUTE_INTERNAL", "DISP_LOCATION_1", "DISP_LOCATION_2",
                     "PT_PARAM", "USER_DEFINED_PARAM_1", "USER_DEFINED_PARAM_2", "USER_DEFINED_PARAM_3",
                     "USER_DEFINED_PARAM_4"}
    ensures (g == 2 || g == 3) && IsKey(g, i) && KeyOf(g, i) == key
  {
    g := 2;
    if key == "APP_TYPE" {
      return g, 0;
    }
    if key == "ATTRIBUTE" {
      return g, 1;
    }
    if key == "PARENTAL_LEVEL" {
      return g, 2;
    }
    if key == "SYSTEM_VER" {
      return g, 3;
    }
    if key == "DOWNLOAD_DATA_SIZE" {
      return g, 4;
    }
    if key == "REMOTE_PLAY_KEY_ASSIGN" {
      return g, 5;
    }
    if key == "ATTRIBUTE_INTERNAL" {
      return g, 6;
    }
    if key == "DISP_LOCATION_1" {
      return g, 7;
    }
    if key == "DISP_LOCATION_2" {
      return g, 8;
    }
    if key == "PT_PARAM" {
      return g, 9;
    }
    g := 3;
    assert UserDefinedKey(0) == "USER_DEFINED_PARAM_1" && UserDefinedKey(1) == "USER_DEFINED_PARAM_2";
    assert UserDefinedKey(2) == "USER_DEFINED_PARAM_3" && UserDefinedKey(3) == "USER_DEFINED_PARAM_4";
    i := if key == "USER_DEFINED_PARAM_1" then 0 else if key == "USER_DEFINED_PARAM_2" then 1
         else if key == "USER_DEFINED_PARAM_3" then 2 else 3;
  }

  lemma {:induction false} IntValueIs(ps: seq<Param>, key: string, v: seq<byte>)
    requires Lookup(ps, key) == Some(v) && |v| >= 4
    ensures IntValue(ps, key) == Num(Little(v))
  {
    Pkg.U32Bytes(v, 0);
  }

  lemma {:induction false} NoIntIsZero(ps: seq<Param>, key: string)
    requires Lookup(ps, key) == None
    ensures IntValue(ps, key) == Num(0)
  {
  }

  lemma {:induction false} IntKeyValue(name: Text, app: App, g: nat, i: nat)
    requires (g == 2 || g == 3) && IsKey(g, i)
    ensures KeyValue(name, app, g, i) == Some(IntValue(app.params, KeyOf(g, i)))
  {
  }

  lemma {:induction false} IntAttrIs(fs: Files, e: DirEnt, g: nat, k: nat)
    requires Eligible(fs, e) && (g == 2 || g == 3) && IsKey(g, k)
    ensures AttrOf(CandidateOf(fs, e), Ascii(KeyOf(g, k))) == Some(IntValue(ParamsOf(fs, e.name).value, KeyOf(g, k)))
  {
    KeyIsGiven(e.name, AppOf(fs, e), g, k);
    IntKeyValue(e.name, AppOf(fs, e), g, k);
    AppSize(fs, e);
  }

  /** Each of the 14 integer keys has for value the number its first written value begins with ... */
  lemma {:induction false} WrittenInt(
    fs: Files, e: DirEnt, items: seq<Item>, pad: seq<byte>, tail: seq<byte>, key: string, w: nat)
    requires WrittenAs(fs, e.name, items, pad, tail) && Eligible(fs, e) && HoldsInt(items, key, w)
    requires key in {"APP_TYPE", "ATTRIBUTE", "PARENTAL_LEVEL", "SYSTEM_VER", "DOWNLOAD_DATA_SIZE",
                     "REMOTE_PLAY_KEY_ASSIGN", "ATTRIBUTE_INTERNAL", "DISP_LOCATION_1", "DISP_LOCATION_2",
                     "PT_PARAM", "USER_DEFINED_PARAM_1", "USER_DEFINED_PARAM_2", "USER_DEFINED_PARAM_3",
                     "USER_DEFINED_PARAM_4"}
    ensures AttrOf(CandidateOf(fs, e), Ascii(key)) == Some(Num(w))
  {
    var g, k := IntKeyPlace(key);
    var i :| FirstUnder(items, key, i) && |items[i].value| >= 4 && w == Little(items[i].value);
    IntAttrIs(fs, e, g, k);
    WrittenValueIsUsed(fs, e.name, items, pad, tail, key, i);
    IntValueIs(ParamsOf(fs, e.name).value, key, items[i].value);
  }

  /** ... or 0 when nothing was written under it. */
  lemma {:induction false} MissingInt(
    fs: Files, e: DirEnt, items: seq<Item>, pad: seq<byte>, tail: seq<byte>, key: string)
    requires WrittenAs(fs, e.name, items, pad, tail) && Eligible(fs, e) && !HasKey(items, key)
    requires key in {"APP_TYPE", "ATTRIBUTE", "PARENTAL_LEVEL", "SYSTEM_VER", "DOWNLOAD_DATA_SIZE",
                     "REMOTE_PLAY_KEY_ASSIGN", "ATTRIBUTE_INTERNAL", "DISP_LOCATION_1", "DISP_LOCATION_2",
                     "PT_PARAM", "USER_DEFINED_PARAM_1", "USER_DEFINED_PARAM_2", "USER_DEFINED_PARAM_3",
                     "USER_DEFINED_PARAM_4"}
    ensures AttrOf(CandidateOf(fs, e), Ascii(key)) == Some(Num(0))
  {
    var g, k := IntKeyPlace(key);
    IntAttrIs(fs, e, g, k);
    NothingIsMadeUp(fs, e.name, items, pad, tail, key);
    NoIntIsZero(ParamsOf(fs, e.name).value, key);
  }

  /** Decimal digits as the C formats write them. */
  function Char(digit: nat): char
    requires digit < 10
  {
    (48 + digit) as char
  }

  lemma {:induction false} TextKeyPlace(key: string, n: nat) returns (g: nat, i: nat)
    requires || key in {"APP_VER", "VERSION", "FORMAT", "INSTALL_DIR_SAVEDATA"}
             || (1 <= n < 8 && key == "SERVICE_ID_ADDCONT_ADD_" + [Char(n)])
             || (1 <= n < 8 && key == "SAVE_DATA_TRANSFER_TITLE_ID_LIST_" + [Char(n)])
             || (n < 30 && key == "TITLE_" + [Char(n / 10), Char(n % 10)])
    ensures SfoGroup(g) && IsKey(g, i) && KeyOf(g, i) == key
  {
    if key in {"APP_VER", "VERSION", "FORMAT", "INSTALL_DIR_SAVEDATA"} {
      g := 1;
      i := if key == "APP_VER" then 0 else if key == "VERSION" then 1 else if key == "FORMAT" then 2 else 3;
    } else if n < 30 && key == "TITLE_" + [Char(n / 10), Char(n % 10)] {
      g, i := 5, n;
      assert TwoDigits(n) == [Char(n / 10), Char(n % 10)];
    } else {
      g := 4;
      i := if key == "SERVICE_ID_ADDCONT_ADD_" + [Char(n)] then 2 * n - 2 else 2 * n - 1;
      assert i / 2 + 1 == n && Decimal(n) == [Char(n)];
    }
  }

  lemma {:induction false} TextKeyValue(name: Text, app: App, g: nat, i: nat)
    requires SfoGroup(g) && IsKey(g, i)
    ensures KeyValue(name, app, g, i) == TextValue(app.params, KeyOf(g, i))
  {
  }

  lemma {:induction false} TextAttrIs(fs: Files, e: DirEnt, g: nat, k: nat)
    requires Eligible(fs, e) && SfoGroup(g) && IsKey(g, k)
    ensures AttrOf(CandidateOf(fs, e), Ascii(KeyOf(g, k))) == TextValue(ParamsOf(fs, e.name).value, KeyOf(g, k))
  {
    KeyIsGiven(e.name, AppOf(fs, e), g, k);
    TextKeyValue(e.name, AppOf(fs, e), g, k);
    AppSize(fs, e);
  }

  /** The text keys: APP_VER and its like, seven pairs with a counter, and TITLE_00 to TITLE_29. Each has
      for value the string first written under it ... */
  lemma {:induction false} WrittenText(
    fs: Files, e: DirEnt, items: seq<Item>, pad: seq<byte>, tail: seq<byte>, key: string, n: nat, text: Text)
    requires WrittenAs(fs, e.name, items, pad, tail) && Eligible(fs, e) && HoldsText(items, key, text)
    requires || key in {"APP_VER", "VERSION", "FORMAT", "INSTALL_DIR_SAVEDATA"}
             || (1 <= n < 8 && key == "SERVICE_ID_ADDCONT_ADD_" + [Char(n)])
             || (1 <= n < 8 && key == "SAVE_DATA_TRANSFER_TITLE_ID_LIST_" + [Char(n)])
             || (n < 30 && key == "TITLE_" + [Char(n / 10), Char(n % 10)])
    ensures AttrOf(CandidateOf(fs, e), Ascii(key)) == Some(Str(text))
  {
    var g, k := TextKeyPlace(key, n);
    TextAttrIs(fs, e, g, k);
    WrittenTextIsUsed(fs, e.name, items, pad, tail, key, text);
  }

  /** ... and is not there when nothing was written under it. */
  lemma {:induction false} MissingText(
    fs: Files, e: DirEnt, items: seq<Item>, pad: seq<byte>, tail: seq<byte>, key: string, n: nat)
    requires WrittenAs(fs, e.name, items, pad, tail) && Eligible(fs, e) && !HasKey(items, key)
    requires || key in {"APP_VER", "VERSION", "FORMAT", "INSTALL_DIR_SAVEDATA"}
             || (1 <= n < 8 && key == "SERVICE_ID_ADDCONT_ADD_" + [Char(n)])
             || (1 <= n < 8 && key == "SAVE_DATA_TRANSFER_TITLE_ID_LIST_" + [Char(n)])
             || (n < 30 && key == "TITLE_" + [Char(n / 10), Char(n % 10)])
    ensures AttrOf(CandidateOf(fs, e), Ascii(key)) == None
  {
    var g, k := TextKeyPlace(key, n);
    TextAttrIs(fs, e, g, k);
    NothingIsMadeUp(fs, e.name, items, pad, tail, key);
  }

  /** The other keys, the same for every title but for its name, size and four fields. */
  lemma {:induction false} PathsAndSize(name: Text, app: App)
    ensures var c := TitleOf(name, app);
            && AttrOf(c, Ascii("_metadata_path")) == Some(Str(Ascii("/user/appmeta/") + name))
            && AttrOf(c, Ascii("_org_path")) == Some(Str(Ascii("/user/app/") + name))
            && AttrOf(c, Ascii("#_size")) == Some(Num(app.size))
  {
    KeyIsGiven(name, app, 6, 0);
    KeyIsGiven(name, app, 6, 1);
    KeyIsGiven(name, app, 6, 2);
  }

  lemma {:induction false} FixedPlace(key: string, v: nat) returns (i: nat)
    requires (key, v) in {
      ("#_contents_status", 0), ("#_access_index", 1), ("_contents_location", 0), ("#_update_index", 74),
      ("#exit_type", 0), ("_contents_ext_type", 0), ("_current_slot", 0), ("_disable_live_detail", 0),
      ("_hdd_location", 0), ("_path_info", 0), ("_path_info_2", 0), ("_size_other_hdd", 0), ("_sort_priority", 100),
      ("_uninstallable", 1), ("_view_category", 0), ("_working_status", 0), ("#_booted", 1)}
    ensures i < 17 && FixedKey(i) == key && FixedValue(i) == v
  {
    if key == "#_contents_status" {
      return 0;
    }
    if key == "#_access_index" {
      return 1;
    }
    if key == "_contents_location" {
      return 2;
    }
    if key == "#_update_index" {
      return 3;
    }
    if key == "#exit_type" {
      return 4;
    }
    if key == "_contents_ext_type" {
      return 5;
    }
    if key == "_current_slot" {
      return 6;
    }
    if key == "_disable_live_detail" {
      return 7;
    }
    if key == "_hdd_location" {
      return 8;
    }
    if key == "_path_info" {
      return 9;
    }
    if key == "_path_info_2" {
      return 10;
    }
    if key == "_size_other_hdd" {
      return 11;
    }
    if key == "_sort_priority" {
      return 12;
    }
    if key == "_uninstallable" {
      return 13;
    }
    if key == "_view_category" {
      return 14;
    }
    if key == "_working_status" {
      return 15;
    }
    return 16;
  }

  /** The integer constants, the same for every title. */
  lemma {:induction false} FixedNumber(name: Text, app: App, key: string, v: nat)
    requires (key, v) in {
      ("#_contents_status", 0), ("#_access_index", 1), ("_contents_location", 0), ("#_update_index", 74),
      ("#exit_type", 0), ("_contents_ext_type", 0), ("_current_slot", 0), ("_disable_live_detail", 0),
      ("_hdd_location", 0), ("_path_info", 0), ("_path_info_2", 0), ("_size_other_hdd", 0), ("_sort_priority", 100),
      ("_uninstallable", 1), ("_view_category", 0), ("_working_status", 0), ("#_booted", 1)}
    ensures AttrOf(TitleOf(name, app), Ascii(key)) == Some(Num(v))
  {
    var i := FixedPlace(key, v);
    KeyIsGiven(name, app, 7, i);
  }

  /** The constant times. */
  lemma {:induction false} FixedTime(name: Text, app: App, key: string, time: string)
    requires (key, time) in {("#_last_access_time", "2020-01-01 20:20:03.000"),
                             ("#_mtime", "2020-01-01 20:20:02.000"), ("#_promote_time", "2020-01-01 20:20:01.000")}
    ensures AttrOf(TitleOf(name, app), Ascii(key)) == Some(Str(Ascii(time)))
  {
    var i := if key == "#_last_access_time" then 0 else if key == "#_mtime" then 1 else 2;
    KeyIsGiven(name, app, 8, i);
  }

  // ---------------------------------------------------------------- one directory

  function TextItem(key: string, value: Text): Item {
    Item(Ascii(key), 0x0204, |value| + 1, value + [0])
  }

  function FourItems(titleId: Text): seq<Item> {
    [TextItem("TITLE", []), TextItem("TITLE_ID", titleId), TextItem("CONTENT_ID", []), TextItem("CATEGORY", [])]
  }

  lemma {:induction false} JoinIsShort(parts: seq<seq<byte>>, n: nat, max: nat)
    requires n <= |parts| && forall i :: 0 <= i < |parts| ==> |parts[i]| <= max
    ensures |Join(parts, n)| <= max * n
  {
    if n > 0 {
      JoinIsShort(parts, n - 1, max);
    }
  }

  lemma {:induction false} FourParts(titleId: Text)
    requires |titleId| == 9
    ensures var items := FourItems(titleId);
            && (forall i :: 0 <= i < 4 ==> |KeyParts(items)[i]| <= 11 && |ValueParts(items)[i]| <= 11)
            && forall i :: 0 <= i < 4 ==> 0 !in items[i].key
  {
  }

  lemma {:induction false} FourOffsets(titleId: Text, i: nat)
    requires |titleId| == 9 && i <= 4
    ensures var items := FourItems(titleId);
            Offset(KeyParts(items), i) <= 44 && Offset(ValueParts(items), i) <= 44
  {
    FourParts(titleId);
    JoinIsShort(KeyParts(FourItems(titleId)), i, 11);
    JoinIsShort(ValueParts(FourItems(titleId)), i, 11);
  }

  lemma {:induction false} FourItemsFit(titleId: Text)
    requires |titleId| == 9
    ensures Fits(FourItems(titleId), [])
  {
    var items := FourItems(titleId);
    FourOffsets(titleId, 4);
    assert |Keys(items)| == Offset(KeyParts(items), 4);
    forall i: nat | i < 4
      ensures ItemFits(items, i)
    {
      FourParts(titleId);
      FourOffsets(titleId, i);
    }
  }

  lemma {:induction false} KeyIsThere(items: seq<Item>, key: string, i: nat)
    requires i < |items| && items[i].key == Ascii(key)
    ensures HasKey(items, key)
  {
  }

  lemma {:induction false} FourKeys(titleId: Text)
    ensures var items := FourItems(titleId);
            && HasKey(items, "TITLE") && HasKey(items, "TITLE_ID")
            && HasKey(items, "CONTENT_ID") && HasKey(items, "CATEGORY")
  {
    var items := FourItems(titleId);
    KeyIsThere(items, "TITLE", 0);
    KeyIsThere(items, "TITLE_ID", 1);
    KeyIsThere(items, "CONTENT_ID", 2);
    KeyIsThere(items, "CATEGORY", 3);
  }

  /** A directory with an empty app.pkg and a param.sfo with the four fields, this TITLE_ID among them. */
  ghost function SmallFiles(name: Text, titleId: Text): (fs: Files)
    requires |titleId| == 9
    ensures WrittenAs(fs, name, FourItems(titleId), [], []) && PkgPath(name) in fs.sizes
  {
    FourItemsFit(titleId);
    RoundTrip(FourItems(titleId), [], []);
    var meta: SfoFile := Serialize(FourItems(titleId), [], []);
    Files(map[PkgPath(name) := 0], map[MetaPath(name) := meta], map[], {})
  }

  lemma {:induction false} TitleIdIsSecond(titleId: Text)
    ensures var items := FourItems(titleId);
            |items| == 4 && items[1] == TextItem("TITLE_ID", titleId) && items[0].key != Ascii("TITLE_ID")
  {
    var items := FourItems(titleId);
    assert |items[0].key| == |"TITLE"| && |Ascii("TITLE_ID")| == |"TITLE_ID"|;
  }

  lemma {:induction false} FourHoldId(titleId: Text)
    requires 0 !in titleId
    ensures HoldsText(FourItems(titleId), "TITLE_ID", titleId)
  {
    var items := FourItems(titleId);
    TitleIdIsSecond(titleId);
    assert FirstUnder(items, "TITLE_ID", 1) && items[1].value == titleId + [0] + [];
  }

  lemma {:induction false} WrittenId(fs: Files, e: DirEnt, titleId: Text)
    requires WrittenAs(fs, e.name, FourItems(titleId), [], []) && HasFields(fs, e) && 0 !in titleId
    ensures AppOf(fs, e).titleId == titleId
  {
    FourHoldId(titleId);
    WrittenTextIsUsed(fs, e.name, FourItems(titleId), [], [], "TITLE_ID", titleId);
    AppHas(fs, e, "TITLE_ID", titleId);
  }

  lemma {:induction false} SmallTitle(name: Text, titleId: Text)
    requires |name| == 9 && |titleId| == 9 && Quotable(name) && 0 !in titleId
    ensures var fs, e := SmallFiles(name, titleId), DirEnt(name, true);
            Eligible(fs, e) && AppOf(fs, e).titleId == titleId
  {
    var fs, e := SmallFiles(name, titleId), DirEnt(name, true);
    FourKeys(titleId);
    WrittenTitleIsEligible(fs, e, FourItems(titleId), [], []);
    WrittenId(fs, e, titleId);
  }

  lemma {:induction false} OneGoodListing(db: Db, fs: Files, l: Listing)
    requires l.table in db.browse && l.dir.Some? && |l.dir.value| == 1 && Quotable(l.dir.value[0].name)
    ensures GoodListings(db, fs, [l]) && AllListedIn([l], [l])
  {
    var ls := [l];
    assert ListedBefore(ls[0], ls[0]);
    assert ListedIn(ls[0], ls);
  }

  lemma {:induction false} OneHonestListing(db: Db, fs: Files, l: Listing)
    requires l.table in db.browse && l.dir.Some?
    ensures HonestListings(db, fs, [l]) <==> HonestDirs(db.browse[l.table], fs, l.dir.value)
  {
    var ls := [l];
    assert ls[0] == l;
  }

  lemma {:induction false} OneHonestDir(fs: Files, e: DirEnt)
    requires Eligible(fs, e)
    ensures HonestDirs(multiset{}, fs, [e]) <==> AppOf(fs, e).titleId == Literal(e.name)
  {
    assert !Present(multiset{}, Literal(e.name));
    assert HonestDirs(multiset{}, fs, [e]) <==> HonestDir(multiset{}, fs, [e][0]);
  }

  /** One directory with this TITLE_ID, rebuilt into one empty table that accepts duplicates: the second
      rebuild still changes the database. */
  ghost predicate Repeats(table: Text, name: Text, titleId: Text)
    requires |titleId| == 9
  {
    var fs, db := SmallFiles(name, titleId), Db(map[table := multiset{}], map[], false);
    var vs := VisitsOf(fs, [Listing(table, Some([DirEnt(name, true)]))]);
    Known(db, vs) && Known(Run(db, vs, |vs|), vs) && Run(Run(db, vs, |vs|), vs, |vs|) != Run(db, vs, |vs|)
  }

  /** For any name and TITLE_ID it does so exactly when the TITLE_ID is not what the name is looked for as. */
  lemma {:induction false} RepeatsExactly(table: Text, name: Text, titleId: Text)
    requires |name| == 9 && |titleId| == 9 && Quotable(name) && 0 !in titleId
    ensures Repeats(table, name, titleId) <==> titleId != Literal(name)
  {
    var fs, db := SmallFiles(name, titleId), Db(map[table := multiset{}], map[], false);
    SmallTitle(name, titleId);
    var list := [DirEnt(name, true)];
    var l := Listing(table, Some(list));
    OneGoodListing(db, fs, l);
    OneHonestListing(db, fs, l);
    OneHonestDir(fs, list[0]);
    SecondRebuildExactly(db, fs, [l], [l]);
  }

  lemma {:induction false} PlainIsQuotable(name: Text)
    requires QUOTE !in name
    ensures Quotable(name)
  {
    if name != [] {
      PlainIsQuotable(name[1..]);
    }
  }

  lemma {:induction false} PairIsQuotable(a: Text, b: Text)
    requires QUOTE !in a && QUOTE !in b
    ensures Quotable(a + [QUOTE, QUOTE] + b)
  {
    var name := a + [QUOTE, QUOTE] + b;
    if a == [] {
      assert name[2..] == b;
      PlainIsQuotable(b);
    } else {
      assert name[1..] == a[1..] + [QUOTE, QUOTE] + b;
      PairIsQuotable(a[1..], b);
    }
  }

  function Nine(c: byte): Text {
    seq(9, _ => c)
  }

  /** A directory with the TITLE_ID of another one: its row is added again. */
  lemma {:induction false} OtherTitleRepeats(table: Text)
    ensures Repeats(table, Nine('A' as int), Nine('B' as int))
  {
    var name, titleId := Nine('A' as int), Nine('B' as int);
    PlainIsQuotable(name);
    LiteralIsName(name);
    assert name[0] != titleId[0];
    RepeatsExactly(table, name, titleId);
  }

  /** A directory with a pair of apostrophes in its name: added again although the TITLE_ID is its own. */
  lemma {:induction false} ApostrophesRepeat(table: Text, a: Text, b: Text)
    requires QUOTE !in a && QUOTE !in b && 0 !in a && 0 !in b && |a| + |b| == 7
    ensures var name := a + [QUOTE, QUOTE] + b;
            |name| == 9 && Repeats(table, name, name)
  {
    var name := a + [QUOTE, QUOTE] + b;
    PairIsQuotable(a, b);
    assert name[|a|] == QUOTE;
    LiteralIsName(name);
    RepeatsExactly(table, name, name);
  }
}

/** The tables of the application database and what a rebuild does to them, entry by entry: the
    bookkeeping of src/sqlite_db.c apart from where the values come from. */
module Tables {
  import opened Bytes
  import opened Wrappers

  datatype Val = Str(text: Text) | Num(n: nat)

  /** The columns of a tbl_appbrowse row that depend on the title; all others are constants. */
  datatype Row = Row(titleId: Text, contentId: Text, titleName: Text, metaDataPath: Text,
                     category: Text, contentSize: nat, uiCategory: Text)

  /** A key of tbl_appinfo and its value, for one title. */
  type Attr = (Text, Val)

  /** What a directory entry amounts to: nothing, or a title with its row and, in groups, its attributes.
      The name is the titleId that a table is searched for before the row is added. */
  datatype Candidate = Skipped | Title(name: Text, row: Row, groups: seq<seq<Attr>>)

  type Info = map<(Text, Text), Val>

  /** browse: the rows of each tbl_appbrowse table. info: tbl_appinfo under its key (titleId, key).
      uniqueTitle: whether the browse tables refuse a second row with a titleId. */
  datatype Db = Db(browse: map<Text, multiset<Row>>, info: Info, uniqueTitle: bool)

  // ---------------------------------------------------------------- insert or ignore

  /** INSERT OR IGNORE under the key (titleId, key). */
  function Put(m: Info, title: Text, a: Attr): Info {
    if (title, a.0) in m then m else m[(title, a.0) := a.1]
  }

  function PutAll(m: Info, title: Text, attrs: seq<Attr>, n: nat): Info
    requires n <= |attrs|
  {
    if n == 0 then m else Put(PutAll(m, title, attrs, n - 1), title, attrs[n - 1])
  }

  function PutGroups(m: Info, title: Text, groups: seq<seq<Attr>>, n: nat): Info
    requires n <= |groups|
  {
    if n == 0 then m
    else PutAll(PutGroups(m, title, groups, n - 1), title, groups[n - 1], |groups[n - 1]|)
  }

  function Better(a: Option<Val>, b: Option<Val>): Option<Val> {
    if a.Some? then a else b
  }

  /** The first of the first n attributes with this key. */
  function FirstIn(attrs: seq<Attr>, n: nat, key: Text): (v: Option<Val>)
    requires n <= |attrs|
    ensures v.None? <==> forall i :: 0 <= i < n ==> attrs[i].0 != key
    ensures v.Some? ==>
              exists i :: 0 <= i < n && attrs[i] == (key, v.value) && forall j :: 0 <= j < i ==> attrs[j].0 != key
  {
    if n == 0 then None
    else Better(FirstIn(attrs, n - 1, key), if attrs[n - 1].0 == key then Some(attrs[n - 1].1) else None)
  }

  function FirstOf(groups: seq<seq<Attr>>, n: nat, key: Text): Option<Val>
    requires n <= |groups|
  {
    if n == 0 then None
    else Better(FirstOf(groups, n - 1, key), FirstIn(groups[n - 1], |groups[n - 1]|, key))
  }

  lemma {:induction false} FirstInIs(attrs: seq<Attr>, n: nat, key: Text, i: nat)
    requires i < n <= |attrs| && attrs[i].0 == key && forall j :: 0 <= j < i ==> attrs[j].0 != key
    ensures FirstIn(attrs, n, key) == Some(attrs[i].1)
  {
  }

  lemma {:induction false} NoneBefore(groups: seq<seq<Attr>>, n: nat, key: Text)
    requires n <= |groups| && forall h, j :: 0 <= h < n && 0 <= j < |groups[h]| ==> groups[h][j].0 != key
    ensures FirstOf(groups, n, key) == None
  {
    if n > 0 {
      NoneBefore(groups, n - 1, key);
    }
  }

  lemma {:induction false} FirstInPrefix(a: seq<Attr>, b: seq<Attr>, n: nat, key: Text)
    requires n <= |a|
    ensures FirstIn(a + b, n, key) == FirstIn(a, n, key)
  {
    if n > 0 {
      FirstInPrefix(a, b, n - 1, key);
    }
  }

  lemma {:induction false} FirstInAppend(a: seq<Attr>, b: seq<Attr>, n: nat, key: Text)
    requires n <= |b|
    ensures FirstIn(a + b, |a| + n, key) == Better(FirstIn(a, |a|, key), FirstIn(b, n, key))
    decreases n
  {
    if n == 0 {
      FirstInPrefix(a, b, |a|, key);
    } else {
      FirstInAppend(a, b, n - 1, key);
    }
  }

  /** A key that no other group has is looked for in its own. */
  lemma {:induction false} FirstOfOnly(groups: seq<seq<Attr>>, n: nat, g: nat, key: Text)
    requires g < n <= |groups|
    requires forall h, j :: 0 <= h < n && h != g && 0 <= j < |groups[h]| ==> groups[h][j].0 != key
    ensures FirstOf(groups, n, key) == FirstIn(groups[g], |groups[g]|, key)
  {
    var last := n - 1;
    if g < last {
      FirstOfOnly(groups, last, g, key);
    } else {
      NoneBefore(groups, last, key);
    }
  }

  function Get(m: Info, p: (Text, Text)): Option<Val> {
    if p in m then Some(m[p]) else None
  }

  lemma {:induction false} PutAllGet(m: Info, title: Text, attrs: seq<Attr>, n: nat, p: (Text, Text))
    requires n <= |attrs|
    ensures Get(PutAll(m, title, attrs, n), p) ==
              Better(Get(m, p), if p.0 == title then FirstIn(attrs, n, p.1) else None)
  {
    if n > 0 {
      PutAllGet(m, title, attrs, n - 1, p);
    }
  }

  /** Insert-or-ignore of all groups: an earlier value stays, a new key takes the first value listed. */
  lemma {:induction false} PutGroupsGet(m: Info, title: Text, groups: seq<seq<Attr>>, n: nat, p: (Text, Text))
    requires n <= |groups|
    ensures Get(PutGroups(m, title, groups, n), p) ==
              Better(Get(m, p), if p.0 == title then FirstOf(groups, n, p.1) else None)
  {
    if n > 0 {
      PutGroupsGet(m, title, groups, n - 1, p);
      PutAllGet(PutGroups(m, title, groups, n - 1), title, groups[n - 1], |groups[n - 1]|, p);
    }
  }

  lemma {:induction false} SameGets(m: Info, m': Info)
    requires forall p: (Text, Text) :: Get(m, p) == Get(m', p)
    ensures m == m'
  {
    forall p: (Text, Text)
      ensures p in m <==> p in m'
      ensures p in m ==> m[p] == m'[p]
    {
      assert Get(m, p) == Get(m', p);
    }
  }

  // ---------------------------------------------------------------- one entry, one pass, one run

  predicate Present(rows: multiset<Row>, id: Text) {
    exists r :: r in rows && r.titleId == id
  }

  /** The entry gets a row: its name is not there yet, and the insert is not refused. */
  ghost predicate Adds(rows: multiset<Row>, unique: bool, c: Candidate) {
    c.Title? && !Present(rows, c.name) && !(unique && Present(rows, c.row.titleId))
  }

  ghost function RowStep(rows: multiset<Row>, unique: bool, c: Candidate): multiset<Row> {
    if Adds(rows, unique, c) then rows + multiset{c.row} else rows
  }

  /** A browse table after the first n entries. */
  ghost function RowPass(rows: multiset<Row>, unique: bool, cs: seq<Candidate>, n: nat): multiset<Row>
    requires n <= |cs|
  {
    if n == 0 then rows else RowStep(RowPass(rows, unique, cs, n - 1), unique, cs[n - 1])
  }

  ghost predicate AddsAt(rows: multiset<Row>, unique: bool, cs: seq<Candidate>, i: nat)
    requires i < |cs|
  {
    Adds(RowPass(rows, unique, cs, i), unique, cs[i])
  }

  function AttrOf(c: Candidate, key: Text): Option<Val>
    requires c.Title?
  {
    FirstOf(c.groups, |c.groups|, key)
  }

  function Attributed(m: Info, c: Candidate): Info
    requires c.Title?
  {
    PutGroups(m, c.row.titleId, c.groups, |c.groups|)
  }

  /** tbl_appinfo after the first n entries of a pass over a table that held `rows`. */
  ghost function InfoPass(m: Info, rows: multiset<Row>, unique: bool, cs: seq<Candidate>, n: nat): Info
    requires n <= |cs|
  {
    if n == 0 then m
    else
      var before := InfoPass(m, rows, unique, cs, n - 1);
      if AddsAt(rows, unique, cs, n - 1) then Attributed(before, cs[n - 1]) else before
  }

  /** The number of titles added by the first n entries. */
  ghost function Added(rows: multiset<Row>, unique: bool, cs: seq<Candidate>, n: nat): nat
    requires n <= |cs|
  {
    if n == 0 then 0
    else Added(rows, unique, cs, n - 1) + if AddsAt(rows, unique, cs, n - 1) then 1 else 0
  }

  lemma {:induction false} PassUnfold(m: Info, rows: multiset<Row>, unique: bool, cs: seq<Candidate>, n: nat)
    requires n < |cs|
    ensures var before, adds := RowPass(rows, unique, cs, n), Adds(RowPass(rows, unique, cs, n), unique, cs[n]);
            && RowPass(rows, unique, cs, n + 1) == RowStep(before, unique, cs[n])
            && Added(rows, unique, cs, n + 1) == Added(rows, unique, cs, n) + (if adds then 1 else 0)
            && InfoPass(m, rows, unique, cs, n + 1) ==
                 if adds then Attributed(InfoPass(m, rows, unique, cs, n), cs[n]) else InfoPass(m, rows, unique, cs, n)
  {
  }

  ghost function Pass(db: Db, table: Text, cs: seq<Candidate>): (r: Db)
    requires table in db.browse
    ensures r.browse.Keys == db.browse.Keys
  {
    var rows := db.browse[table];
    db.(browse := db.browse[table := RowPass(rows, db.uniqueTitle, cs, |cs|)],
        info := InfoPass(db.info, rows, db.uniqueTitle, cs, |cs|))
  }

  /** One table and the entries its pass reads; None when the directory does not open. */
  datatype Visit = Visit(table: Text, dir: Option<seq<Candidate>>)

  ghost function VisitStep(db: Db, v: Visit): (r: Db)
    requires v.table in db.browse
    ensures forall t :: t in r.browse <==> t in db.browse
    ensures r.uniqueTitle == db.uniqueTitle
  {
    if v.dir.None? then db else Pass(db, v.table, v.dir.value)
  }

  ghost predicate Known(db: Db, vs: seq<Visit>) {
    forall i :: 0 <= i < |vs| ==> vs[i].table in db.browse
  }

  /** The database after the first n tables. */
  ghost function Run(db: Db, vs: seq<Visit>, n: nat): (r: Db)
    requires n <= |vs| && Known(db, vs)
    ensures r.uniqueTitle == db.uniqueTitle && forall t :: t in r.browse <==> t in db.browse
  {
    if n == 0 then db else VisitStep(Run(db, vs, n - 1), vs[n - 1])
  }

  // ---------------------------------------------------------------- conservation and completeness

  /** Rows present before a pass stay, and the table grows by exactly the number of titles added. */
  lemma {:induction false} RowsAreKept(rows: multiset<Row>, unique: bool, cs: seq<Candidate>, n: nat)
    requires n <= |cs|
    ensures rows <= RowPass(rows, unique, cs, n)
    ensures |RowPass(rows, unique, cs, n)| == |rows| + Added(rows, unique, cs, n)
  {
    if n > 0 {
      RowsAreKept(rows, unique, cs, n - 1);
    }
  }

  lemma {:induction false} AttributedGet(m: Info, c: Candidate, p: (Text, Text))
    requires c.Title?
    ensures Get(Attributed(m, c), p) == Better(Get(m, p), if p.0 == c.row.titleId then AttrOf(c, p.1) else None)
  {
    PutGroupsGet(m, c.row.titleId, c.groups, |c.groups|, p);
  }

  lemma {:induction false} InfoStepKeeps(
    m: Info, rows: multiset<Row>, unique: bool, cs: seq<Candidate>, n: nat, p: (Text, Text))
    requires n < |cs| && p in InfoPass(m, rows, unique, cs, n)
    ensures Get(InfoPass(m, rows, unique, cs, n + 1), p) == Get(InfoPass(m, rows, unique, cs, n), p)
  {
    if AddsAt(rows, unique, cs, n) {
      AttributedGet(InfoPass(m, rows, unique, cs, n), cs[n], p);
    }
  }

  /** A value in tbl_appinfo is never altered or removed by the rest of a pass. */
  lemma {:induction false} InfoIsKept(
    m: Info, rows: multiset<Row>, unique: bool, cs: seq<Candidate>, i: nat, n: nat, p: (Text, Text))
    requires i <= n <= |cs| && p in InfoPass(m, rows, unique, cs, i)
    ensures Get(InfoPass(m, rows, unique, cs, n), p) == Get(InfoPass(m, rows, unique, cs, i), p)
    decreases n - i
  {
    if i < n {
      InfoStepKeeps(m, rows, unique, cs, i, p);
      InfoIsKept(m, rows, unique, cs, i + 1, n, p);
    }
  }

  /** Every title added has each of its keys at the end of the pass: with the value the key had
      before the title's turn if it had one, otherwise with the computed one. */
  lemma {:induction false} AddedIsComplete(
    m: Info, rows: multiset<Row>, unique: bool, cs: seq<Candidate>, i: nat, key: Text)
    requires i < |cs| && AddsAt(rows, unique, cs, i) && AttrOf(cs[i], key).Some?
    ensures var p := (cs[i].row.titleId, key);
            Get(InfoPass(m, rows, unique, cs, |cs|), p) ==
              Better(Get(InfoPass(m, rows, unique, cs, i), p), AttrOf(cs[i], key))
  {
    var p := (cs[i].row.titleId, key);
    AttributedGet(InfoPass(m, rows, unique, cs, i), cs[i], p);
    InfoIsKept(m, rows, unique, cs, i + 1, |cs|, p);
  }

  // ---------------------------------------------------------------- idempotence, exactly

  ghost predicate DistinctNames(cs: seq<Candidate>) {
    forall i, j :: 0 <= i < j < |cs| && cs[i].Title? && cs[j].Title? ==> cs[i].name != cs[j].name
  }

  /** Every title that is not in the table yet has for TITLE_ID the name it is searched for by. */
  ghost predicate Honest(rows: multiset<Row>, cs: seq<Candidate>) {
    forall i :: 0 <= i < |cs| && cs[i].Title? && !Present(rows, cs[i].name) ==> cs[i].row.titleId == cs[i].name
  }

  ghost predicate Settled(rows: multiset<Row>, unique: bool, cs: seq<Candidate>) {
    forall i :: 0 <= i < |cs| ==> !Adds(rows, unique, cs[i])
  }

  lemma {:induction false} SettledPass(rows: multiset<Row>, unique: bool, cs: seq<Candidate>, n: nat)
    requires n <= |cs| && Settled(rows, unique, cs)
    ensures RowPass(rows, unique, cs, n) == rows
  {
    if n > 0 {
      SettledPass(rows, unique, cs, n - 1);
    }
  }

  lemma {:induction false} UnchangedIsSettled(rows: multiset<Row>, unique: bool, cs: seq<Candidate>, n: nat)
    requires n <= |cs| && |RowPass(rows, unique, cs, n)| == |rows|
    ensures RowPass(rows, unique, cs, n) == rows
    ensures forall i :: 0 <= i < n ==> !Adds(rows, unique, cs[i])
  {
    if n > 0 {
      var k := n - 1;
      RowsAreKept(rows, unique, cs, k);
      PassUnfold(map[], rows, unique, cs, k);
      UnchangedIsSettled(rows, unique, cs, k);
    }
  }

  lemma {:induction false} PresentIn(rows: multiset<Row>, more: multiset<Row>, id: Text)
    requires rows <= more && Present(rows, id)
    ensures Present(more, id)
  {
  }

  lemma {:induction false} PassStepKeeps(rows: multiset<Row>, unique: bool, cs: seq<Candidate>, n: nat)
    requires n < |cs|
    ensures RowPass(rows, unique, cs, n) <= RowPass(rows, unique, cs, n + 1)
  {
  }

  lemma {:induction false} PassKeepsPresent(
    rows: multiset<Row>, unique: bool, cs: seq<Candidate>, i: nat, n: nat, id: Text)
    requires i <= n <= |cs| && Present(RowPass(rows, unique, cs, i), id)
    ensures Present(RowPass(rows, unique, cs, n), id)
    decreases n
  {
    if i < n {
      var k := n - 1;
      PassKeepsPresent(rows, unique, cs, i, k, id);
      PassStepKeeps(rows, unique, cs, k);
      PresentIn(RowPass(rows, unique, cs, k), RowPass(rows, unique, cs, n), id);
    }
  }

  lemma {:induction false} RowAdded(rows: multiset<Row>, r: Row)
    ensures Present(rows + multiset{r}, r.titleId)
  {
  }

  /** After a pass, an entry's name is present, or its row was added or refused. */
  lemma {:induction false} Handled(rows: multiset<Row>, unique: bool, cs: seq<Candidate>, i: nat)
    requires i < |cs| && cs[i].Title?
    ensures var after := RowPass(rows, unique, cs, |cs|);
            Present(after, cs[i].name) || (Present(after, cs[i].row.titleId) && !Present(rows, cs[i].name))
  {
    var before := RowPass(rows, unique, cs, i);
    RowsAreKept(rows, unique, cs, i);
    if Present(before, cs[i].name) {
      PassKeepsPresent(rows, unique, cs, i, |cs|, cs[i].name);
    } else {
      if Present(rows, cs[i].name) {
        PresentIn(rows, before, cs[i].name);
      }
      if unique && Present(before, cs[i].row.titleId) {
        PassKeepsPresent(rows, unique, cs, i, |cs|, cs[i].row.titleId);
      } else {
        RowAdded(before, cs[i].row);
        PassKeepsPresent(rows, unique, cs, i + 1, |cs|, cs[i].row.titleId);
      }
    }
  }

  lemma {:induction false} SettlesWhen(rows: multiset<Row>, unique: bool, cs: seq<Candidate>)
    requires unique || Honest(rows, cs)
    ensures Settled(RowPass(rows, unique, cs, |cs|), unique, cs)
  {
    forall i | 0 <= i < |cs|
      ensures !Adds(RowPass(rows, unique, cs, |cs|), unique, cs[i])
    {
      if cs[i].Title? {
        Handled(rows, unique, cs, i);
      }
    }
  }

  /** Names of titles missing from the table at the start, among the first n entries. */
  ghost function Wanted(rows: multiset<Row>, cs: seq<Candidate>, n: nat): set<Text>
    requires n <= |cs|
  {
    if n == 0 then {}
    else
      var c := cs[n - 1];
      Wanted(rows, cs, n - 1) + if c.Title? && !Present(rows, c.name) then {c.name} else {}
  }

  /** TITLE_IDs added by the first n entries, when no insert is refused. */
  ghost function Gained(rows: multiset<Row>, cs: seq<Candidate>, n: nat): set<Text>
    requires n <= |cs|
  {
    if n == 0 then {}
    else Gained(rows, cs, n - 1) + if AddsAt(rows, false, cs, n - 1) then {cs[n - 1].row.titleId} else {}
  }

  lemma {:induction false} GainedIsPresent(rows: multiset<Row>, cs: seq<Candidate>, n: nat, id: Text)
    requires n <= |cs|
    ensures Present(RowPass(rows, false, cs, n), id) <==> Present(rows, id) || id in Gained(rows, cs, n)
  {
    if n > 0 {
      GainedIsPresent(rows, cs, n - 1, id);
      var before, after := RowPass(rows, false, cs, n - 1), RowPass(rows, false, cs, n);
      if Present(before, id) {
        PassKeepsPresent(rows, false, cs, n - 1, n, id);
      }
      if AddsAt(rows, false, cs, n - 1) {
        RowAdded(before, cs[n - 1].row);
        if Present(after, id) && !Present(before, id) {
          var r :| r in after && r.titleId == id;
          assert r == cs[n - 1].row;
        }
      }
    }
  }

  lemma {:induction false} WantedNames(rows: multiset<Row>, cs: seq<Candidate>, n: nat, name: Text)
    requires n <= |cs|
    ensures name in Wanted(rows, cs, n) <==>
              exists i :: 0 <= i < n && cs[i].Title? && !Present(rows, cs[i].name) && cs[i].name == name
  {
    if n > 0 {
      WantedNames(rows, cs, n - 1, name);
      var c := cs[n - 1];
      if c.Title? && !Present(rows, c.name) && c.name == name {
        assert 0 <= n - 1 < n && cs[n - 1].name == name;
      }
    }
  }

  /** How far the added identifiers lag behind the wanted names after n entries. */
  ghost function Lag(rows: multiset<Row>, cs: seq<Candidate>, n: nat): int
    requires n <= |cs|
  {
    |Wanted(rows, cs, n)| - |Gained(rows, cs, n)|
  }

  /** The lag never shrinks; an entry whose turn adds nothing new for a wanted name widens it. */
  lemma {:induction false} LagStep(rows: multiset<Row>, cs: seq<Candidate>, n: nat)
    requires n < |cs| && DistinctNames(cs)
    ensures Lag(rows, cs, n) <= Lag(rows, cs, n + 1)
    ensures cs[n].Title? && !Present(rows, cs[n].name) && Lag(rows, cs, n) == Lag(rows, cs, n + 1) ==>
              AddsAt(rows, false, cs, n)
  {
    var c := cs[n];
    WantedNames(rows, cs, n, if c.Title? then c.name else []);
    if AddsAt(rows, false, cs, n) {
      GainedIsPresent(rows, cs, n, c.name);
    }
  }

  lemma {:induction false} LagGrows(rows: multiset<Row>, cs: seq<Candidate>, i: nat, n: nat)
    requires i <= n <= |cs| && DistinctNames(cs)
    ensures Lag(rows, cs, i) <= Lag(rows, cs, n)
    decreases n - i
  {
    if i < n {
      var next := i + 1;
      LagStep(rows, cs, i);
      assert Lag(rows, cs, i) <= Lag(rows, cs, next);
      LagGrows(rows, cs, next, n);
    }
  }

  lemma {:induction false} SubsetSize(a: set<Text>, b: set<Text>)
    requires a <= b
    ensures |a| <= |b|
    ensures |a| == |b| ==> a == b
  {
    assert b == a + (b - a);
  }

  ghost predicate Tight(rows: multiset<Row>, cs: seq<Candidate>) {
    && Gained(rows, cs, |cs|) == Wanted(rows, cs, |cs|)
    && forall k :: 0 <= k < |cs| && cs[k].Title? && !Present(rows, cs[k].name) ==> AddsAt(rows, false, cs, k)
  }

  /** If a pass settles its table, the names wanted are among the identifiers added. */
  lemma {:induction false} WantedIsGained(rows: multiset<Row>, cs: seq<Candidate>)
    requires Settled(RowPass(rows, false, cs, |cs|), false, cs)
    ensures Wanted(rows, cs, |cs|) <= Gained(rows, cs, |cs|)
  {
    forall name | name in Wanted(rows, cs, |cs|)
      ensures name in Gained(rows, cs, |cs|)
    {
      WantedNames(rows, cs, |cs|, name);
      var i :| 0 <= i < |cs| && cs[i].Title? && !Present(rows, cs[i].name) && cs[i].name == name;
      assert !Adds(RowPass(rows, false, cs, |cs|), false, cs[i]);
      GainedIsPresent(rows, cs, |cs|, name);
    }
  }

  lemma {:induction false} NoLagAdds(rows: multiset<Row>, cs: seq<Candidate>, i: nat)
    requires DistinctNames(cs) && Lag(rows, cs, |cs|) <= 0
    requires i < |cs| && cs[i].Title? && !Present(rows, cs[i].name)
    ensures AddsAt(rows, false, cs, i)
  {
    var next := i + 1;
    LagGrows(rows, cs, 0, i);
    LagStep(rows, cs, i);
    LagGrows(rows, cs, next, |cs|);
    assert Lag(rows, cs, 0) == 0;
  }

  /** If a pass settles its table, the identifiers added are exactly the wanted names, and every
      wanted entry added its row. */
  lemma {:induction false} SettledIsTight(rows: multiset<Row>, cs: seq<Candidate>)
    requires DistinctNames(cs) && Settled(RowPass(rows, false, cs, |cs|), false, cs)
    ensures Tight(rows, cs)
  {
    WantedIsGained(rows, cs);
    SubsetSize(Wanted(rows, cs, |cs|), Gained(rows, cs, |cs|));
    LagGrows(rows, cs, 0, |cs|);
    forall k | 0 <= k < |cs| && cs[k].Title? && !Present(rows, cs[k].name)
      ensures AddsAt(rows, false, cs, k)
    {
      NoLagAdds(rows, cs, k);
    }
  }

  lemma {:induction false} GainedStep(rows: multiset<Row>, cs: seq<Candidate>, n: nat, id: Text)
    requires n < |cs|
    ensures id in Gained(rows, cs, n + 1) <==>
              id in Gained(rows, cs, n) || (AddsAt(rows, false, cs, n) && cs[n].row.titleId == id)
  {
  }

  /** An identifier gained between entries i and n was added by one of them. */
  lemma {:induction false} GainedBetween(
    rows: multiset<Row>, cs: seq<Candidate>, i: nat, n: nat, id: Text) returns (j: nat)
    requires i <= n <= |cs| && id in Gained(rows, cs, n) && id !in Gained(rows, cs, i)
    ensures i <= j < n && AddsAt(rows, false, cs, j) && cs[j].row.titleId == id
    decreases n
  {
    var k := n - 1;
    GainedStep(rows, cs, k, id);
    if id in Gained(rows, cs, k) {
      j := GainedBetween(rows, cs, i, k, id);
    } else {
      j := k;
    }
  }

  lemma {:induction false} AddsAreWanted(rows: multiset<Row>, cs: seq<Candidate>, j: nat)
    requires j < |cs| && AddsAt(rows, false, cs, j)
    ensures cs[j].Title? && !Present(rows, cs[j].name)
  {
    RowsAreKept(rows, false, cs, j);
    if Present(rows, cs[j].name) {
      PresentIn(rows, RowPass(rows, false, cs, j), cs[j].name);
    }
  }

  lemma {:induction false} OnlyItself(cs: seq<Candidate>, i: nat, j: nat)
    requires i <= j < |cs| && DistinctNames(cs) && cs[i].Title? && cs[j].Title?
    requires cs[j].row.titleId == cs[i].name && (j > i ==> cs[j].row.titleId == cs[j].name)
    ensures j == i
  {
  }

  ghost predicate HonestFrom(rows: multiset<Row>, cs: seq<Candidate>, i: nat) {
    forall k :: i <= k < |cs| && cs[k].Title? && !Present(rows, cs[k].name) ==> cs[k].row.titleId == cs[k].name
  }

  lemma {:induction false} TightStep(rows: multiset<Row>, cs: seq<Candidate>, i: nat)
    requires i < |cs| && DistinctNames(cs) && Tight(rows, cs) && HonestFrom(rows, cs, i + 1)
    requires cs[i].Title? && !Present(rows, cs[i].name)
    ensures cs[i].row.titleId == cs[i].name
  {
    WantedNames(rows, cs, |cs|, cs[i].name);
    assert cs[i].name in Gained(rows, cs, |cs|);
    assert AddsAt(rows, false, cs, i);
    GainedIsPresent(rows, cs, i, cs[i].name);
    var j := GainedBetween(rows, cs, i, |cs|, cs[i].name);
    AddsAreWanted(rows, cs, j);
    OnlyItself(cs, i, j);
  }

  /** From the last entry back: the name of a wanted entry can only have been added by itself. */
  lemma {:induction false} TightIsHonest(rows: multiset<Row>, cs: seq<Candidate>, i: nat)
    requires i <= |cs| && DistinctNames(cs) && Tight(rows, cs)
    ensures HonestFrom(rows, cs, i)
    decreases |cs| - i
  {
    if i < |cs| {
      TightIsHonest(rows, cs, i + 1);
      if cs[i].Title? && !Present(rows, cs[i].name) {
        TightStep(rows, cs, i);
      }
    }
  }

  /** The two listings have the same entries, in whatever order. */
  ghost predicate SameEntries(cs: seq<Candidate>, cs': seq<Candidate>) {
    forall c :: c in cs <==> c in cs'
  }

  lemma {:induction false} SettledForMore(rows: multiset<Row>, unique: bool, cs: seq<Candidate>, cs': seq<Candidate>)
    requires Settled(rows, unique, cs) && forall c :: c in cs' ==> c in cs
    ensures Settled(rows, unique, cs')
  {
    forall j | 0 <= j < |cs'|
      ensures !Adds(rows, unique, cs'[j])
    {
      assert cs'[j] in cs;
      var i :| 0 <= i < |cs| && cs[i] == cs'[j];
    }
  }

  /** A second pass over the same entries, in any order, adds nothing to a table if and only if the
      table refuses duplicate titles, or every title missing at the start has for TITLE_ID the name
      it is searched for by. */
  lemma {:induction false} SecondPassExactly(
    rows: multiset<Row>, unique: bool, cs: seq<Candidate>, cs': seq<Candidate>)
    requires DistinctNames(cs) && SameEntries(cs, cs')
    ensures var once := RowPass(rows, unique, cs, |cs|);
            RowPass(once, unique, cs', |cs'|) == once <==> unique || Honest(rows, cs)
  {
    var once := RowPass(rows, unique, cs, |cs|);
    if unique || Honest(rows, cs) {
      SettlesWhen(rows, unique, cs);
      SettledForMore(once, unique, cs, cs');
      SettledPass(once, unique, cs', |cs'|);
    } else if RowPass(once, unique, cs', |cs'|) == once {
      UnchangedIsSettled(once, unique, cs', |cs'|);
      SettledForMore(once, unique, cs', cs);
      SettledIsTight(rows, cs);
      TightIsHonest(rows, cs, 0);
    }
  }

  /** The smallest failure: one directory whose TITLE_ID is another name gets its row again. */
  lemma {:induction false} DishonestTitleRepeats(c: Candidate)
    requires c.Title? && c.row.titleId != c.name
    ensures var once := RowPass(multiset{}, false, [c], 1);
            once == multiset{c.row} && RowPass(once, false, [c], 1) == multiset{c.row, c.row}
  {
  }

  // ---------------------------------------------------------------- whole runs

  ghost predicate DistinctTables(vs: seq<Visit>) {
    forall i, j :: 0 <= i < j < |vs| ==> vs[i].table != vs[j].table
  }

  lemma {:induction false} RunStep(db: Db, vs: seq<Visit>, n: nat)
    requires n < |vs| && Known(db, vs)
    ensures Run(db, vs, n + 1) == VisitStep(Run(db, vs, n), vs[n])
  {
  }

  ghost function Visited(rows: multiset<Row>, unique: bool, v: Visit): multiset<Row> {
    if v.dir.None? then rows else RowPass(rows, unique, v.dir.value, |v.dir.value|)
  }

  /** One table through the first n visits. */
  ghost function TableRun(rows: multiset<Row>, unique: bool, vs: seq<Visit>, n: nat, table: Text): multiset<Row>
    requires n <= |vs|
  {
    if n == 0 then rows
    else
      var before := TableRun(rows, unique, vs, n - 1, table);
      if vs[n - 1].table == table then Visited(before, unique, vs[n - 1]) else before
  }

  lemma {:induction false} RunStepRows(db: Db, vs: seq<Visit>, n: nat, table: Text)
    requires n < |vs| && Known(db, vs) && table in db.browse
    ensures var before := Run(db, vs, n).browse[table];
            Run(db, vs, n + 1).browse[table] ==
              if vs[n].table == table then Visited(before, db.uniqueTitle, vs[n]) else before
  {
  }

  /** The tables do not influence each other. */
  lemma {:induction false} RunIsTableRun(db: Db, vs: seq<Visit>, n: nat, table: Text)
    requires n <= |vs| && Known(db, vs) && table in db.browse
    ensures Run(db, vs, n).browse[table] == TableRun(db.browse[table], db.uniqueTitle, vs, n, table)
  {
    if n > 0 {
      var k := n - 1;
      RunIsTableRun(db, vs, k, table);
      RunStepRows(db, vs, k, table);
    }
  }

  lemma {:induction false} TableRunOthers(
    rows: multiset<Row>, unique: bool, vs: seq<Visit>, m: nat, n: nat, table: Text)
    requires m <= n <= |vs| && forall i :: m <= i < n ==> vs[i].table != table
    ensures TableRun(rows, unique, vs, n, table) == TableRun(rows, unique, vs, m, table)
    decreases n
  {
    if m < n {
      TableRunOthers(rows, unique, vs, m, n - 1, table);
    }
  }

  lemma {:induction false} TableRunStep(rows: multiset<Row>, unique: bool, vs: seq<Visit>, i: nat, table: Text)
    requires i < |vs| && vs[i].table == table
    ensures TableRun(rows, unique, vs, i + 1, table) == Visited(TableRun(rows, unique, vs, i, table), unique, vs[i])
  {
  }

  /** With each table visited once, the rows of a table come from its own pass alone. */
  lemma {:induction false} RunRows(db: Db, vs: seq<Visit>, i: nat)
    requires i < |vs| && Known(db, vs) && DistinctTables(vs)
    ensures Run(db, vs, i).browse[vs[i].table] == db.browse[vs[i].table]
    ensures Run(db, vs, |vs|).browse[vs[i].table] == Visited(db.browse[vs[i].table], db.uniqueTitle, vs[i])
  {
    var t, rows, next, n := vs[i].table, db.browse[vs[i].table], i + 1, |vs|;
    RunIsTableRun(db, vs, i, t);
    RunIsTableRun(db, vs, n, t);
    TableRunOthers(rows, db.uniqueTitle, vs, 0, i, t);
    TableRunOthers(rows, db.uniqueTitle, vs, next, n, t);
    TableRunStep(rows, db.uniqueTitle, vs, i, t);
  }

  lemma {:induction false} StepKeepsAll(db: Db, vs: seq<Visit>, n: nat, table: Text, p: (Text, Text))
    requires n < |vs| && Known(db, vs) && table in db.browse
    ensures Run(db, vs, n).browse[table] <= Run(db, vs, n + 1).browse[table]
    ensures p in Run(db, vs, n).info ==> Get(Run(db, vs, n + 1).info, p) == Get(Run(db, vs, n).info, p)
  {
    var before, v := Run(db, vs, n), vs[n];
    RunStep(db, vs, n);
    if v.dir.Some? {
      RowsAreKept(before.browse[v.table], db.uniqueTitle, v.dir.value, |v.dir.value|);
      if p in before.info {
        InfoIsKept(before.info, before.browse[v.table], db.uniqueTitle, v.dir.value, 0, |v.dir.value|, p);
      }
    }
  }

  /** From any moment of a run on, no row and no value of tbl_appinfo is altered or removed. */
  lemma {:induction false} RunKeepsAll(db: Db, vs: seq<Visit>, i: nat, n: nat, table: Text, p: (Text, Text))
    requires i <= n <= |vs| && Known(db, vs) && table in db.browse
    ensures Run(db, vs, i).browse[table] <= Run(db, vs, n).browse[table]
    ensures p in Run(db, vs, i).info ==> Get(Run(db, vs, n).info, p) == Get(Run(db, vs, i).info, p)
    decreases n
  {
    if i < n {
      var k := n - 1;
      RunKeepsAll(db, vs, i, k, table, p);
      StepKeepsAll(db, vs, k, table, p);
    }
  }

  /** Table j's turn adds a row for entry k of its listing. */
  ghost predicate AddedIn(db: Db, vs: seq<Visit>, j: nat, k: nat)
    requires j < |vs| && Known(db, vs) && vs[j].dir.Some? && k < |vs[j].dir.value|
  {
    AddsAt(Run(db, vs, j).browse[vs[j].table], db.uniqueTitle, vs[j].dir.value, k)
  }

  /** tbl_appinfo before that entry's turn. */
  ghost function InfoBefore(db: Db, vs: seq<Visit>, j: nat, k: nat): Info
    requires j < |vs| && Known(db, vs) && vs[j].dir.Some? && k < |vs[j].dir.value|
  {
    InfoPass(Run(db, vs, j).info, Run(db, vs, j).browse[vs[j].table], db.uniqueTitle, vs[j].dir.value, k)
  }

  /** A title that table j's turn adds, as entry k of its listing, has each of its keys when the whole
      run is over: with the value the key had before the title's turn, otherwise with the computed one. */
  lemma {:induction false} RunIsComplete(db: Db, vs: seq<Visit>, j: nat, k: nat, key: Text)
    requires j < |vs| && Known(db, vs) && vs[j].dir.Some? && k < |vs[j].dir.value|
    requires AddedIn(db, vs, j, k) && AttrOf(vs[j].dir.value[k], key).Some?
    ensures var p, c := (vs[j].dir.value[k].row.titleId, key), vs[j].dir.value[k];
            Get(Run(db, vs, |vs|).info, p) == Better(Get(InfoBefore(db, vs, j, k), p), AttrOf(c, key))
  {
    var before, cs, next := Run(db, vs, j), vs[j].dir.value, j + 1;
    var p := (cs[k].row.titleId, key);
    AddedIsComplete(before.info, before.browse[vs[j].table], db.uniqueTitle, cs, k, key);
    RunStep(db, vs, j);
    RunKeepsAll(db, vs, next, |vs|, vs[j].table, p);
  }

  /** The visit leaves its table as it is. */
  ghost predicate Quiet(db: Db, v: Visit)
    requires v.table in db.browse
  {
    v.dir.Some? ==> Settled(db.browse[v.table], db.uniqueTitle, v.dir.value)
  }

  lemma {:induction false} SettledInfo(m: Info, rows: multiset<Row>, unique: bool, cs: seq<Candidate>, n: nat)
    requires n <= |cs| && Settled(rows, unique, cs)
    ensures InfoPass(m, rows, unique, cs, n) == m
  {
    if n > 0 {
      var k := n - 1;
      SettledPass(rows, unique, cs, k);
      assert !AddsAt(rows, unique, cs, k);
      PassUnfold(m, rows, unique, cs, k);
      SettledInfo(m, rows, unique, cs, k);
    }
  }

  lemma {:induction false} QuietPass(db: Db, table: Text, cs: seq<Candidate>)
    requires table in db.browse && Settled(db.browse[table], db.uniqueTitle, cs)
    ensures Pass(db, table, cs) == db
  {
    SettledPass(db.browse[table], db.uniqueTitle, cs, |cs|);
    SettledInfo(db.info, db.browse[table], db.uniqueTitle, cs, |cs|);
    assert db.browse[table := db.browse[table]] == db.browse;
  }

  lemma {:induction false} QuietRun(db: Db, vs: seq<Visit>, n: nat)
    requires n <= |vs| && Known(db, vs) && forall i :: 0 <= i < n ==> Quiet(db, vs[i])
    ensures Run(db, vs, n) == db
  {
    if n > 0 {
      var k := n - 1;
      QuietRun(db, vs, k);
      RunStep(db, vs, k);
      assert Quiet(db, vs[k]) && k + 1 == n;
      if vs[k].dir.Some? {
        QuietPass(db, vs[k].table, vs[k].dir.value);
      }
    }
  }

  ghost predicate DistinctListings(vs: seq<Visit>) {
    forall i :: 0 <= i < |vs| && vs[i].dir.Some? ==> DistinctNames(vs[i].dir.value)
  }

  ghost predicate HonestVisit(db: Db, v: Visit)
    requires v.table in db.browse
  {
    v.dir.Some? ==> Honest(db.browse[v.table], v.dir.value)
  }

  /** The visit reads no entry that the other one, of the same table, did not read. */
  ghost predicate Within(w: Visit, v: Visit) {
    && w.table == v.table
    && (w.dir.Some? ==> v.dir.Some? && forall c :: c in w.dir.value ==> c in v.dir.value)
  }

  ghost predicate ReadIn(w: Visit, vs: seq<Visit>) {
    exists i :: 0 <= i < |vs| && Within(w, vs[i])
  }

  lemma {:induction false} QuietWithin(db: Db, w: Visit, v: Visit)
    requires v.table in db.browse && Quiet(db, v) && Within(w, v)
    ensures Quiet(db, w)
  {
    if w.dir.Some? {
      forall j | 0 <= j < |w.dir.value|
        ensures !Adds(db.browse[w.table], db.uniqueTitle, w.dir.value[j])
      {
        assert w.dir.value[j] in v.dir.value;
        var i :| 0 <= i < |v.dir.value| && v.dir.value[i] == w.dir.value[j];
      }
    }
  }

  lemma {:induction false} QuietAfter(db: Db, vs: seq<Visit>, i: nat)
    requires i < |vs| && Known(db, vs) && DistinctTables(vs) && (db.uniqueTitle || HonestVisit(db, vs[i]))
    ensures Quiet(Run(db, vs, |vs|), vs[i])
  {
    RunRows(db, vs, i);
    if vs[i].dir.Some? {
      SettlesWhen(db.browse[vs[i].table], db.uniqueTitle, vs[i].dir.value);
    }
  }

  /** Once every table refuses duplicates or its missing titles are honest, any further run over the
      same entries changes nothing, in whatever order, as often and as partially as it reads them. */
  lemma {:induction false} LaterRunChangesNothing(db: Db, vs: seq<Visit>, ws: seq<Visit>)
    requires Known(db, vs) && DistinctTables(vs)
    requires db.uniqueTitle || forall i :: 0 <= i < |vs| ==> HonestVisit(db, vs[i])
    requires forall j :: 0 <= j < |ws| ==> ReadIn(ws[j], vs)
    ensures Known(Run(db, vs, |vs|), ws) && Run(Run(db, vs, |vs|), ws, |ws|) == Run(db, vs, |vs|)
  {
    var once := Run(db, vs, |vs|);
    forall j | 0 <= j < |ws|
      ensures ws[j].table in once.browse && Quiet(once, ws[j])
    {
      var i :| 0 <= i < |vs| && Within(ws[j], vs[i]);
      QuietAfter(db, vs, i);
      QuietWithin(once, ws[j], vs[i]);
    }
    QuietRun(once, ws, |ws|);
  }

  /** Both runs read the same entries for the same tables, in whatever order. */
  ghost predicate SameReads(vs: seq<Visit>, ws: seq<Visit>) {
    && (forall j :: 0 <= j < |ws| ==> ReadIn(ws[j], vs))
    && (forall i :: 0 <= i < |vs| ==> ReadIn(vs[i], ws))
  }

  lemma {:induction false} Squeezed(a: multiset<Row>, b: multiset<Row>, c: multiset<Row>)
    requires a <= b <= c <= a
    ensures a == b == c
  {
  }

  /** A run that ends where it began leaves each table as it is at each turn. */
  lemma {:induction false} NothingOnTheWay(db: Db, vs: seq<Visit>, j: nat)
    requires j < |vs| && Known(db, vs) && Run(db, vs, |vs|) == db
    ensures Visited(db.browse[vs[j].table], db.uniqueTitle, vs[j]) == db.browse[vs[j].table]
  {
    var t, next := vs[j].table, j + 1;
    RunKeepsAll(db, vs, 0, j, t, ([], []));
    RunKeepsAll(db, vs, j, next, t, ([], []));
    RunKeepsAll(db, vs, next, |vs|, t, ([], []));
    RunStepRows(db, vs, j, t);
    Squeezed(db.browse[t], Run(db, vs, j).browse[t], Run(db, vs, next).browse[t]);
  }

  lemma {:induction false} SameTableSameEntries(vs: seq<Visit>, ws: seq<Visit>, i: nat, j: nat)
    requires DistinctTables(vs) && SameReads(vs, ws) && i < |vs| && j < |ws| && vs[i].dir.Some? && Within(vs[i], ws[j])
    ensures ws[j].dir.Some? && ws[j].table == vs[i].table && SameEntries(vs[i].dir.value, ws[j].dir.value)
  {
    assert ReadIn(ws[j], vs);
    var h :| 0 <= h < |vs| && Within(ws[j], vs[h]);
    assert h == i;
  }

  lemma {:induction false} SameReadsKnown(db: Db, vs: seq<Visit>, ws: seq<Visit>)
    requires Known(db, vs) && SameReads(vs, ws)
    ensures Known(Run(db, vs, |vs|), ws)
  {
    forall j | 0 <= j < |ws|
      ensures ws[j].table in db.browse
    {
      assert ReadIn(ws[j], vs);
      var i :| 0 <= i < |vs| && Within(ws[j], vs[i]);
    }
  }

  lemma {:induction false} UnchangedIsHonest(db: Db, vs: seq<Visit>, ws: seq<Visit>, i: nat)
    requires Known(db, vs) && DistinctTables(vs) && DistinctListings(vs) && SameReads(vs, ws)
    requires Known(Run(db, vs, |vs|), ws) && Run(Run(db, vs, |vs|), ws, |ws|) == Run(db, vs, |vs|)
    requires i < |vs| && !db.uniqueTitle
    ensures HonestVisit(db, vs[i])
  {
    if vs[i].dir.Some? {
      var once, rows := Run(db, vs, |vs|), db.browse[vs[i].table];
      assert ReadIn(vs[i], ws);
      var j :| 0 <= j < |ws| && Within(vs[i], ws[j]);
      SameTableSameEntries(vs, ws, i, j);
      NothingOnTheWay(once, ws, j);
      RunRows(db, vs, i);
      SecondPassExactly(rows, false, vs[i].dir.value, ws[j].dir.value);
    }
  }

  /** Idempotence of the whole rebuild: a second one over the same entries, in any order, leaves the
      database identical if and only if the tables refuse duplicate titles or every missing title is
      honest about its name, table by table. */
  lemma {:induction false} RebuildTwiceExactly(db: Db, vs: seq<Visit>, ws: seq<Visit>)
    requires Known(db, vs) && DistinctTables(vs) && DistinctListings(vs) && SameReads(vs, ws)
    ensures var once := Run(db, vs, |vs|);
            Known(once, ws) &&
            (Run(once, ws, |ws|) == once <==> db.uniqueTitle || forall i :: 0 <= i < |vs| ==> HonestVisit(db, vs[i]))
  {
    var once := Run(db, vs, |vs|);
    SameReadsKnown(db, vs, ws);
    if db.uniqueTitle || forall i :: 0 <= i < |vs| ==> HonestVisit(db, vs[i]) {
      LaterRunChangesNothing(db, vs, ws);
    } else if Run(once, ws, |ws|) == once {
      var i :| 0 <= i < |vs| && !HonestVisit(db, vs[i]);
      UnchangedIsHonest(db, vs, ws, i);
    }
  }

  // ---------------------------------------------------------------- closed form and confluence

  /** The titles of a listing that a table does not have yet. */
  ghost function Fresh(rows: multiset<Row>, cs: seq<Candidate>, n: nat): set<Candidate>
    requires n <= |cs|
  {
    set i | 0 <= i < n && cs[i].Title? && !Present(rows, cs[i].name) :: cs[i]
  }

  ghost function RowsOf(titles: set<Candidate>): set<Row> {
    set c | c in titles && c.Title? :: c.row
  }

  ghost predicate Named(titles: set<Candidate>) {
    forall c :: c in titles ==> c.Title? && c.row.titleId == c.name
  }

  ghost predicate OneRowPerName(titles: set<Candidate>) {
    forall c, c' :: c in titles && c' in titles && c.Title? && c'.Title? && c.name == c'.name ==> c == c'
  }

  lemma {:induction false} FreshSnoc(rows: multiset<Row>, cs: seq<Candidate>, n: nat)
    requires n < |cs|
    ensures Fresh(rows, cs, n + 1) ==
              Fresh(rows, cs, n) + if cs[n].Title? && !Present(rows, cs[n].name) then {cs[n]} else {}
  {
  }

  lemma {:induction false} PresentAfter(rows: multiset<Row>, titles: set<Candidate>, name: Text)
    requires Named(titles)
    ensures Present(rows + multiset(RowsOf(titles)), name) <==>
              Present(rows, name) || exists c :: c in titles && c.name == name
  {
  }

  lemma {:induction false} FreshNames(rows: multiset<Row>, cs: seq<Candidate>, n: nat)
    requires n <= |cs| && DistinctNames(cs) && Honest(rows, cs)
    ensures Named(Fresh(rows, cs, n))
    ensures n < |cs| && cs[n].Title? ==> forall c :: c in Fresh(rows, cs, n) ==> c.name != cs[n].name
  {
  }

  lemma {:induction false} RowsOfMore(titles: set<Candidate>, c: Candidate)
    requires Named(titles) && c.Title? && c.row.titleId == c.name
    requires forall c' :: c' in titles ==> c'.name != c.name
    ensures multiset(RowsOf(titles + {c})) == multiset(RowsOf(titles)) + multiset{c.row}
  {
  }

  /** An honest entry is added exactly when its name was missing at the start. */
  lemma {:induction false} HonestStep(rows: multiset<Row>, unique: bool, cs: seq<Candidate>, n: nat)
    requires n < |cs| && DistinctNames(cs) && Honest(rows, cs)
    requires RowPass(rows, unique, cs, n) == rows + multiset(RowsOf(Fresh(rows, cs, n)))
    ensures AddsAt(rows, unique, cs, n) <==> cs[n].Title? && !Present(rows, cs[n].name)
    ensures RowPass(rows, unique, cs, n + 1) == rows + multiset(RowsOf(Fresh(rows, cs, n + 1)))
  {
    var titles, c := Fresh(rows, cs, n), cs[n];
    FreshNames(rows, cs, n);
    FreshSnoc(rows, cs, n);
    if c.Title? {
      PresentAfter(rows, titles, c.name);
      if !Present(rows, c.name) {
        RowsOfMore(titles, c);
      }
    }
  }

  /** Closed form of a pass over an honest listing: it adds the rows of the fresh titles, whatever
      their order and whatever the table's constraint. */
  lemma {:induction false} PassRows(rows: multiset<Row>, unique: bool, cs: seq<Candidate>, n: nat)
    requires n <= |cs| && DistinctNames(cs) && Honest(rows, cs)
    ensures RowPass(rows, unique, cs, n) == rows + multiset(RowsOf(Fresh(rows, cs, n)))
  {
    if n == 0 {
      assert RowsOf(Fresh(rows, cs, 0)) == {};
    } else {
      var m := n - 1;
      PassRows(rows, unique, cs, m);
      HonestStep(rows, unique, cs, m);
      assert m + 1 == n;
    }
  }

  // ---- tbl_appinfo

  ghost predicate Gives(titles: set<Candidate>, p: (Text, Text), v: Val) {
    exists c :: c in titles && c.Title? && c.row.titleId == p.0 && AttrOf(c, p.1) == Some(v)
  }

  /** `after` is `before` with the attributes of the titles where `before` had none. */
  ghost predicate Filled(before: Info, titles: set<Candidate>, after: Info) {
    forall p: (Text, Text) {:trigger Get(after, p)} ::
      match Get(before, p)
      case Some(v) => Get(after, p) == Some(v)
      case None => match Get(after, p)
        case Some(v) => Gives(titles, p, v)
        case None => forall v :: !Gives(titles, p, v)
  }

  /** Titles that are named after their directory give one value per key. */
  lemma {:induction false} GivesOne(titles: set<Candidate>, p: (Text, Text), v: Val, v': Val)
    requires Named(titles) && OneRowPerName(titles) && Gives(titles, p, v) && Gives(titles, p, v')
    ensures v == v'
  {
  }

  lemma {:induction false} FilledIsUnique(before: Info, titles: set<Candidate>, a: Info, b: Info)
    requires Named(titles) && OneRowPerName(titles) && Filled(before, titles, a) && Filled(before, titles, b)
    ensures a == b
  {
    forall p: (Text, Text)
      ensures Get(a, p) == Get(b, p)
    {
      match Get(a, p)
      case Some(v) =>
        if Get(before, p).None? {
          match Get(b, p)
          case Some(v') => GivesOne(titles, p, v, v');
          case None =>
        }
      case None =>
    }
    SameGets(a, b);
  }

  lemma {:induction false} GivesMore(titles: set<Candidate>, c: Candidate, p: (Text, Text), v: Val)
    requires c.Title?
    ensures Gives(titles + {c}, p, v) <==> Gives(titles, p, v) || (c.row.titleId == p.0 && AttrOf(c, p.1) == Some(v))
  {
  }

  lemma {:induction false} FilledStep(before: Info, titles: set<Candidate>, m: Info, c: Candidate)
    requires c.Title? && Named(titles + {c}) && OneRowPerName(titles + {c}) && Filled(before, titles, m)
    ensures Filled(before, titles + {c}, Attributed(m, c))
  {
    var after := Attributed(m, c);
    forall p: (Text, Text)
      ensures match Get(before, p)
              case Some(v) => Get(after, p) == Some(v)
              case None => match Get(after, p)
                case Some(v) => Gives(titles + {c}, p, v)
                case None => forall v :: !Gives(titles + {c}, p, v)
    {
      AttributedGet(m, c, p);
      forall v
        ensures Gives(titles + {c}, p, v) <==>
                  Gives(titles, p, v) || (c.row.titleId == p.0 && AttrOf(c, p.1) == Some(v))
      {
        GivesMore(titles, c, p, v);
      }
      assert Get(m, p) == Get(m, p);
    }
  }

  lemma {:induction false} FreshIsOneEach(rows: multiset<Row>, cs: seq<Candidate>, n: nat)
    requires n <= |cs| && DistinctNames(cs)
    ensures OneRowPerName(Fresh(rows, cs, n))
  {
  }

  lemma {:induction false} HonestAdds(rows: multiset<Row>, unique: bool, cs: seq<Candidate>, n: nat)
    requires n < |cs| && DistinctNames(cs) && Honest(rows, cs)
    ensures AddsAt(rows, unique, cs, n) <==> cs[n].Title? && !Present(rows, cs[n].name)
  {
    PassRows(rows, unique, cs, n);
    HonestStep(rows, unique, cs, n);
  }

  lemma {:induction false} InfoStep(m: Info, rows: multiset<Row>, unique: bool, cs: seq<Candidate>, n: nat)
    requires n < |cs| && DistinctNames(cs) && Honest(rows, cs)
    ensures var before, titles := InfoPass(m, rows, unique, cs, n), Fresh(rows, cs, n);
            if cs[n].Title? && !Present(rows, cs[n].name)
            then InfoPass(m, rows, unique, cs, n + 1) == Attributed(before, cs[n]) &&
                 Fresh(rows, cs, n + 1) == titles + {cs[n]}
            else InfoPass(m, rows, unique, cs, n + 1) == before && Fresh(rows, cs, n + 1) == titles
  {
    HonestAdds(rows, unique, cs, n);
    PassUnfold(m, rows, unique, cs, n);
    FreshSnoc(rows, cs, n);
  }

  /** Closed form of a pass for tbl_appinfo: the attributes of the fresh titles fill the gaps. */
  lemma {:induction false} PassInfo(m: Info, rows: multiset<Row>, unique: bool, cs: seq<Candidate>, n: nat)
    requires n <= |cs| && DistinctNames(cs) && Honest(rows, cs)
    ensures Filled(m, Fresh(rows, cs, n), InfoPass(m, rows, unique, cs, n))
  {
    if n == 0 {
      assert Fresh(rows, cs, 0) == {};
    } else {
      var k := n - 1;
      var before, titles := InfoPass(m, rows, unique, cs, k), Fresh(rows, cs, k);
      PassInfo(m, rows, unique, cs, k);
      InfoStep(m, rows, unique, cs, k);
      FreshNames(rows, cs, n);
      FreshIsOneEach(rows, cs, n);
      if cs[k].Title? && !Present(rows, cs[k].name) {
        FilledStep(m, titles, before, cs[k]);
      }
    }
  }

  // ---- runs

  ghost predicate UniformVisit(v: Visit, titles: set<Candidate>) {
    && v.dir.Some? && DistinctNames(v.dir.value)
    && forall c :: c in titles <==> c in v.dir.value && c.Title?
  }

  /** The titles some of the first n tables does not have yet. */
  ghost function Missing(db: Db, vs: seq<Visit>, titles: set<Candidate>, n: nat): set<Candidate>
    requires n <= |vs| && Known(db, vs)
  {
    set c | c in titles && c.Title? && exists i :: 0 <= i < n && !Present(db.browse[vs[i].table], c.name)
  }

  /** All listings are opened and hold the same titles, each once; those that some visited table does
      not have yet are honest about their names. */
  ghost predicate Uniform(db: Db, vs: seq<Visit>, titles: set<Candidate>)
    requires Known(db, vs)
  {
    && Named(Missing(db, vs, titles, |vs|)) && OneRowPerName(titles)
    && forall i :: 0 <= i < |vs| ==> UniformVisit(vs[i], titles)
  }

  ghost function Absent(rows: multiset<Row>, titles: set<Candidate>): set<Candidate> {
    set c | c in titles && c.Title? && !Present(rows, c.name)
  }

  /** What one visited table misses is missing, and so is what the first tables miss. */
  lemma {:induction false} MissingAtAll(db: Db, vs: seq<Visit>, titles: set<Candidate>, i: nat, n: nat)
    requires i < |vs| && n <= |vs| && Known(db, vs)
    ensures Absent(db.browse[vs[i].table], titles) <= Missing(db, vs, titles, |vs|)
    ensures Missing(db, vs, titles, n) <= Missing(db, vs, titles, |vs|)
  {
  }

  lemma {:induction false} UniformIsHonest(rows: multiset<Row>, v: Visit, titles: set<Candidate>)
    requires UniformVisit(v, titles) && Named(Absent(rows, titles))
    ensures Honest(rows, v.dir.value)
    ensures Fresh(rows, v.dir.value, |v.dir.value|) == Absent(rows, titles)
  {
  }

  lemma {:induction false} GivesUnion(s: set<Candidate>, t: set<Candidate>, p: (Text, Text), v: Val)
    ensures Gives(s + t, p, v) <==> Gives(s, p, v) || Gives(t, p, v)
  {
  }

  lemma {:induction false} FilledTwice(a: Info, s: set<Candidate>, b: Info, t: set<Candidate>, c: Info)
    requires Named(s + t) && OneRowPerName(s + t) && Filled(a, s, b) && Filled(b, t, c)
    ensures Filled(a, s + t, c)
  {
    forall p: (Text, Text)
      ensures match Get(a, p)
              case Some(v) => Get(c, p) == Some(v)
              case None => match Get(c, p)
                case Some(v) => Gives(s + t, p, v)
                case None => forall v :: !Gives(s + t, p, v)
    {
      assert Get(b, p) == Get(b, p) && Get(c, p) == Get(c, p);
      forall v
        ensures Gives(s + t, p, v) <==> Gives(s, p, v) || Gives(t, p, v)
      {
        GivesUnion(s, t, p, v);
      }
    }
  }

  lemma {:induction false} MissingSnoc(db: Db, vs: seq<Visit>, titles: set<Candidate>, n: nat)
    requires n < |vs| && Known(db, vs)
    ensures Missing(db, vs, titles, n + 1) == Missing(db, vs, titles, n) +
              Absent(db.browse[vs[n].table], titles)
  {
  }

  /** Closed form of a run for tbl_appinfo: the titles missing from some table fill the gaps. */
  lemma {:induction false} RunInfo(db: Db, vs: seq<Visit>, titles: set<Candidate>, n: nat)
    requires n <= |vs| && Known(db, vs) && DistinctTables(vs) && Uniform(db, vs, titles)
    ensures Filled(db.info, Missing(db, vs, titles, n), Run(db, vs, n).info)
  {
    if n == 0 {
      assert Missing(db, vs, titles, 0) == {};
    } else {
      var k := n - 1;
      var v, rows := vs[k], db.browse[vs[k].table];
      var newTitles := Fresh(rows, v.dir.value, |v.dir.value|);
      RunInfo(db, vs, titles, k);
      RunStep(db, vs, k);
      RunRows(db, vs, k);
      assert UniformVisit(v, titles);
      MissingAtAll(db, vs, titles, k, n);
      UniformIsHonest(rows, v, titles);
      PassInfo(Run(db, vs, k).info, rows, db.uniqueTitle, v.dir.value, |v.dir.value|);
      MissingSnoc(db, vs, titles, k);
      FilledTwice(db.info, Missing(db, vs, titles, k), Run(db, vs, k).info, newTitles, Run(db, vs, n).info);
    }
  }

  ghost predicate VisitedBy(vs: seq<Visit>, t: Text) {
    exists i :: 0 <= i < |vs| && vs[i].table == t
  }

  /** The rows of a table after a run, whichever way the run went. */
  lemma {:induction false} TableAfter(db: Db, vs: seq<Visit>, titles: set<Candidate>, t: Text)
    requires Known(db, vs) && DistinctTables(vs) && Uniform(db, vs, titles) && t in db.browse
    ensures Run(db, vs, |vs|).browse[t] ==
              if VisitedBy(vs, t)
              then db.browse[t] + multiset(RowsOf(Absent(db.browse[t], titles)))
              else db.browse[t]
  {
    if VisitedBy(vs, t) {
      var i :| 0 <= i < |vs| && vs[i].table == t;
      assert UniformVisit(vs[i], titles);
      MissingAtAll(db, vs, titles, i, 0);
      RunRows(db, vs, i);
      UniformIsHonest(db.browse[t], vs[i], titles);
      PassRows(db.browse[t], db.uniqueTitle, vs[i].dir.value, |vs[i].dir.value|);
    } else {
      RunIsTableRun(db, vs, |vs|, t);
      TableRunOthers(db.browse[t], db.uniqueTitle, vs, 0, |vs|, t);
    }
  }

  lemma {:induction false} SameMissing(db: Db, vs: seq<Visit>, vs': seq<Visit>, titles: set<Candidate>)
    requires Known(db, vs) && Known(db, vs') && forall t :: VisitedBy(vs, t) <==> VisitedBy(vs', t)
    ensures Missing(db, vs, titles, |vs|) == Missing(db, vs', titles, |vs'|)
  {
    forall c
      ensures c in Missing(db, vs, titles, |vs|) <==> c in Missing(db, vs', titles, |vs'|)
    {
      if c in Missing(db, vs, titles, |vs|) {
        var i :| 0 <= i < |vs| && !Present(db.browse[vs[i].table], c.name);
        assert VisitedBy(vs, vs[i].table);
        var j :| 0 <= j < |vs'| && vs'[j].table == vs[i].table;
      }
      if c in Missing(db, vs', titles, |vs'|) {
        var i :| 0 <= i < |vs'| && !Present(db.browse[vs'[i].table], c.name);
        assert VisitedBy(vs', vs'[i].table);
        var j :| 0 <= j < |vs| && vs[j].table == vs'[i].table;
      }
    }
  }

  /** Confluence: neither the order of the tables nor the order of the directory entries, table by
      table, makes a difference to the rebuilt database. */
  lemma {:induction false} RebuildIsConfluent(db: Db, vs: seq<Visit>, vs': seq<Visit>, titles: set<Candidate>)
    requires Known(db, vs) && Known(db, vs') && DistinctTables(vs) && DistinctTables(vs')
    requires Uniform(db, vs, titles) && Uniform(db, vs', titles)
    requires forall t :: VisitedBy(vs, t) <==> VisitedBy(vs', t)
    ensures Run(db, vs, |vs|) == Run(db, vs', |vs'|)
  {
    var one, two := Run(db, vs, |vs|), Run(db, vs', |vs'|);
    forall t | t in db.browse
      ensures one.browse[t] == two.browse[t]
    {
      assert VisitedBy(vs, t) <==> VisitedBy(vs', t);
      TableAfter(db, vs, titles, t);
      TableAfter(db, vs', titles, t);
    }
    assert one.browse == two.browse;
    SameMissing(db, vs, vs', titles);
    RunInfo(db, vs, titles, |vs|);
    RunInfo(db, vs', titles, |vs'|);
    FilledIsUnique(db.info, Missing(db, vs, titles, |vs|), one.info, two.info);
  }
}

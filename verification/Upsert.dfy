/** What INSERT OR REPLACE and the upsert written for it do to a table. */
module Upsert {
  import opened SqlInsert

  datatype Value = Null | Number(n: int) | Words(s: string)

  type Row = map<string, Value>

  /** A table whose only uniqueness constraint is `key`: its columns, and the value a column
      takes when an INSERT does not list it. */
  datatype Schema = Schema(columns: set<string>, key: seq<string>, defaults: Row) {
    ghost predicate Valid() {
      && (forall c :: c in key ==> c in columns)
      && defaults.Keys == columns
    }
  }

  /** An INSERT: the columns it lists, in order, and their values. Key columns take no NULL, which SQL
      holds different from itself. */
  datatype Insert = Insert(columns: seq<string>, values: Row) {
    ghost predicate Fits(d: Schema) {
      && d.Valid()
      && (forall c :: c in columns ==> c in d.columns)
      && values.Keys == (set c | c in columns)
      && forall c :: c in d.key ==> (if c in columns then values[c] else d.defaults[c]) != Null
    }
  }

  /** The row that an INSERT proposes (`EXCLUDED` in the conflict clause). */
  function Proposed(d: Schema, i: Insert): Row
    requires d.Valid() && i.Fits(d)
  {
    map c | c in d.columns :: if c in i.columns then i.values[c] else d.defaults[c]
  }

  predicate SameKey(d: Schema, r: Row, r': Row)
    requires forall c :: c in d.key ==> c in r && c in r'
  {
    forall c | c in d.key :: r[c] == r'[c]
  }

  ghost predicate RowsFit(d: Schema, t: set<Row>) {
    d.Valid() && forall r :: r in t ==> r.Keys == d.columns && forall c :: c in d.key ==> r[c] != Null
  }

  /** The uniqueness constraint. */
  ghost predicate Unique(d: Schema, t: set<Row>)
    requires d.Valid() && RowsFit(d, t)
  {
    forall r, r' :: r in t && r' in t && SameKey(d, r, r') ==> r == r'
  }

  /** INSERT OR REPLACE: rows in conflict go, the proposed row comes. */
  ghost function Replace(d: Schema, t: set<Row>, i: Insert): set<Row>
    requires d.Valid() && i.Fits(d) && RowsFit(d, t)
  {
    var p := Proposed(d, i);
    (set r | r in t && !SameKey(d, r, p)) + {p}
  }

  /** The row `r` after the conflict clause: the update columns are taken from the proposed row. */
  function Overwritten(d: Schema, r: Row, i: Insert): Row
    requires d.Valid() && i.Fits(d) && r.Keys == d.columns
  {
    var p := Proposed(d, i);
    map c | c in d.columns :: if c in UpdateColumns(i.columns, d.key) then p[c] else r[c]
  }

  /** A row after the statement, in a table that has a conflict. */
  function Updated(d: Schema, r: Row, i: Insert): Row
    requires d.Valid() && i.Fits(d) && r.Keys == d.columns
  {
    if SameKey(d, r, Proposed(d, i)) then Overwritten(d, r, i) else r
  }

  predicate Conflicts(d: Schema, t: set<Row>, i: Insert)
    requires d.Valid() && i.Fits(d) && RowsFit(d, t)
  {
    exists r | r in t :: SameKey(d, r, Proposed(d, i))
  }

  /** INSERT ... ON CONFLICT (key) DO UPDATE SET, with the assignments of the rewrite. */
  ghost function OnConflictUpdate(d: Schema, t: set<Row>, i: Insert): set<Row>
    requires d.Valid() && i.Fits(d) && RowsFit(d, t)
  {
    if Conflicts(d, t, i)
    then (set r | r in t :: Updated(d, r, i))
    else t + {Proposed(d, i)}
  }

  lemma {:induction false} UpdateColumnsAre(columns: seq<string>, conflict: seq<string>)
    ensures forall c :: c in UpdateColumns(columns, conflict) <==> c in columns && c !in conflict
  {
    if columns != [] {
      UpdateColumnsAre(columns[1..], conflict);
      assert columns == [columns[0]] + columns[1..];
    }
  }

  /** An update does not move a row to another key. */
  lemma OverwrittenKeepsKey(d: Schema, r: Row, i: Insert)
    requires d.Valid() && i.Fits(d) && r.Keys == d.columns
    ensures SameKey(d, Overwritten(d, r, i), r)
  {
    UpdateColumnsAre(i.columns, d.key);
  }

  lemma ReplaceKeepsUnique(d: Schema, t: set<Row>, i: Insert)
    requires d.Valid() && i.Fits(d) && RowsFit(d, t) && Unique(d, t)
    ensures RowsFit(d, Replace(d, t, i)) && Unique(d, Replace(d, t, i))
  {
  }

  lemma UpdatedKeepsKey(d: Schema, r: Row, i: Insert)
    requires d.Valid() && i.Fits(d) && r.Keys == d.columns
    ensures SameKey(d, Updated(d, r, i), r)
  {
    OverwrittenKeepsKey(d, r, i);
  }

  lemma UpdateKeepsUnique(d: Schema, t: set<Row>, i: Insert)
    requires d.Valid() && i.Fits(d) && RowsFit(d, t) && Unique(d, t)
    ensures RowsFit(d, OnConflictUpdate(d, t, i)) && Unique(d, OnConflictUpdate(d, t, i))
  {
    if Conflicts(d, t, i) {
      UpdateFits(d, t, i);
      var t' := OnConflictUpdate(d, t, i);
      forall r, r' | r in t' && r' in t' && SameKey(d, r, r') ensures r == r' {
        var o :| o in t && r == Updated(d, o, i);
        var o' :| o' in t && r' == Updated(d, o', i);
        UpdatedKeepsKey(d, o, i);
        UpdatedKeepsKey(d, o', i);
        assert SameKey(d, o, o');
      }
    }
  }

  lemma UpdateFits(d: Schema, t: set<Row>, i: Insert)
    requires d.Valid() && i.Fits(d) && RowsFit(d, t)
    ensures RowsFit(d, OnConflictUpdate(d, t, i))
  {
    forall o | o in t
      ensures var r := Updated(d, o, i); r.Keys == d.columns && forall c :: c in d.key ==> r[c] != Null
    {
      UpdatedKeepsKey(d, o, i);
    }
  }

  // ---------------------------------------------------------------- one statement

  /** The row has the key that the statement gives: its listed values, and defaults in the others. */
  predicate HasKey(d: Schema, r: Row, i: Insert)
    requires d.Valid() && i.Fits(d) && r.Keys == d.columns
  {
    forall c :: c in d.key ==> r[c] == (if c in i.columns then i.values[c] else d.defaults[c])
  }

  predicate HoldsListed(r: Row, i: Insert)
    requires forall c :: c in i.columns ==> c in r && c in i.values
  {
    forall c :: c in i.columns ==> r[c] == i.values[c]
  }

  /** The table has exactly one row of the statement's key, which holds every listed value; all other
      rows are those of before. */
  ghost predicate Stored(d: Schema, t: set<Row>, i: Insert, t': set<Row>)
    requires d.Valid() && i.Fits(d) && RowsFit(d, t) && RowsFit(d, t')
  {
    && (exists r :: r in t' && HasKey(d, r, i) && HoldsListed(r, i))
    && (forall r, r' :: r in t' && r' in t' && HasKey(d, r, i) && HasKey(d, r', i) ==> r == r')
    && (forall r: Row :: r.Keys == d.columns && !HasKey(d, r, i) ==> (r in t' <==> r in t))
  }

  lemma KeyIsProposed(d: Schema, r: Row, i: Insert)
    requires d.Valid() && i.Fits(d) && r.Keys == d.columns
    ensures HasKey(d, r, i) <==> SameKey(d, r, Proposed(d, i))
  {
  }

  lemma ReplaceStores(d: Schema, t: set<Row>, i: Insert)
    requires d.Valid() && i.Fits(d) && RowsFit(d, t) && Unique(d, t)
    ensures RowsFit(d, Replace(d, t, i)) && Stored(d, t, i, Replace(d, t, i))
    ensures forall r :: r in Replace(d, t, i) && HasKey(d, r, i) ==>
              forall c :: c in d.columns && c !in i.columns ==> r[c] == d.defaults[c]
  {
    var p := Proposed(d, i);
    ReplaceKeepsUnique(d, t, i);
    forall r: Row | r.Keys == d.columns ensures HasKey(d, r, i) <==> SameKey(d, r, p) {
      KeyIsProposed(d, r, i);
    }
    assert p in Replace(d, t, i) && HoldsListed(p, i);
  }

  lemma UpdatedHolds(d: Schema, r: Row, i: Insert)
    requires d.Valid() && i.Fits(d) && r.Keys == d.columns && SameKey(d, r, Proposed(d, i))
    ensures HoldsListed(Updated(d, r, i), i) && HasKey(d, Updated(d, r, i), i)
    ensures forall c :: c in d.columns && c !in i.columns ==> Updated(d, r, i)[c] == r[c]
  {
    UpdateColumnsAre(i.columns, d.key);
    UpdatedKeepsKey(d, r, i);
    KeyIsProposed(d, Updated(d, r, i), i);
    forall c | c in i.columns ensures Updated(d, r, i)[c] == i.values[c] {
    }
  }

  lemma OthersStay(d: Schema, t: set<Row>, i: Insert)
    requires d.Valid() && i.Fits(d) && RowsFit(d, t) && Conflicts(d, t, i)
    ensures forall r: Row :: r.Keys == d.columns && !HasKey(d, r, i) ==> (r in OnConflictUpdate(d, t, i) <==> r in t)
    ensures forall r :: r in OnConflictUpdate(d, t, i) && HasKey(d, r, i) ==>
              exists o :: o in t && SameKey(d, o, Proposed(d, i)) && r == Updated(d, o, i)
  {
    var t' := OnConflictUpdate(d, t, i);
    forall r: Row | r.Keys == d.columns && !HasKey(d, r, i) ensures r in t' <==> r in t {
      KeyIsProposed(d, r, i);
      if r in t {
        assert Updated(d, r, i) == r;
      }
      if r in t' {
        var o :| o in t && r == Updated(d, o, i);
        if SameKey(d, o, Proposed(d, i)) {
          UpdatedHolds(d, o, i);
        }
      }
    }
    forall r | r in t' && HasKey(d, r, i)
      ensures exists o :: o in t && SameKey(d, o, Proposed(d, i)) && r == Updated(d, o, i)
    {
      KeyIsProposed(d, r, i);
      var o :| o in t && r == Updated(d, o, i);
      UpdatedKeepsKey(d, o, i);
    }
  }

  /** Either statement stores the row: afterwards exactly one row has its key, that row holds every
      listed value, and no other row is touched. */
  lemma UpdateStores(d: Schema, t: set<Row>, i: Insert)
    requires d.Valid() && i.Fits(d) && RowsFit(d, t) && Unique(d, t)
    ensures RowsFit(d, OnConflictUpdate(d, t, i)) && Stored(d, t, i, OnConflictUpdate(d, t, i))
  {
    var p, t' := Proposed(d, i), OnConflictUpdate(d, t, i);
    UpdateKeepsUnique(d, t, i);
    if Conflicts(d, t, i) {
      OthersStay(d, t, i);
      var o :| o in t && SameKey(d, o, p);
      UpdatedHolds(d, o, i);
      assert Updated(d, o, i) in t';
      forall r, r' | r in t' && r' in t' && HasKey(d, r, i) && HasKey(d, r', i) ensures r == r' {
        assert SameKey(d, r, r');
      }
    } else {
      ReplaceStores(d, t, i);
      assert t' == Replace(d, t, i);
    }
  }

  /** The guard: every row in conflict already has the defaults in the columns not listed. */
  predicate UnlistedAreDefault(d: Schema, t: set<Row>, i: Insert)
    requires d.Valid() && i.Fits(d) && RowsFit(d, t)
  {
    forall r | r in t :: SameKey(d, r, Proposed(d, i)) ==>
      forall c | c in d.columns :: c in i.columns || r[c] == d.defaults[c]
  }

  lemma OverwrittenIsProposedIff(d: Schema, r: Row, i: Insert)
    requires d.Valid() && i.Fits(d) && r.Keys == d.columns && SameKey(d, r, Proposed(d, i))
    ensures Overwritten(d, r, i) == Proposed(d, i) <==>
            forall c :: c in d.columns ==> c in i.columns || r[c] == d.defaults[c]
  {
    UpdateColumnsAre(i.columns, d.key);
    var o, p := Overwritten(d, r, i), Proposed(d, i);
    forall c | c in d.columns
      ensures o[c] == p[c] <==> c in i.columns || r[c] == d.defaults[c]
    {
    }
    if forall c :: c in d.columns ==> c in i.columns || r[c] == d.defaults[c] {
      assert o.Keys == p.Keys;
    }
  }

  /** In a table with one row per key, the two statements treat the row in conflict apart from all
      others. */
  lemma OneInConflict(d: Schema, t: set<Row>, i: Insert, r: Row)
    requires d.Valid() && i.Fits(d) && RowsFit(d, t) && Unique(d, t) && r in t && SameKey(d, r, Proposed(d, i))
    ensures OnConflictUpdate(d, t, i) == (t - {r}) + {Overwritten(d, r, i)}
    ensures Replace(d, t, i) == (t - {r}) + {Proposed(d, i)}
    ensures Overwritten(d, r, i) !in t - {r} && Proposed(d, i) !in t - {r}
  {
    forall x | x in t && SameKey(d, x, Proposed(d, i)) ensures x == r {
      assert SameKey(d, x, r);
    }
    OverwrittenKeepsKey(d, r, i);
    assert Updated(d, r, i) in OnConflictUpdate(d, t, i);
  }

  /** The upsert means what INSERT OR REPLACE means, on a given table, if and only if every row in
      conflict holds defaults in the columns that the statement leaves out. */
  lemma UpsertIsReplaceIff(d: Schema, t: set<Row>, i: Insert)
    requires d.Valid() && i.Fits(d) && RowsFit(d, t) && Unique(d, t)
    ensures OnConflictUpdate(d, t, i) == Replace(d, t, i) <==> UnlistedAreDefault(d, t, i)
  {
    if Conflicts(d, t, i) {
      var r :| r in t && SameKey(d, r, Proposed(d, i));
      OneInConflict(d, t, i, r);
      OtherRow(t - {r}, Overwritten(d, r, i), Proposed(d, i));
      OverwrittenIsProposedIff(d, r, i);
      GuardAtOne(d, t, i, r);
    } else {
      assert Replace(d, t, i) == t + {Proposed(d, i)};
    }
  }

  lemma OtherRow(t: set<Row>, o: Row, p: Row)
    requires o !in t && p !in t
    ensures t + {o} == t + {p} <==> o == p
  {
    assert o in t + {o};
  }

  lemma GuardAtOne(d: Schema, t: set<Row>, i: Insert, r: Row)
    requires d.Valid() && i.Fits(d) && RowsFit(d, t) && Unique(d, t) && r in t && SameKey(d, r, Proposed(d, i))
    ensures UnlistedAreDefault(d, t, i) <==> forall c :: c in d.columns ==> c in i.columns || r[c] == d.defaults[c]
  {
    forall x | x in t && SameKey(d, x, Proposed(d, i)) ensures x == r {
      assert SameKey(d, x, r);
    }
  }

  /** When only key columns are listed, a conflict leaves the table as it is. */
  lemma KeyOnlyIsNoOp(d: Schema, t: set<Row>, i: Insert)
    requires d.Valid() && i.Fits(d) && RowsFit(d, t)
    requires forall c :: c in i.columns ==> c in d.key
    requires Conflicts(d, t, i)
    ensures OnConflictUpdate(d, t, i) == t
  {
    UpdateColumnsAre(i.columns, d.key);
    forall r | r in t ensures Overwritten(d, r, i) == r {
    }
  }

  // ---------------------------------------------------------------- runs

  ghost predicate AllFit(d: Schema, run: seq<Insert>) {
    forall k :: 0 <= k < |run| ==> run[k].Fits(d)
  }

  ghost function ReplaceRun(d: Schema, t: set<Row>, run: seq<Insert>): (r: set<Row>)
    requires d.Valid() && AllFit(d, run) && RowsFit(d, t)
    ensures RowsFit(d, r)
  {
    if run == [] then t else Replace(d, ReplaceRun(d, t, run[..|run| - 1]), run[|run| - 1])
  }

  ghost function UpdateRun(d: Schema, t: set<Row>, run: seq<Insert>): (r: set<Row>)
    requires d.Valid() && AllFit(d, run) && RowsFit(d, t)
    ensures RowsFit(d, r)
  {
    if run == [] then t else OnConflictUpdate(d, UpdateRun(d, t, run[..|run| - 1]), run[|run| - 1])
  }

  lemma {:induction false} RunsKeepUnique(d: Schema, t: set<Row>, run: seq<Insert>)
    requires d.Valid() && AllFit(d, run) && RowsFit(d, t) && Unique(d, t)
    ensures Unique(d, ReplaceRun(d, t, run)) && Unique(d, UpdateRun(d, t, run))
  {
    if run != [] {
      var n := |run| - 1;
      RunsKeepUnique(d, t, run[..n]);
      ReplaceKeepsUnique(d, ReplaceRun(d, t, run[..n]), run[n]);
      UpdateKeepsUnique(d, UpdateRun(d, t, run[..n]), run[n]);
    }
  }

  /** A row seen through the columns `cs`. */
  function View(r: Row, cs: set<string>): Row {
    map c | c in r && c in cs :: r[c]
  }

  ghost function Views(t: set<Row>, cs: set<string>): set<Row> {
    set r | r in t :: View(r, cs)
  }

  /** What either statement does to the table seen through `cs`. */
  ghost function ReplaceView(d: Schema, views: set<Row>, cs: set<string>, i: Insert): set<Row>
    requires d.Valid() && i.Fits(d)
    requires forall v :: v in views ==> forall c :: c in d.key ==> c in v
  {
    (set v | v in views && !SameKey(d, v, Proposed(d, i))) + {View(Proposed(d, i), cs)}
  }

  ghost predicate Lists(d: Schema, cs: set<string>, i: Insert) {
    (forall c :: c in d.key ==> c in cs) && (forall c :: c in cs ==> c in i.columns)
  }

  lemma ViewKeepsKey(d: Schema, r: Row, cs: set<string>, p: Row)
    requires d.Valid() && r.Keys == d.columns && p.Keys == d.columns
    requires forall c :: c in d.key ==> c in cs
    ensures forall c :: c in d.key ==> c in View(r, cs)
    ensures SameKey(d, View(r, cs), p) <==> SameKey(d, r, p)
  {
    assert forall c :: c in d.key ==> View(r, cs)[c] == r[c];
  }

  lemma ReplaceSeen(d: Schema, t: set<Row>, cs: set<string>, i: Insert)
    requires d.Valid() && i.Fits(d) && RowsFit(d, t) && Lists(d, cs, i)
    ensures forall v :: v in Views(t, cs) ==> forall c :: c in d.key ==> c in v
    ensures Views(Replace(d, t, i), cs) == ReplaceView(d, Views(t, cs), cs, i)
  {
    var p := Proposed(d, i);
    forall r | r in t ensures SameKey(d, View(r, cs), p) <==> SameKey(d, r, p) {
      ViewKeepsKey(d, r, cs, p);
    }
    var u, v := Views(Replace(d, t, i), cs), ReplaceView(d, Views(t, cs), cs, i);
    forall x | x in u ensures x in v {
      var r :| r in Replace(d, t, i) && x == View(r, cs);
    }
    forall x | x in v ensures x in u {
      if x != View(p, cs) {
        var r :| r in t && x == View(r, cs);
        assert r in Replace(d, t, i);
      }
    }
  }

  lemma OverwrittenSeen(d: Schema, r: Row, cs: set<string>, i: Insert)
    requires d.Valid() && i.Fits(d) && r.Keys == d.columns && Lists(d, cs, i)
    requires SameKey(d, r, Proposed(d, i))
    ensures View(Overwritten(d, r, i), cs) == View(Proposed(d, i), cs)
  {
    UpdateColumnsAre(i.columns, d.key);
    var o, p := Overwritten(d, r, i), Proposed(d, i);
    forall c | c in d.columns && c in cs ensures o[c] == p[c] {
    }
  }

  /** A row after the statement, seen through listed columns. */
  lemma UpdatedSeen(d: Schema, r: Row, cs: set<string>, i: Insert)
    requires d.Valid() && i.Fits(d) && r.Keys == d.columns && Lists(d, cs, i)
    ensures forall c :: c in d.key ==> c in View(r, cs)
    ensures SameKey(d, View(r, cs), Proposed(d, i)) <==> SameKey(d, r, Proposed(d, i))
    ensures View(Updated(d, r, i), cs) == View(if SameKey(d, r, Proposed(d, i)) then Proposed(d, i) else r, cs)
  {
    ViewKeepsKey(d, r, cs, Proposed(d, i));
    if SameKey(d, r, Proposed(d, i)) {
      OverwrittenSeen(d, r, cs, i);
    }
  }

  lemma UpdateSeenInConflict(d: Schema, t: set<Row>, cs: set<string>, i: Insert)
    requires d.Valid() && i.Fits(d) && RowsFit(d, t) && Lists(d, cs, i) && Conflicts(d, t, i)
    ensures forall v :: v in Views(t, cs) ==> forall c :: c in d.key ==> c in v
    ensures Views(OnConflictUpdate(d, t, i), cs) == ReplaceView(d, Views(t, cs), cs, i)
  {
    var p := Proposed(d, i);
    forall r | r in t ensures forall c :: c in d.key ==> c in View(r, cs) {
      UpdatedSeen(d, r, cs, i);
    }
    var u, v := Views(OnConflictUpdate(d, t, i), cs), ReplaceView(d, Views(t, cs), cs, i);
    forall x | x in u ensures x in v {
      var o :| o in t && x == View(Updated(d, o, i), cs);
      UpdatedSeen(d, o, cs, i);
    }
    forall x | x in v ensures x in u {
      var o :| o in t && (if x == View(p, cs) then SameKey(d, o, p) else x == View(o, cs));
      UpdatedSeen(d, o, cs, i);
      assert Updated(d, o, i) in OnConflictUpdate(d, t, i);
    }
  }

  lemma UpdateSeen(d: Schema, t: set<Row>, cs: set<string>, i: Insert)
    requires d.Valid() && i.Fits(d) && RowsFit(d, t) && Lists(d, cs, i)
    ensures forall v :: v in Views(t, cs) ==> forall c :: c in d.key ==> c in v
    ensures Views(OnConflictUpdate(d, t, i), cs) == ReplaceView(d, Views(t, cs), cs, i)
  {
    if Conflicts(d, t, i) {
      UpdateSeenInConflict(d, t, cs, i);
    } else {
      ReplaceSeen(d, t, cs, i);
      assert OnConflictUpdate(d, t, i) == Replace(d, t, i);
    }
  }

  /** Over any sequence of statements that all list the columns `cs` (which hold the key), the two
      forms leave the same table as far as those columns show, from tables that agree on them. */
  lemma {:induction false} RunsAgreeOnListed(d: Schema, t: set<Row>, t': set<Row>, cs: set<string>, run: seq<Insert>)
    requires d.Valid() && AllFit(d, run) && RowsFit(d, t) && RowsFit(d, t')
    requires Views(t, cs) == Views(t', cs)
    requires forall k :: 0 <= k < |run| ==> Lists(d, cs, run[k])
    ensures Views(UpdateRun(d, t, run), cs) == Views(ReplaceRun(d, t', run), cs)
  {
    if run != [] {
      var n := |run| - 1;
      RunsAgreeOnListed(d, t, t', cs, run[..n]);
      UpdateSeen(d, UpdateRun(d, t, run[..n]), cs, run[n]);
      ReplaceSeen(d, ReplaceRun(d, t', run[..n]), cs, run[n]);
    }
  }

  lemma ViewsOfAll(d: Schema, t: set<Row>)
    requires RowsFit(d, t)
    ensures Views(t, d.columns) == t
  {
    forall r | r in t ensures View(r, d.columns) == r {
    }
    forall r | r in t ensures r in Views(t, d.columns) {
      assert View(r, d.columns) == r;
    }
  }

  /** Over any sequence of statements that list every column, the upsert is INSERT OR REPLACE. */
  lemma FullRunsAgree(d: Schema, t: set<Row>, run: seq<Insert>)
    requires d.Valid() && AllFit(d, run) && RowsFit(d, t)
    requires forall k :: 0 <= k < |run| ==> forall c :: c in d.columns ==> c in run[k].columns
    ensures UpdateRun(d, t, run) == ReplaceRun(d, t, run)
  {
    RunsAgreeOnListed(d, t, t, d.columns, run);
    ViewsOfAll(d, UpdateRun(d, t, run));
    ViewsOfAll(d, ReplaceRun(d, t, run));
  }
}

/** What the upsert written for INSERT OR REPLACE says, read from its text alone: its conflict target
    and its assignments, and what a database that follows them does. */
module UpsertText {
  import opened Text
  import opened SqlInsert
  import opened Upsert

  /** `column = source.from`. */
  datatype Assignment = Assignment(column: string, source: string, from: string)

  /** The text before the conflict clause, the conflict target, and the assignments. */
  datatype Reading = Reading(head: string, target: seq<string>, assignments: seq<Assignment>)

  // ---------------------------------------------------------------- the reader

  /** The text cut at the first `c`. */
  datatype Cut = Cut(before: string, after: string) | Whole

  function CutFirst(s: string, c: char): Cut {
    if s == [] then Whole
    else if s[0] == c then Cut([], s[1..])
    else
      match CutFirst(s[1..], c)
      case Whole => Whole
      case Cut(before, after) => Cut([s[0]] + before, after)
  }

  function WithoutStart(s: string, start: string): Option<string> {
    if |s| >= |start| && s[..|start|] == start then Some(s[|start|..]) else None
  }

  function WithoutEnd(s: string, end: string): Option<string> {
    if |s| >= |end| && s[|s| - |end|..] == end then Some(s[..|s| - |end|]) else None
  }

  /** Just after the last `c`; 0 if it is nowhere. */
  function AfterLast(s: string, c: char): (n: nat)
    ensures n <= |s|
  {
    if s == [] then 0 else if s[|s| - 1] == c then |s| else AfterLast(s[..|s| - 1], c)
  }

  function StripEach(parts: seq<string>): seq<string> {
    if parts == [] then [] else [Strip(parts[0])] + StripEach(parts[1..])
  }

  /** A list separated by commas. */
  function Listed(text: string): seq<string> {
    StripEach(SplitComma(text))
  }

  function ReadAssignment(text: string): Option<Assignment> {
    match CutFirst(text, '=')
    case Whole => None
    case Cut(column, rest) =>
      match CutFirst(rest, '.')
      case Whole => None
      case Cut(source, from) => Some(Assignment(Strip(column), Strip(source), Strip(from)))
  }

  function ReadAssignments(parts: seq<string>): Option<seq<Assignment>> {
    if parts == [] then Some([])
    else
      var first, rest := ReadAssignment(parts[0]), ReadAssignments(parts[1..]);
      if first.None? || rest.None? then None else Some([first.value] + rest.value)
  }

  const ON := " ON CONFLICT ("
  const SET := " DO UPDATE SET "

  /** The clause is the one that the last opening parenthesis belongs to. */
  function ReadUpsert(text: string): Option<Reading> {
    var open := AfterLast(text, '(');
    match WithoutEnd(text[..open], ON)
    case None => None
    case Some(head) => ReadClause(head, text[open..])
  }

  /** What follows that parenthesis. */
  function ReadClause(head: string, clause: string): Option<Reading> {
    match CutFirst(clause, ')')
    case Whole => None
    case Cut(target, rest) =>
      match WithoutStart(rest, SET)
      case None => None
      case Some(list) =>
        match ReadAssignments(Listed(list))
        case None => None
        case Some(assignments) => Some(Reading(head, Listed(target), assignments))
  }

  // ---------------------------------------------------------------- names

  /** A name that needs no quotes: no quote, comma, parenthesis, dot, equals sign or whitespace. */
  predicate PlainName(name: string) {
    name != [] && forall i :: 0 <= i < |name| ==> PlainChar(name[i])
  }

  predicate PlainChar(c: char) {
    !IsSpace(c) && c != '"' && c != '\'' && c != ',' && c != '(' && c != ')' && c != '.' && c != '='
  }

  predicate PlainNames(names: seq<string>) {
    forall i :: 0 <= i < |names| ==> PlainName(names[i])
  }

  // ---------------------------------------------------------------- lists

  lemma {:induction false} CutIs(a: string, c: char, b: string)
    requires c !in a
    ensures CutFirst(a + ([c] + b), c) == Cut(a, b)
  {
    var s := a + ([c] + b);
    if a == [] {
      assert s == [c] + b && s[1..] == b;
    } else {
      assert s[1..] == a[1..] + ([c] + b);
      CutIs(a[1..], c, b);
      assert [a[0]] + a[1..] == a;
    }
  }

  lemma WithoutIs(a: string, b: string)
    ensures WithoutStart(a + b, a) == Some(b) && WithoutEnd(a + b, b) == Some(a)
  {
    assert (a + b)[..|a|] == a && (a + b)[|a|..] == b;
  }

  lemma {:induction false} AfterLastIs(a: string, c: char, rest: string)
    requires a != [] && a[|a| - 1] == c && c !in rest
    ensures AfterLast(a + rest, c) == |a|
  {
    if rest == [] {
      assert a + rest == a;
    } else {
      assert (a + rest)[..|a + rest| - 1] == a + rest[..|rest| - 1];
      AfterLastIs(a, c, rest[..|rest| - 1]);
    }
  }

  lemma {:induction false} SplitAtComma(a: string, rest: string)
    requires ',' !in a
    ensures SplitComma(a + ("," + rest)) == [a] + SplitComma(rest)
    ensures SplitComma(a) == [a]
  {
    var s := a + ("," + rest);
    if a == [] {
      assert s == "," + rest && s[1..] == rest;
    } else {
      assert s[1..] == a[1..] + ("," + rest);
      SplitAtComma(a[1..], rest);
      assert [a[0]] + a[1..] == a;
    }
  }

  /** Parts that can stand in such a list. */
  predicate Listable(parts: seq<string>) {
    forall i :: 0 <= i < |parts| ==> ',' !in parts[i] && Stripped(parts[i])
  }

  /** Such a list reads as its parts. */
  lemma {:induction false} ListReads(pad: string, parts: seq<string>)
    requires parts != [] && Listable(parts) && AllSpace(pad)
    ensures Listed(pad + Join(", ", parts)) == parts
    decreases |parts|
  {
    PaddedPart(pad, parts[0]);
    var first := pad + parts[0];
    if |parts| == 1 {
      SplitAtComma(first, []);
      assert StripEach([first]) == parts;
    } else {
      ListReads(" ", parts[1..]);
      CommaList(first, parts[0], " " + Join(", ", parts[1..]), parts[1..]);
      JoinOfMore(pad, parts);
      assert parts == [parts[0]] + parts[1..];
    }
  }

  lemma JoinOfMore(pad: string, parts: seq<string>)
    requires |parts| > 1
    ensures pad + Join(", ", parts) == (pad + parts[0]) + ("," + (" " + Join(", ", parts[1..])))
  {
  }

  lemma PaddedPart(pad: string, part: string)
    requires AllSpace(pad) && ',' !in part && Stripped(part)
    ensures ',' !in pad + part && Strip(pad + part) == part
  {
    StripPadding(pad, part, []);
    assert part + [] == part;
    forall i | 0 <= i < |pad| ensures pad[i] != ',' {
    }
  }

  lemma CommaList(first: string, part: string, rest: string, parts: seq<string>)
    requires ',' !in first && Strip(first) == part && Listed(rest) == parts
    ensures Listed(first + ("," + rest)) == [part] + parts
  {
    SplitAtComma(first, rest);
    assert ([first] + SplitComma(rest))[1..] == SplitComma(rest);
  }

  lemma PlainIsListable(names: seq<string>)
    requires PlainNames(names)
    ensures Listable(names)
  {
  }

  // ---------------------------------------------------------------- assignments

  predicate Reads(text: string, column: string, source: string) {
    var r := ReadAssignment(text);
    r.Some? && r.value.column == column && r.value.source == source && r.value.from == column
  }

  function Written(column: string, source: string): string {
    column + " = " + source + "." + column
  }

  lemma WrittenParts(column: string, source: string)
    ensures Written(column, source) == (column + " ") + (['='] + ((" " + source) + (['.'] + column)))
  {
  }

  lemma NamePads(name: string)
    requires PlainName(name)
    ensures Strip(name) == name && Strip(name + " ") == name && Strip(" " + name) == name
  {
    StripIsIdentityIff(name);
    StripPadding([], name, " ");
    StripPadding(" ", name, []);
    assert [] + (name + " ") == name + " " && name + [] == name;
  }

  lemma AssignmentReads(column: string, source: string)
    requires PlainName(column) && PlainName(source)
    ensures Reads(Written(column, source), column, source)
  {
    WrittenParts(column, source);
    CutIs(column + " ", '=', (" " + source) + (['.'] + column));
    CutIs(" " + source, '.', column);
    NamePads(column);
    NamePads(source);
  }

  lemma WrittenIsListable(column: string, source: string)
    requires PlainName(column) && PlainName(source)
    ensures var text := Written(column, source); ',' !in text && '(' !in text && Stripped(text)
  {
    var text := Written(column, source);
    assert text[0] == column[0] && text[|text| - 1] == column[|column| - 1];
    forall i | 0 <= i < |text| ensures text[i] != ',' && text[i] != '(' {
      assert text == (column + " = ") + (source + ".") + column;
    }
  }

  predicate AllRead(texts: seq<string>, columns: seq<string>, source: string) {
    |texts| == |columns| && forall i :: 0 <= i < |texts| ==> Reads(texts[i], columns[i], source)
  }

  lemma {:induction false} AssignmentsRead(columns: seq<string>, source: string)
    requires PlainNames(columns) && PlainName(source)
    ensures var texts := Assignments(columns, source);
            AllRead(texts, columns, source) && Listable(texts) && Without('(', texts)
  {
    if columns != [] {
      assert PlainName(columns[0]);
      assert Assignments(columns, source)[0] == Written(columns[0], source);
      AssignmentReads(columns[0], source);
      WrittenIsListable(columns[0], source);
      AssignmentsRead(columns[1..], source);
    }
  }

  /** Each column is assigned from itself in `source`. */
  predicate AssignsFrom(assignments: seq<Assignment>, columns: seq<string>, source: string) {
    |assignments| == |columns| && forall i :: 0 <= i < |assignments| ==>
      assignments[i] == Assignment(columns[i], source, columns[i])
  }

  lemma {:induction false} EachReads(texts: seq<string>, columns: seq<string>, source: string)
    requires AllRead(texts, columns, source)
    ensures var r := ReadAssignments(texts); r.Some? && AssignsFrom(r.value, columns, source)
  {
    if texts != [] {
      EachReads(texts[1..], columns[1..], source);
      var first, rest := ReadAssignment(texts[0]).value, ReadAssignments(texts[1..]).value;
      assert Reads(texts[0], columns[0], source);
      assert ReadAssignments(texts).value == [first] + rest;
    }
  }

  predicate Without(c: char, parts: seq<string>) {
    forall i :: 0 <= i < |parts| ==> c !in parts[i]
  }

  lemma {:induction false} JoinWithout(c: char, parts: seq<string>)
    requires Without(c, parts) && c != ',' && c != ' '
    ensures c !in Join(", ", parts)
  {
    if |parts| > 1 {
      JoinWithout(c, parts[1..]);
    }
  }

  // ---------------------------------------------------------------- the statement

  predicate IsReading(r: Option<Reading>, head: string, target: seq<string>, columns: seq<string>, source: string) {
    r.Some? && r.value.head == head && r.value.target == target && AssignsFrom(r.value.assignments, columns, source)
  }

  lemma ClauseReads(head: string, target: seq<string>, texts: seq<string>, columns: seq<string>, source: string)
    requires target != [] && PlainNames(target) && texts != [] && AllRead(texts, columns, source) && Listable(texts)
    ensures IsReading(ReadClause(head, Join(", ", target) + ([')'] + (SET + Join(", ", texts)))),
                      head, target, columns, source)
  {
    var j, k := Join(", ", target), Join(", ", texts);
    forall i | 0 <= i < |target| ensures ')' !in target[i] {
    }
    JoinWithout(')', target);
    CutIs(j, ')', SET + k);
    WithoutIs(SET, k);
    PlainIsListable(target);
    ListReads([], target);
    ListReads([], texts);
    assert [] + j == j && [] + k == k;
    EachReads(texts, columns, source);
  }

  lemma HeadReads(head: string, clause: string)
    requires '(' !in clause
    ensures ReadUpsert((head + ON) + clause) == ReadClause(head, clause)
  {
    var text, open := (head + ON) + clause, |head + ON|;
    AfterLastIs(head + ON, '(', clause);
    assert text[..open] == head + ON && text[open..] == clause;
    WithoutIs(head, ON);
  }

  lemma ParenFree(target: seq<string>, texts: seq<string>)
    requires PlainNames(target) && Without('(', texts)
    ensures '(' !in Join(", ", target) + ([')'] + (SET + Join(", ", texts)))
  {
    forall i | 0 <= i < |target| ensures '(' !in target[i] {
    }
    JoinWithout('(', target);
    JoinWithout('(', texts);
  }

  /** What the assignments come to: every listed column outside the target takes the proposed value;
      if there is none, the target's own columns are set to themselves. */
  ghost predicate Overwrites(r: Reading, table: string, listed: seq<string>) {
    if exists c :: c in listed && c !in r.target then
      && (forall c :: (exists i :: 0 <= i < |r.assignments| && r.assignments[i].column == c) <==>
                      c in listed && c !in r.target)
      && (forall i :: 0 <= i < |r.assignments| ==>
            r.assignments[i].source == "EXCLUDED" && r.assignments[i].from == r.assignments[i].column)
    else AssignsFrom(r.assignments, r.target, table)
  }

  lemma ClauseTexts(table: string, listed: seq<string>, target: seq<string>, head: string)
    requires PlainName(table) && PlainNames(listed) && PlainNames(target) && target != []
    ensures var update := UpdateColumns(listed, target);
            IsReading(ReadUpsert(head + ConflictClause(table, listed, target)), head, target,
                      if update == [] then target else update, if update == [] then table else "EXCLUDED")
  {
    var update := UpdateColumns(listed, target);
    var columns, source := if update == [] then target else update, if update == [] then table else "EXCLUDED";
    UpdateIsPlain(listed, target);
    assert PlainName("EXCLUDED");
    AssignmentsRead(columns, source);
    var texts := Assignments(columns, source);
    var clause := Join(", ", target) + ([')'] + (SET + Join(", ", texts)));
    ParenFree(target, texts);
    ClauseReads(head, target, texts, columns, source);
    HeadReads(head, clause);
    ClauseParts(head, Join(", ", target), Join(", ", texts));
  }

  lemma ClauseParts(head: string, target: string, assignments: string)
    ensures (head + ON) + (target + ([')'] + (SET + assignments))) ==
            head + (" ON CONFLICT (" + target + ") DO UPDATE SET " + assignments)
  {
    assert ") DO UPDATE SET " == [')'] + SET;
  }

  lemma {:induction false} UpdateIsPlain(listed: seq<string>, target: seq<string>)
    requires PlainNames(listed)
    ensures PlainNames(UpdateColumns(listed, target))
  {
    if listed != [] {
      UpdateIsPlain(listed[1..], target);
    }
  }

  /** The upsert written for INSERT OR REPLACE, read from its text: after an INSERT of the original's
      columns and values into the table, the conflict target is the table's, in order; every listed
      column outside it takes the proposed value, and without such a column the row is set to itself. */
  lemma UpsertReads(sql: string, targets: map<string, seq<string>>, g: Groups)
    requires InsertOrReplace(sql, targets).Some? && MatchReplace(sql) == Some(g)
    requires PlainName(Unquote(g.table)) && PlainNames(targets[Unquote(g.table)])
    requires PlainNames(ColumnNames(g.body.columns))
    ensures var table := Unquote(g.table);
            IsUpsert(ReadUpsert(InsertOrReplace(sql, targets).value), table, targets[table], g.body)
  {
    var table, listed := Unquote(g.table), ColumnNames(g.body.columns);
    var target := targets[table];
    ClauseTexts(table, listed, target, Core(table, g.body));
    CoreText(table, g.body);
    WrittenUpsert(sql, targets, g);
    ReadOverwrites(ReadUpsert(Core(table, g.body) + ConflictClause(table, listed, target)).value, table, listed);
  }

  ghost predicate IsUpsert(r: Option<Reading>, table: string, target: seq<string>, body: Body) {
    && r.Some? && r.value.target == target
    && r.value.head == "INSERT INTO " + table + " (" + body.columns + ") VALUES (" + body.values + ")"
    && Overwrites(r.value, table, ColumnNames(body.columns))
  }

  lemma CoreText(table: string, b: Body)
    ensures Core(table, b) == "INSERT INTO " + table + " (" + b.columns + ") VALUES (" + b.values + ")"
  {
  }

  lemma WrittenUpsert(sql: string, targets: map<string, seq<string>>, g: Groups)
    requires InsertOrReplace(sql, targets).Some? && MatchReplace(sql) == Some(g)
    ensures var table := Unquote(g.table);
            && table in targets && targets[table] != []
            && InsertOrReplace(sql, targets).value ==
               Core(table, g.body) + ConflictClause(table, ColumnNames(g.body.columns), targets[table])
  {
    var table := Unquote(g.table);
    CoreThenClause(table, g.body, ConflictClause(table, ColumnNames(g.body.columns), targets[table]));
  }

  lemma ReadOverwrites(r: Reading, table: string, listed: seq<string>)
    requires var update := UpdateColumns(listed, r.target);
             AssignsFrom(r.assignments, if update == [] then r.target else update,
                         if update == [] then table else "EXCLUDED")
    ensures Overwrites(r, table, listed)
  {
    var update := UpdateColumns(listed, r.target);
    UpdateColumnsAre(listed, r.target);
    if update != [] {
      assert update[0] in update;
      forall c ensures (exists i :: 0 <= i < |r.assignments| && r.assignments[i].column == c) <==> c in update {
        if c in update {
          var i :| 0 <= i < |update| && update[i] == c;
          assert r.assignments[i].column == c;
        }
      }
    }
  }

  // ---------------------------------------------------------------- what the text means

  /** A row in conflict after the assignments: an assigned column has the value from where it is
      assigned, and no other changes. */
  predicate RowFollows(r: Reading, table: string, row: Row, proposed: Row, after: Row) {
    && after.Keys == row.Keys
    && (forall c :: c in after && (forall i :: 0 <= i < |r.assignments| ==> r.assignments[i].column != c) ==>
          after[c] == row[c])
    && (forall i :: 0 <= i < |r.assignments| && r.assignments[i].column in after ==>
          AssignmentFollows(r.assignments[i], table, row, proposed, after))
  }

  predicate AssignmentFollows(a: Assignment, table: string, row: Row, proposed: Row, after: Row)
    requires a.column in after
  {
    && (a.source == "EXCLUDED" ==> a.from in proposed && after[a.column] == proposed[a.from])
    && (a.source != "EXCLUDED" ==> a.source == table && a.from in row && after[a.column] == row[a.from])
  }

  predicate SameOn(columns: seq<string>, row: Row, row': Row) {
    forall c :: c in columns ==> c in row && c in row' && row[c] == row'[c]
  }

  /** The table after a statement that is read as `r`: a row that agrees with the proposed one on the
      conflict target follows the assignments, the others stay, and the proposed row comes if there
      was none. */
  ghost predicate TableFollows(r: Reading, table: string, t: set<Row>, proposed: Row, t': set<Row>) {
    if exists row :: row in t && SameOn(r.target, row, proposed) then
      forall after :: after in t' <==> exists row :: row in t && Becomes(r, table, row, proposed, after)
    else t' == t + {proposed}
  }

  predicate Becomes(r: Reading, table: string, row: Row, proposed: Row, after: Row) {
    if SameOn(r.target, row, proposed) then RowFollows(r, table, row, proposed, after) else after == row
  }

  lemma RowsFollow(d: Schema, r: Reading, table: string, row: Row, i: Insert)
    requires d.Valid() && i.Fits(d) && row.Keys == d.columns && SameKey(d, row, Proposed(d, i))
    requires r.target == d.key && Overwrites(r, table, i.columns) && table != "EXCLUDED"
    ensures RowFollows(r, table, row, Proposed(d, i), Overwritten(d, row, i))
  {
    UpdateColumnsAre(i.columns, d.key);
  }

  lemma OneFollows(r: Reading, table: string, row: Row, proposed: Row, after: Row, after': Row)
    requires Becomes(r, table, row, proposed, after) && Becomes(r, table, row, proposed, after')
    ensures after == after'
  {
    if SameOn(r.target, row, proposed) {
      forall c | c in row ensures after[c] == after'[c] {
        if exists i :: 0 <= i < |r.assignments| && r.assignments[i].column == c {
          var i :| 0 <= i < |r.assignments| && r.assignments[i].column == c;
          assert AssignmentFollows(r.assignments[i], table, row, proposed, after);
          assert AssignmentFollows(r.assignments[i], table, row, proposed, after');
        }
      }
    }
  }

  /** A statement whose text says so does to a table what the model of the upsert does. */
  lemma TextIsUpsert(d: Schema, r: Reading, table: string, t: set<Row>, i: Insert)
    requires d.Valid() && i.Fits(d) && RowsFit(d, t)
    requires r.target == d.key && Overwrites(r, table, i.columns) && table != "EXCLUDED"
    ensures TableFollows(r, table, t, Proposed(d, i), OnConflictUpdate(d, t, i))
  {
    var p, t' := Proposed(d, i), OnConflictUpdate(d, t, i);
    forall row | row in t ensures SameOn(r.target, row, p) <==> SameKey(d, row, p) {
    }
    if Conflicts(d, t, i) {
      forall row | row in t ensures Becomes(r, table, row, p, Updated(d, row, i)) {
        if SameKey(d, row, p) {
          RowsFollow(d, r, table, row, i);
        }
      }
      forall after ensures after in t' <==> exists row :: row in t && Becomes(r, table, row, p, after) {
        if exists row :: row in t && Becomes(r, table, row, p, after) {
          var row :| row in t && Becomes(r, table, row, p, after);
          OneFollows(r, table, row, p, after, Updated(d, row, i));
        }
      }
    }
  }
}

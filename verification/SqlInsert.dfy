/** The INSERT rewrites of hg_gateway/db_postgres.py as text: what they match, what they write,
    and that the placeholders of the statement stay the same ones in the same order. */
module SqlInsert {
  import opened Text
  import opened SqlPlaceholders

  // ---------------------------------------------------------------- placeholders of a text

  /** The placeholders among the tokens. */
  function Slots(ts: seq<Token>): seq<Token> {
    if ts == [] then [] else (if ts[0].Lit? then [] else [ts[0]]) + Slots(ts[1..])
  }

  lemma {:induction false} SlotsConcat(ts: seq<Token>, us: seq<Token>)
    ensures Slots(ts + us) == Slots(ts) + Slots(us)
  {
    if ts == [] {
      assert ts + us == us;
    } else {
      assert (ts + us)[1..] == ts[1..] + us;
      SlotsConcat(ts[1..], us);
      Assoc(if ts[0].Lit? then [] else [ts[0]], Slots(ts[1..]), Slots(us));
    }
  }

  lemma {:induction false} LitsHaveNoSlots(w: string)
    ensures Slots(Lits(w)) == []
  {
    if w != [] {
      LitsHaveNoSlots(w[1..]);
    }
  }

  /** Text that may stand next to anything: inert, and not continuing a key. */
  predicate Neutral(w: string) {
    w != [] && Inert(w) && !IsKeyPart(w[0])
  }

  /** Neutral text closes what the reader is in, and adds no placeholder. */
  lemma ReadNeutral(m: Mode, w: string)
    requires Neutral(w)
    ensures Run(m, w) == Plain(m.Quoting(), false)
    ensures Slots(Outs(m, w)) == Slots(m.Owed())
  {
    var c, rest := w[0], w[1..];
    assert IsInert(c);
    ReadInert(m.Quoting(), rest);
    LitsHaveNoSlots(rest);
    SlotsConcat(m.Owed(), [Lit(c)]);
    SlotsConcat(Out(m, c), Outs(Next(m, c), rest));
  }

  /** The placeholders read from mode `m`. */
  function SlotsFrom(m: Mode, s: string): seq<Token> {
    Slots(TokensFrom(m, s))
  }

  lemma SlotsSplit(m: Mode, x: string, y: string)
    ensures SlotsFrom(m, x + y) == Slots(Outs(m, x)) + SlotsFrom(Run(m, x), y)
  {
    TokensConcat(m, x, y);
    SlotsConcat(Outs(m, x), TokensFrom(Run(m, x), y));
  }

  /** Two neutral texts are interchangeable wherever they stand. */
  lemma NeutralSwap(m: Mode, w: string, w': string, rest: string)
    requires Neutral(w) && Neutral(w')
    ensures SlotsFrom(m, w + rest) == SlotsFrom(m, w' + rest)
  {
    SlotsSplit(m, w, rest);
    SlotsSplit(m, w', rest);
    ReadNeutral(m, w);
    ReadNeutral(m, w');
  }

  /** At the end of a text, neutral text adds no placeholder. */
  lemma NeutralEnd(m: Mode, w: string)
    requires Neutral(w)
    ensures SlotsFrom(m, w) == SlotsFrom(m, [])
  {
    TokensAreOuts(m, w);
    ReadNeutral(m, w);
    assert Outs(m, w) + [] == Outs(m, w);
  }

  /** At the start of a text, inert text is skipped. */
  lemma InertStart(w: string, rest: string)
    requires Inert(w)
    ensures SlotsFrom(Start, w + rest) == SlotsFrom(Start, rest)
  {
    SlotsSplit(Start, w, rest);
    ReadInert(Outside, w);
    LitsHaveNoSlots(w);
    assert [] + SlotsFrom(Start, rest) == SlotsFrom(Start, rest);
  }

  /** Equal placeholders after a common text. */
  lemma SameAfter(m: Mode, x: string, y: string, y': string)
    requires SlotsFrom(Run(m, x), y) == SlotsFrom(Run(m, x), y')
    ensures SlotsFrom(m, x + y) == SlotsFrom(m, x + y')
  {
    SlotsSplit(m, x, y);
    SlotsSplit(m, x, y');
  }

  // ---------------------------------------------------------------- keywords

  /** Simple case folding as `re.IGNORECASE` does it for letters. */
  function Fold(c: char): char {
    if 'a' <= c <= 'z' then (c as int - 'a' as int + 'A' as int) as char
    else if c == '\U{17F}' then 'S'
    else if c == '\U{131}' || c == '\U{130}' then 'I'
    else if c == '\U{212A}' then 'K'
    else c
  }

  /** `word` at the start of `s`, ignoring case. */
  predicate HasWord(word: string, s: string) {
    |word| <= |s| && forall i :: 0 <= i < |word| ==> Fold(s[i]) == word[i]
  }

  function Spaces(s: string): (n: nat)
    ensures n <= |s|
  {
    if s != [] && IsSpace(s[0]) then 1 + Spaces(s[1..]) else 0
  }

  /** Length of `word\s+` at the start of `s`. */
  function Keyword(word: string, s: string): (n: Option<nat>)
    ensures n.Some? ==> |word| < n.value <= |s|
  {
    if !HasWord(word, s) then None
    else
      var gap := Spaces(s[|word|..]);
      if gap == 0 then None else Some(|word| + gap)
  }

  /** Length of `word\s+` at the start of `s` for each word in turn. */
  function Keywords(words: seq<string>, s: string): (n: Option<nat>)
    ensures n.Some? ==> n.value <= |s|
  {
    if words == [] then Some(0)
    else
      var n := Keyword(words[0], s);
      if n.None? then None else Plus(n.value, Keywords(words[1..], s[n.value..]))
  }

  function Plus(n: nat, m: Option<nat>): Option<nat> {
    if m.None? then None else Some(n + m.value)
  }

  /** `\s*` followed by the keywords. */
  function Prefix(words: seq<string>, s: string): (n: Option<nat>)
    ensures n.Some? ==> n.value <= |s|
  {
    var k := Spaces(s);
    var rest := Keywords(words, s[k..]);
    if rest.None? then None else Some(k + rest.value)
  }

  predicate IsWord(word: string) {
    forall i :: 0 <= i < |word| ==> 'A' <= word[i] <= 'Z'
  }

  predicate AreWords(words: seq<string>) {
    forall i :: 0 <= i < |words| ==> IsWord(words[i])
  }

  const IgnoreWords := ["INSERT", "OR", "IGNORE", "INTO"]
  const ReplaceWords := ["INSERT", "OR", "REPLACE", "INTO"]

  lemma WordLists()
    ensures AreWords(IgnoreWords) && AreWords(ReplaceWords)
  {
  }

  lemma {:induction false} SpacesAreInert(s: string)
    ensures Inert(s[..Spaces(s)])
    ensures forall i :: 0 <= i < Spaces(s) ==> IsSpace(s[i])
  {
    if s != [] && IsSpace(s[0]) {
      SpacesAreInert(s[1..]);
      var n := Spaces(s[1..]);
      assert s[..1 + n] == [s[0]] + s[1..][..n];
    }
  }

  lemma InertConcat(x: string, y: string)
    requires Inert(x) && Inert(y)
    ensures Inert(x + y)
  {
  }

  lemma WordIsInert(word: string, s: string)
    requires IsWord(word) && HasWord(word, s)
    ensures Inert(s[..|word|])
  {
    forall i | 0 <= i < |word| ensures IsInert(s[i]) {
      assert Fold(s[i]) == word[i];
    }
  }

  lemma {:induction false} KeywordsAreInert(words: seq<string>, s: string)
    requires AreWords(words)
    requires Keywords(words, s).Some?
    ensures Inert(s[..Keywords(words, s).value])
  {
    if words != [] {
      var k := Keyword(words[0], s).value;
      var n := Keywords(words[1..], s[k..]).value;
      KeywordIsInert(words[0], s);
      KeywordsAreInert(words[1..], s[k..]);
      InertConcat(s[..k], s[k..][..n]);
      assert s[..k + n] == s[..k] + s[k..][..n];
    }
  }

  lemma KeywordIsInert(word: string, s: string)
    requires IsWord(word) && Keyword(word, s).Some?
    ensures Inert(s[..Keyword(word, s).value])
  {
    var k, n := |word|, Keyword(word, s).value;
    WordIsInert(word, s);
    SpacesAreInert(s[k..]);
    InertConcat(s[..k], s[k..][..n - k]);
    assert s[..n] == s[..k] + s[k..][..n - k];
  }

  lemma PrefixIsInert(words: seq<string>, s: string)
    requires AreWords(words)
    requires Prefix(words, s).Some?
    ensures Inert(s[..Prefix(words, s).value])
  {
    var k := Spaces(s);
    var n := Keywords(words, s[k..]).value;
    SpacesAreInert(s);
    KeywordsAreInert(words, s[k..]);
    InertConcat(s[..k], s[k..][..n]);
    assert s[..k + n] == s[..k] + s[k..][..n];
  }

  // ---------------------------------------------------------------- INSERT OR IGNORE

  /** `_translate_insert_or_ignore`; a text that does not match keeps its start. */
  function InsertOrIgnore(sql: string): string {
    var n := Prefix(IgnoreWords, sql);
    (if n.Some? then "INSERT INTO " + sql[n.value..] else sql) + " ON CONFLICT DO NOTHING"
  }

  /** Inert starts and neutral ends do not matter. */
  lemma BodyHasTheSlots(head: string, head': string, body: string, tail: string)
    requires Inert(head) && Inert(head') && Neutral(tail)
    ensures SlotsFrom(Start, head + body) == SlotsFrom(Start, (head' + body) + tail)
  {
    InertStart(head, body);
    Assoc(head', body, tail);
    InertStart(head', body + tail);
    NeutralEnd(Run(Start, body), tail);
    SameAfter(Start, body, tail, []);
    assert body + [] == body;
  }

  lemma IgnoreTexts()
    ensures Neutral(" ON CONFLICT DO NOTHING") && Inert("INSERT INTO ")
  {
  }

  lemma WithoutHeadKeepsSlots(words: seq<string>, sql: string, head: string, tail: string)
    requires AreWords(words) && Inert(head) && Neutral(tail)
    ensures var n := Prefix(words, sql);
            SlotsFrom(Start, (if n.Some? then head + sql[n.value..] else sql) + tail) == SlotsFrom(Start, sql)
  {
    var n := Prefix(words, sql);
    if n.Some? {
      PrefixIsInert(words, sql);
      CutAt(sql, n.value);
      BodyHasTheSlots(sql[..n.value], head, sql[n.value..], tail);
    } else {
      assert [] + sql == sql;
      BodyHasTheSlots([], [], sql, tail);
    }
  }

  /** The rewritten INSERT OR IGNORE has the placeholders of the original, in order. */
  lemma IgnoreKeepsSlots(sql: string)
    ensures Slots(Tokens(InsertOrIgnore(sql))) == Slots(Tokens(sql))
  {
    WordLists();
    IgnoreTexts();
    WithoutHeadKeepsSlots(IgnoreWords, sql, "INSERT INTO ", " ON CONFLICT DO NOTHING");
  }

  // ---------------------------------------------------------------- INSERT OR REPLACE

  /** The columns, the text between them and the values, and the values. */
  datatype Body = Body(columns: string, mid: string, values: string) {
    function Text(): string {
      columns + (mid + (values + ")"))
    }
  }

  /** The groups of the INSERT OR REPLACE pattern, with the text between them. */
  datatype Groups = Groups(head: string, table: string, gap: string, body: Body) {
    function Text(): string {
      head + (table + (gap + body.Text()))
    }
  }

  /** A letter, digit, underscore or quote; ignoring case, four letters outside ASCII match as well. */
  predicate IsTableChar(c: char) {
    || IsKeyPart(c) || c == '"' || c == '\''
    || c == '\U{17F}' || c == '\U{130}' || c == '\U{131}' || c == '\U{212A}'
  }

  function TableRun(s: string): (n: nat)
    ensures n <= |s|
  {
    if s != [] && IsTableChar(s[0]) then 1 + TableRun(s[1..]) else 0
  }

  /** Length of `\s*\(` at the start of `s`. */
  function Gap(s: string): (n: Option<nat>)
    ensures n.Some? ==> n.value <= |s|
  {
    var k := Spaces(s);
    if k < |s| && s[k] == '(' then Some(k + 1) else None
  }

  /** Length of `\)\s*VALUES\s*\(` at the start of `s`. */
  function Mid(s: string): (n: Option<nat>)
    ensures n.Some? ==> n.value <= |s|
  {
    if s == [] || s[0] != ')' then None
    else
      var k := 1 + Spaces(s[1..]);
      if !HasWord("VALUES", s[k..]) then None
      else
        var n := Gap(s[k + 6..]);
        if n.None? then None else Some(k + 6 + n.value)
  }

  /** Where the columns end: the first closing parenthesis that `VALUES (` follows. */
  function ColumnsEnd(s: string): (n: nat)
    ensures n <= |s|
  {
    if s == [] || Mid(s).Some? then 0 else 1 + ColumnsEnd(s[1..])
  }

  function MatchBody(s: string): Option<Body> {
    var e := ColumnsEnd(s);
    var n := Mid(s[e..]);
    if n.None? then None
    else
      var rest := s[e..][n.value..];
      if rest != [] && rest[|rest| - 1] == ')'
      then Some(Body(s[..e], s[e..][..n.value], rest[..|rest| - 1]))
      else None
  }

  /** The match of the pattern, head excluded. */
  function MatchTable(head: string, s: string): Option<Groups> {
    var t := TableRun(s);
    var n := Gap(s[t..]);
    if t == 0 || n.None? then None
    else
      var body := MatchBody(s[t..][n.value..]);
      if body.None? then None else Some(Groups(head, s[..t], s[t..][..n.value], body.value))
  }

  /** The match of the INSERT OR REPLACE pattern against the stripped statement. */
  function MatchReplace(sql: string): Option<Groups> {
    MatchAfter(ReplaceWords, Strip(sql))
  }

  function MatchAfter(words: seq<string>, s: string): Option<Groups> {
    var h := Prefix(words, s);
    if h.None? then None else MatchTable(s[..h.value], s[h.value..])
  }

  /** Quotes at either end removed, as `strip("\"'")` does. */
  function Unquote(s: string): string
    decreases |s|
  {
    if s != [] && (s[0] == '"' || s[0] == '\'') then Unquote(s[1..])
    else if s != [] && (s[|s| - 1] == '"' || s[|s| - 1] == '\'') then Unquote(s[..|s| - 1])
    else s
  }

  function SplitComma(s: string): (r: seq<string>)
    ensures |r| >= 1
  {
    if s == [] then [[]]
    else if s[0] == ',' then [[]] + SplitComma(s[1..])
    else var r := SplitComma(s[1..]); [[s[0]] + r[0]] + r[1..]
  }

  function CleanNames(parts: seq<string>): seq<string> {
    if parts == [] then [] else [Unquote(Strip(parts[0]))] + CleanNames(parts[1..])
  }

  function ColumnNames(columns: string): seq<string> {
    CleanNames(SplitComma(columns))
  }

  /** The columns that the conflict clause overwrites. */
  function UpdateColumns(columns: seq<string>, conflict: seq<string>): seq<string> {
    if columns == [] then []
    else (if columns[0] in conflict then [] else [columns[0]]) + UpdateColumns(columns[1..], conflict)
  }

  function Assignments(columns: seq<string>, source: string): seq<string> {
    if columns == [] then [] else [columns[0] + " = " + source + "." + columns[0]] + Assignments(columns[1..], source)
  }

  /** What follows the values: the conflict clause for the table's conflict target. */
  function ConflictClause(table: string, columns: seq<string>, conflict: seq<string>): string {
    var update := UpdateColumns(columns, conflict);
    var assignments := if update == [] then Assignments(conflict, table) else Assignments(update, "EXCLUDED");
    " ON CONFLICT (" + Join(", ", conflict) + ") DO UPDATE SET " + Join(", ", assignments)
  }

  /** `_translate_insert_or_replace`; None where the source raises (no match, or no conflict
      target for the table). */
  function InsertOrReplace(sql: string, targets: map<string, seq<string>>): Option<string> {
    var m := MatchReplace(sql);
    if m.None? then None
    else
      var table := Unquote(m.value.table);
      if table !in targets || targets[table] == [] then None
      else Some("INSERT INTO " + (table + (" (" + (m.value.body.columns + (") VALUES (" + (m.value.body.values + (")" +
                ConflictClause(table, ColumnNames(m.value.body.columns), targets[table]))))))))
  }

  lemma {:induction false} JoinInert(sep: string, parts: seq<string>)
    requires Inert(sep) && forall i :: 0 <= i < |parts| ==> Inert(parts[i])
    ensures Inert(Join(sep, parts))
  {
    if |parts| > 1 {
      JoinInert(sep, parts[1..]);
      InertConcat(parts[0], sep);
      InertConcat(parts[0] + sep, Join(sep, parts[1..]));
    }
  }

  predicate AllInert(names: seq<string>) {
    forall i :: 0 <= i < |names| ==> Inert(names[i])
  }

  lemma {:induction false} AssignmentsInert(columns: seq<string>, source: string)
    requires AllInert(columns) && Inert(source)
    ensures AllInert(Assignments(columns, source))
  {
    if columns != [] {
      AssignmentsInert(columns[1..], source);
      assert Inert(" = ") && Inert(".");
      InertConcat(columns[0], " = ");
      InertConcat(columns[0] + " = ", source);
      InertConcat(columns[0] + " = " + source, ".");
      InertConcat(columns[0] + " = " + source + ".", columns[0]);
    }
  }

  lemma {:induction false} UpdateColumnsInert(columns: seq<string>, conflict: seq<string>)
    requires AllInert(columns)
    ensures AllInert(UpdateColumns(columns, conflict))
  {
    if columns != [] {
      UpdateColumnsInert(columns[1..], conflict);
    }
  }

  lemma ConflictClauseInert(table: string, columns: seq<string>, conflict: seq<string>)
    requires Inert(table) && AllInert(columns) && AllInert(conflict)
    ensures Inert(ConflictClause(table, columns, conflict))
  {
    UpdateColumnsInert(columns, conflict);
    assert Inert("EXCLUDED") && Inert(", ");
    AssignmentsInert(UpdateColumns(columns, conflict), "EXCLUDED");
    AssignmentsInert(conflict, table);
    JoinInert(", ", conflict);
    var update := UpdateColumns(columns, conflict);
    var assignments := if update == [] then Assignments(conflict, table) else Assignments(update, "EXCLUDED");
    JoinInert(", ", assignments);
    assert Inert(" ON CONFLICT (") && Inert(") DO UPDATE SET ");
    InertConcat(" ON CONFLICT (", Join(", ", conflict));
    InertConcat(" ON CONFLICT (" + Join(", ", conflict), ") DO UPDATE SET ");
    InertConcat(" ON CONFLICT (" + Join(", ", conflict) + ") DO UPDATE SET ", Join(", ", assignments));
  }

  lemma GapIsNeutral(s: string)
    requires Gap(s).Some?
    ensures Neutral(s[..Gap(s).value])
  {
    SpacesAreInert(s);
    var n := Spaces(s);
    assert s[..n + 1] == s[..n] + ['('];
  }

  lemma NeutralConcat(x: string, y: string)
    requires Neutral(x) && Inert(y)
    ensures Neutral(x + y)
  {
  }

  lemma MidIsNeutral(s: string)
    requires Mid(s).Some?
    ensures Neutral(s[..Mid(s).value])
  {
    var k := 1 + Spaces(s[1..]);
    SpacesAreInert(s[1..]);
    WordIsInert("VALUES", s[k..]);
    GapIsNeutral(s[k + 6..]);
    var n := Gap(s[k + 6..]).value;
    var x, y, z := s[1..][..k - 1], s[k..][..6], s[k + 6..][..n];
    NeutralConcat([')'], x);
    NeutralConcat([')'] + x, y);
    NeutralConcat([')'] + x + y, z);
    MidCut(s, k, n);
  }

  lemma MidCut(s: string, k: nat, n: nat)
    requires 1 <= k && k + 6 + n <= |s| && s[0] == ')'
    ensures s[..k + 6 + n] == [')'] + s[1..][..k - 1] + s[k..][..6] + s[k + 6..][..n]
  {
  }

  lemma CutAt(s: string, n: nat)
    requires n <= |s|
    ensures s == s[..n] + s[n..]
  {
  }

  lemma BodyIsTheText(s: string, b: Body)
    requires MatchBody(s) == Some(b)
    ensures b.Text() == s && Neutral(b.mid)
  {
    var r := s[ColumnsEnd(s)..];
    MidIsNeutral(r);
    CutAt(s, |b.columns|);
    MidIsTheText(r, Mid(r).value, b);
  }

  lemma MidIsTheText(r: string, n: nat, b: Body)
    requires n < |r| && r[|r| - 1] == ')' && b.mid == r[..n] && b.values == r[n..][..|r| - n - 1]
    ensures b.mid + (b.values + ")") == r
  {
    CutAt(r, n);
    CutAt(r[n..], |r| - n - 1);
    assert r[n..][|r| - n - 1..] == ")";
  }

  lemma TableIsTheText(head: string, s: string, g: Groups)
    requires MatchTable(head, s) == Some(g)
    ensures g.Text() == head + s && Neutral(g.gap) && Neutral(g.body.mid)
    ensures g.head == head && g.table == s[..TableRun(s)]
  {
    var t := TableRun(s);
    var r := s[t..];
    var n := Gap(r).value;
    GapIsNeutral(r);
    BodyIsTheText(r[n..], g.body);
    CutAt(r, n);
    CutAt(s, t);
  }

  predicate ReadsPlainly(table: string) {
    Run(Start, table) == Start && Slots(Outs(Start, table)) == []
  }

  lemma TableReadsPlainly(s: string)
    requires Scan(Outside, s[..TableRun(s)]) == Outside
    ensures ReadsPlainly(s[..TableRun(s)])
  {
    TableHasNoSlots(s, TableRun(s), Outside);
  }

  lemma MatchAt(s: string, h: nat, g: Groups)
    requires h <= |s| && MatchTable(s[..h], s[h..]) == Some(g)
    ensures g.Text() == s && g.head == s[..h] && Neutral(g.gap) && Neutral(g.body.mid)
    ensures Scan(Outside, g.table) == Outside ==> ReadsPlainly(g.table)
  {
    TableIsTheText(s[..h], s[h..], g);
    CutAt(s, h);
    if Scan(Outside, g.table) == Outside {
      TableReadsPlainly(s[h..]);
    }
  }

  lemma MatchAfterIsTheText(words: seq<string>, s: string, g: Groups)
    requires AreWords(words) && MatchAfter(words, s) == Some(g)
    ensures g.Text() == s
    ensures Inert(g.head) && Neutral(g.gap) && Neutral(g.body.mid)
    ensures Scan(Outside, g.table) == Outside ==> ReadsPlainly(g.table)
  {
    PrefixIsInert(words, s);
    MatchAt(s, Prefix(words, s).value, g);
  }

  /** The groups and the text between them make up the statement, and what stands between the
      groups is neutral. */
  lemma MatchIsTheStatement(sql: string, g: Groups)
    requires MatchReplace(sql) == Some(g)
    ensures g.Text() == Strip(sql)
    ensures Inert(g.head) && Neutral(g.gap) && Neutral(g.body.mid)
    ensures Scan(Outside, g.table) == Outside ==> ReadsPlainly(g.table)
  {
    WordLists();
    MatchAfterIsTheText(ReplaceWords, Strip(sql), g);
  }

  lemma {:induction false} TableHasNoSlots(s: string, n: nat, q: Quote)
    requires n <= TableRun(s)
    ensures Run(Plain(q, false), s[..n]) == Plain(Scan(q, s[..n]), false)
    ensures Slots(Outs(Plain(q, false), s[..n])) == []
    decreases n
  {
    if n > 0 {
      var rest := s[1..][..n - 1];
      assert s[..n] == [s[0]] + rest && s[..n][1..] == rest;
      TableHasNoSlots(s[1..], n - 1, Step(q, s[0]));
      assert Out(Plain(q, false), s[0]) == [Lit(s[0])] && Next(Plain(q, false), s[0]) == Plain(Step(q, s[0]), false);
      SlotsConcat([Lit(s[0])], Outs(Plain(Step(q, s[0]), false), rest));
    }
  }

  lemma BodyTexts()
    ensures Neutral(" (") && Neutral(") VALUES (") && Neutral(")")
  {
  }

  lemma ValuesKeepSlots(m: Mode, mid: string, values: string, end: string)
    requires Neutral(mid) && Neutral(end)
    ensures SlotsFrom(m, mid + (values + ")")) == SlotsFrom(m, ") VALUES (" + (values + end))
  {
    BodyTexts();
    NeutralSwap(m, mid, ") VALUES (", values + ")");
    var m' := Run(Run(m, ") VALUES ("), values);
    NeutralEnd(m', ")");
    NeutralEnd(m', end);
    SameAfter(Run(m, ") VALUES ("), values, ")", end);
    SameAfter(m, ") VALUES (", values + ")", values + end);
  }

  /** The two texts have the same placeholders from the table name on. */
  lemma BodyKeepsSlots(gap: string, b: Body, end: string)
    requires Neutral(gap) && Neutral(b.mid) && Neutral(end)
    ensures SlotsFrom(Start, gap + b.Text()) ==
            SlotsFrom(Start, " (" + (b.columns + (") VALUES (" + (b.values + end))))
  {
    BodyTexts();
    NeutralSwap(Start, gap, " (", b.Text());
    var m := Run(Start, " (");
    ValuesKeepSlots(Run(m, b.columns), b.mid, b.values, end);
    SameAfter(m, b.columns, b.mid + (b.values + ")"), ") VALUES (" + (b.values + end));
    SameAfter(Start, " (", b.Text(), b.columns + (") VALUES (" + (b.values + end)));
  }

  /** Nothing up to the end of the table name matters. */
  lemma HeadHasNoSlots(head: string, table: string, body: string)
    requires Inert(head) && ReadsPlainly(table)
    ensures SlotsFrom(Start, head + (table + body)) == SlotsFrom(Start, body)
  {
    InertStart(head, table + body);
    SlotsSplit(Start, table, body);
    assert [] + SlotsFrom(Start, body) == SlotsFrom(Start, body);
  }

  lemma InertReads(table: string)
    requires Inert(table)
    ensures ReadsPlainly(table)
  {
    ReadInert(Outside, table);
    LitsHaveNoSlots(table);
  }

  /** The names in a match that the rewritten statement repeats are plain, and the table name
      closes its quotes. */
  predicate PlainNames(g: Groups, targets: map<string, seq<string>>) {
    && Scan(Outside, g.table) == Outside
    && Inert(Unquote(g.table))
    && AllInert(ColumnNames(g.body.columns))
    && (Unquote(g.table) in targets ==> AllInert(targets[Unquote(g.table)]))
  }

  /** The upsert written for INSERT OR REPLACE has the placeholders of the original statement, in
      order. */
  lemma ReplaceKeepsSlots(sql: string, targets: map<string, seq<string>>)
    requires InsertOrReplace(sql, targets).Some? && PlainNames(MatchReplace(sql).value, targets)
    ensures Slots(Tokens(InsertOrReplace(sql, targets).value)) == Slots(Tokens(Strip(sql)))
  {
    var g := MatchReplace(sql).value;
    var table := Unquote(g.table);
    var clause := ConflictClause(table, ColumnNames(g.body.columns), targets[table]);
    ConflictClauseInert(table, ColumnNames(g.body.columns), targets[table]);
    BodyTexts();
    IgnoreTexts();
    NeutralConcat(")", clause);
    MatchIsTheStatement(sql, g);
    InertReads(table);
    HeadHasNoSlots(g.head, g.table, g.gap + g.body.Text());
    HeadHasNoSlots("INSERT INTO ", table, " (" + (g.body.columns + (") VALUES (" + (g.body.values + (")" + clause)))));
    BodyKeepsSlots(g.gap, g.body, ")" + clause);
  }

  // ---------------------------------------------------------------- when names are not plain

  lemma {:induction false} InertScan(q: Quote, w: string)
    requires Inert(w)
    ensures Scan(q, w) == q
    decreases |w|
  {
    if w != [] {
      InertScan(q, w[1..]);
    }
  }

  /** Inert text in front of a text, or between two, does not matter to the quote state. */
  lemma ScanSkips(q: Quote, w: string, rest: string)
    requires Inert(w)
    ensures Scan(q, w + rest) == Scan(q, rest)
  {
    QuotedConcat(q, w, rest);
    InertScan(q, w);
  }

  lemma ScanOfBody(start: string, columns: string, mid: string, values: string, end: string)
    requires Inert(start) && Inert(mid) && Inert(end)
    ensures Scan(Outside, start + (columns + (mid + (values + end)))) == Scan(Scan(Outside, columns), values)
  {
    var q := Scan(Outside, columns);
    ScanSkips(Outside, start, columns + (mid + (values + end)));
    QuotedConcat(Outside, columns, mid + (values + end));
    ScanSkips(q, mid, values + end);
    QuotedConcat(q, values, end);
    InertScan(Scan(q, values), end);
  }

  /** The rewritten statement up to its conflict clause. */
  function Core(table: string, b: Body): string {
    "INSERT INTO " + (table + (" (" + (b.columns + (") VALUES (" + (b.values + ")")))))
  }

  /** The core ends in the quote state of the statement, and has its placeholders. */
  lemma CoreIsTheStatement(sql: string, g: Groups, table: string)
    requires MatchReplace(sql) == Some(g) && Scan(Outside, g.table) == Outside && Inert(table)
    ensures Slots(Tokens(Core(table, g.body))) == Slots(Tokens(Strip(sql)))
    ensures Scan(Outside, Core(table, g.body)) == Scan(Outside, Strip(sql))
  {
    BodyTexts();
    IgnoreTexts();
    MatchIsTheStatement(sql, g);
    InertReads(table);
    var b := g.body;
    HeadHasNoSlots(g.head, g.table, g.gap + b.Text());
    HeadHasNoSlots("INSERT INTO ", table, " (" + (b.columns + (") VALUES (" + (b.values + ")"))));
    BodyKeepsSlots(g.gap, b, ")");
    ScanOfBody(g.gap, b.columns, b.mid, b.values, ")");
    ScanOfBody(" (", b.columns, ") VALUES (", b.values, ")");
    ScanSkips(Outside, g.head, g.table + (g.gap + b.Text()));
    QuotedConcat(Outside, g.table, g.gap + b.Text());
    ScanSkips(Outside, "INSERT INTO ", table + (" (" + (b.columns + (") VALUES (" + (b.values + ")")))));
    ScanSkips(Outside, table, " (" + (b.columns + (") VALUES (" + (b.values + ")"))));
  }

  /** Conflict targets as the source holds them: no quote, colon or question mark in any name. */
  predicate PlainTargets(targets: map<string, seq<string>>) {
    forall t | t in targets :: Inert(t) && AllInert(targets[t])
  }

  /** The placeholders of the conflict clause, read where the statement ends. */
  function ClauseSlotsAfter(sql: string, clause: string): seq<Token> {
    SlotsFrom(Plain(Scan(Outside, Strip(sql)), false), clause)
  }

  /** Whatever the columns and values hold: the upsert has the placeholders of the statement, in
      order, and then those of its conflict clause; just those of the statement if and only if the
      clause, read in the quote state that the statement ends in, has none. */
  lemma ReplaceKeepsSlotsIff(sql: string, targets: map<string, seq<string>>, g: Groups, clause: string)
    requires PlainTargets(targets) && InsertOrReplace(sql, targets).Some? && MatchReplace(sql) == Some(g)
    requires Scan(Outside, g.table) == Outside
    requires clause == ConflictClause(Unquote(g.table), ColumnNames(g.body.columns), targets[Unquote(g.table)])
    ensures Slots(Tokens(InsertOrReplace(sql, targets).value)) ==
            Slots(Tokens(Strip(sql))) + ClauseSlotsAfter(sql, clause)
    ensures Slots(Tokens(InsertOrReplace(sql, targets).value)) == Slots(Tokens(Strip(sql))) <==>
            ClauseSlotsAfter(sql, clause) == []
  {
    var table := Unquote(g.table);
    CoreIsTheStatement(sql, g, table);
    var core := Core(table, g.body);
    CoreThenClause(table, g.body, clause);
    EndsPlainly(table, g.body);
    SlotsSplit(Start, core, clause);
    TokensAreOuts(Start, core);
    assert Outs(Start, core) + [] == Outs(Start, core);
  }

  lemma CoreThenClause(table: string, b: Body, clause: string)
    ensures Core(table, b) + clause ==
            "INSERT INTO " + (table + (" (" + (b.columns + (") VALUES (" + (b.values + (")" + clause))))))
  {
    Assoc("INSERT INTO ", table + (" (" + (b.columns + (") VALUES (" + (b.values + ")")))), clause);
    Assoc(table, " (" + (b.columns + (") VALUES (" + (b.values + ")"))), clause);
    Assoc(" (", b.columns + (") VALUES (" + (b.values + ")")), clause);
    Assoc(b.columns, ") VALUES (" + (b.values + ")"), clause);
    Assoc(") VALUES (", b.values + ")", clause);
    Assoc(b.values, ")", clause);
  }

  /** After its last parenthesis the core leaves the reader in plain text. */
  lemma EndsPlainly(table: string, b: Body)
    ensures Run(Start, Core(table, b)) == Plain(Scan(Outside, Core(table, b)), false)
  {
    var before := "INSERT INTO " + (table + (" (" + (b.columns + (") VALUES (" + b.values))));
    assert Core(table, b) == before + ")" by {
      CoreSnoc(table, b);
    }
    BodyTexts();
    RunConcat(Start, before, ")");
    ReadNeutral(Run(Start, before), ")");
    RunQuoting(Start, before);
    QuotedConcat(Outside, before, ")");
    InertScan(Scan(Outside, before), ")");
  }

  lemma CoreSnoc(table: string, b: Body)
    ensures Core(table, b) == "INSERT INTO " + (table + (" (" + (b.columns + (") VALUES (" + b.values)))) + ")"
  {
    Assoc("INSERT INTO ", table + (" (" + (b.columns + (") VALUES (" + b.values))), ")");
    Assoc(table, " (" + (b.columns + (") VALUES (" + b.values)), ")");
    Assoc(" (", b.columns + (") VALUES (" + b.values), ")");
    Assoc(b.columns, ") VALUES (" + b.values, ")");
    Assoc(") VALUES (", b.values, ")");
  }

  // ---------------------------------------------------------------- the names that matter

  /** A name that closes its quotes, before neutral text: its placeholders come first. */
  lemma NameThen(name: string, w: string, rest: string)
    requires Scan(Outside, name) == Outside && Neutral(w)
    ensures SlotsFrom(Start, name + (w + rest)) == Slots(Tokens(name)) + SlotsFrom(Start, rest)
  {
    var m := Run(Start, name);
    RunQuoting(Start, name);
    SlotsSplit(Start, name, w + rest);
    SlotsSplit(m, w, rest);
    ReadNeutral(m, w);
    TokensAreOuts(Start, name);
    SlotsConcat(Outs(Start, name), m.Owed());
    Assoc(Slots(Outs(Start, name)), Slots(m.Owed()), SlotsFrom(Start, rest));
  }

  /** The placeholders of the assignments of the columns: those of each name, twice. */
  function NameSlots(names: seq<string>): seq<Token> {
    if names == [] then [] else Slots(Tokens(names[0])) + (Slots(Tokens(names[0])) + NameSlots(names[1..]))
  }

  predicate Closed(names: seq<string>) {
    forall i :: 0 <= i < |names| ==> Scan(Outside, names[i]) == Outside
  }

  lemma AssignmentText(name: string, rest: string)
    ensures name + " = " + "EXCLUDED" + "." + name + rest == name + (" = EXCLUDED." + (name + rest))
  {
    assert " = EXCLUDED." == " = " + "EXCLUDED" + ".";
  }

  lemma {:induction false} AssignmentSlots(names: seq<string>)
    requires Closed(names)
    ensures SlotsFrom(Start, Join(", ", Assignments(names, "EXCLUDED"))) == NameSlots(names)
  {
    if names != [] {
      var name := names[0];
      var more := Assignments(names[1..], "EXCLUDED");
      AssignmentSlots(names[1..]);
      assert Neutral(" = EXCLUDED.") && Neutral(", ");
      if |names| == 1 {
        AssignmentText(name, []);
        var rest := Join(", ", Assignments(names, "EXCLUDED"));
        assert name + [] == name && rest + [] == rest;
        NameThen(name, " = EXCLUDED.", name);
      } else {
        var rest := ", " + Join(", ", more);
        AssignmentText(name, rest);
        JoinFirst(name + " = " + "EXCLUDED" + "." + name, more, Assignments(names, "EXCLUDED"));
        NameThen(name, " = EXCLUDED.", name + rest);
        NameThen(name, ", ", Join(", ", more));
      }
    }
  }

  lemma JoinFirst(first: string, more: seq<string>, all: seq<string>)
    requires more != [] && all == [first] + more
    ensures Join(", ", all) == first + (", " + Join(", ", more))
  {
    assert all[1..] == more;
  }

  lemma {:induction false} NameSlotsIff(names: seq<string>)
    ensures NameSlots(names) == [] <==> forall i :: 0 <= i < |names| ==> Slots(Tokens(names[i])) == []
  {
    if names != [] {
      NameSlotsIff(names[1..]);
      assert (forall i :: 0 <= i < |names| ==> Slots(Tokens(names[i])) == []) <==>
             Slots(Tokens(names[0])) == [] && forall i :: 0 <= i < |names[1..]| ==> Slots(Tokens(names[1..][i])) == [];
    }
  }

  lemma ClauseSlots(table: string, columns: seq<string>, conflict: seq<string>)
    requires Inert(table) && AllInert(conflict) && Closed(UpdateColumns(columns, conflict))
    ensures Slots(Tokens(ConflictClause(table, columns, conflict))) == NameSlots(UpdateColumns(columns, conflict))
  {
    var update := UpdateColumns(columns, conflict);
    var head := " ON CONFLICT (" + Join(", ", conflict) + ") DO UPDATE SET ";
    assert Inert(", ") && Inert(" ON CONFLICT (") && Inert(") DO UPDATE SET ");
    JoinInert(", ", conflict);
    InertConcat(" ON CONFLICT (", Join(", ", conflict));
    InertConcat(" ON CONFLICT (" + Join(", ", conflict), ") DO UPDATE SET ");
    if update == [] {
      AssignmentsInert(conflict, table);
      JoinInert(", ", Assignments(conflict, table));
      InertStart(head, Join(", ", Assignments(conflict, table)));
      InertReads(Join(", ", Assignments(conflict, table)));
      TokensAreOuts(Start, Join(", ", Assignments(conflict, table)));
      var outs := Outs(Start, Join(", ", Assignments(conflict, table)));
      assert outs + [] == outs;
    } else {
      InertStart(head, Join(", ", Assignments(update, "EXCLUDED")));
      AssignmentSlots(update);
    }
  }

  /** In terms of the names, for a statement that closes its quotes: the placeholders stay the same if
      and only if no column that is assigned has one in its name, once the quotes at its ends are
      gone. */
  lemma ReplaceKeepsSlotsIffNames(sql: string, targets: map<string, seq<string>>, g: Groups, update: seq<string>)
    requires PlainTargets(targets) && InsertOrReplace(sql, targets).Some? && MatchReplace(sql) == Some(g)
    requires Scan(Outside, Strip(sql)) == Outside == Scan(Outside, g.table)
    requires update == UpdateColumns(ColumnNames(g.body.columns), targets[Unquote(g.table)]) && Closed(update)
    ensures Slots(Tokens(InsertOrReplace(sql, targets).value)) == Slots(Tokens(Strip(sql))) + NameSlots(update)
    ensures Slots(Tokens(InsertOrReplace(sql, targets).value)) == Slots(Tokens(Strip(sql))) <==>
            forall i :: 0 <= i < |update| ==> Slots(Tokens(update[i])) == []
  {
    var table := Unquote(g.table);
    ReplaceKeepsSlotsIff(sql, targets, g, ConflictClause(table, ColumnNames(g.body.columns), targets[table]));
    ClauseSlots(table, ColumnNames(g.body.columns), targets[table]);
    NameSlotsIff(update);
  }
}

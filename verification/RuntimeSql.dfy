/** What becomes of a statement on its way to the driver: stripped, rewritten if it is an INSERT of
    SQLite's kind, and translated. */
module RuntimeSql {
  import opened Text
  import opened SqlPlaceholders
  import opened SqlInsert

  /** `s.rstrip(";")`. */
  function StripSemicolons(s: string): string {
    if s != [] && s[|s| - 1] == ';' then StripSemicolons(s[..|s| - 1]) else s
  }

  function Trimmed(sql: string): string {
    StripSemicolons(Strip(sql))
  }

  predicate IsReplace(sql: string) {
    Prefix(IgnoreWords, Trimmed(sql)).None? && Prefix(ReplaceWords, Trimmed(sql)).Some?
  }

  /** The statement after the INSERT rewrites; None where they raise. */
  function Rewritten(sql: string, targets: map<string, seq<string>>): Option<string> {
    if Prefix(IgnoreWords, Trimmed(sql)).Some? then Some(InsertOrIgnore(Trimmed(sql)))
    else if IsReplace(sql) then InsertOrReplace(Trimmed(sql), targets)
    else Some(Trimmed(sql))
  }

  /** `_translate_runtime_sql`, for a statement that the rewrites to fixed texts leave alone. */
  function Runtime(sql: string, targets: map<string, seq<string>>): Option<string> {
    var r := Rewritten(sql, targets);
    if r.None? then None else Some(Translate(r.value))
  }

  /** A last character that is no part of a placeholder. */
  lemma TailChar(s: string, c: char)
    requires !IsKeyPart(c) && c != '?' && c != ':'
    ensures SlotsFrom(Start, s + [c]) == SlotsFrom(Start, s)
  {
    var m := Run(Start, s);
    SlotsSplit(Start, s, [c]);
    SlotsSplit(Start, s, []);
    assert s + [] == s && [c][1..] == [];
    assert TokensFrom(m, [c]) == m.Owed() + [Lit(c)];
    SlotsConcat(m.Owed(), [Lit(c)]);
    assert Slots(m.Owed()) + [] == Slots(m.Owed());
  }

  lemma {:induction false} SemicolonsKeepSlots(s: string)
    ensures Slots(Tokens(StripSemicolons(s))) == Slots(Tokens(s))
  {
    if s != [] && s[|s| - 1] == ';' {
      var n := |s| - 1;
      SemicolonsKeepSlots(s[..n]);
      assert s == s[..n] + [s[n]];
      TailChar(s[..n], ';');
    }
  }

  lemma {:induction false} StripRightKeepsSlots(s: string)
    ensures Slots(Tokens(StripRight(s))) == Slots(Tokens(s))
  {
    if s != [] && IsSpace(s[|s| - 1]) {
      var n := |s| - 1;
      StripRightKeepsSlots(s[..n]);
      assert s == s[..n] + [s[n]];
      TailChar(s[..n], s[n]);
    }
  }

  lemma {:induction false} StripLeftKeepsSlots(s: string)
    ensures Slots(Tokens(StripLeft(s))) == Slots(Tokens(s))
  {
    if s != [] && IsSpace(s[0]) {
      StripLeftKeepsSlots(s[1..]);
      assert s == [s[0]] + s[1..];
      InertStart([s[0]], s[1..]);
    }
  }

  lemma StripKeepsSlots(s: string)
    ensures Slots(Tokens(Strip(s))) == Slots(Tokens(s))
  {
    StripLeftKeepsSlots(s);
    StripRightKeepsSlots(StripLeft(s));
  }

  lemma TrimmedKeepsSlots(sql: string)
    ensures Slots(Tokens(Trimmed(sql))) == Slots(Tokens(sql))
  {
    StripKeepsSlots(sql);
    SemicolonsKeepSlots(Strip(sql));
  }

  /** The conflict clause of a statement that is rewritten as INSERT OR REPLACE. */
  function Clause(sql: string, targets: map<string, seq<string>>): string
    requires InsertOrReplace(Trimmed(sql), targets).Some?
  {
    var g := MatchReplace(Trimmed(sql)).value;
    ConflictClause(Unquote(g.table), ColumnNames(g.body.columns), targets[Unquote(g.table)])
  }

  /** The table name of such a statement closes its quotes. */
  predicate TableCloses(sql: string, targets: map<string, seq<string>>)
    requires InsertOrReplace(Trimmed(sql), targets).Some?
  {
    Scan(Outside, MatchReplace(Trimmed(sql)).value.table) == Outside
  }

  lemma RewrittenSlots(sql: string, targets: map<string, seq<string>>, out: string)
    requires PlainTargets(targets) && Rewritten(sql, targets) == Some(out)
    requires IsReplace(sql) ==> TableCloses(sql, targets)
    ensures Slots(Tokens(out)) ==
            Slots(Tokens(sql)) + if IsReplace(sql) then ClauseSlotsAfter(Trimmed(sql), Clause(sql, targets)) else []
  {
    var t := Trimmed(sql);
    TrimmedKeepsSlots(sql);
    if Prefix(IgnoreWords, t).Some? {
      IgnoreKeepsSlots(t);
    } else if IsReplace(sql) {
      StripKeepsSlots(t);
      ReplaceKeepsSlotsIff(t, targets, MatchReplace(t).value, Clause(sql, targets));
    }
  }

  /** From end to end: the driver reads the statement it is given as the rewritten one if and only if
      that has no percent sign; and what it then sees as placeholders are exactly those of the
      statement that the caller wrote, in order, if and only if the statement is no INSERT OR
      REPLACE or its conflict clause brings in none. */
  lemma DriverSeesParametersIff(sql: string, targets: map<string, seq<string>>, out: string)
    requires PlainTargets(targets) && Rewritten(sql, targets) == Some(out)
    requires IsReplace(sql) ==> TableCloses(sql, targets)
    ensures ReadPyformat(Runtime(sql, targets).value) == Some(Tokens(out)) <==> '%' !in out
    ensures Slots(Tokens(out)) == Slots(Tokens(sql)) <==>
            (IsReplace(sql) ==> ClauseSlotsAfter(Trimmed(sql), Clause(sql, targets)) == [])
  {
    DriverReadsSourceIff(out);
    RewrittenSlots(sql, targets, out);
    assert Slots(Tokens(sql)) + [] == Slots(Tokens(sql));
    if IsReplace(sql) && ClauseSlotsAfter(Trimmed(sql), Clause(sql, targets)) != [] {
      assert |Slots(Tokens(out))| > |Slots(Tokens(sql))|;
    }
  }

  // ---------------------------------------------------------------- quotes in comments

  /** Where the SQL standard's lexer stands: in code, perhaps after a dash or slash that may start a
      comment, in quotes, or in a comment. */
  datatype Lexer = Code | Dash | Slash | InSingle | InDouble | InLine | InBlock(star: bool) {
    predicate Comment() {
      InLine? || InBlock?
    }
    function Quoting(): Quote {
      if InSingle? then Single else if InDouble? then Double else Outside
    }
  }

  function Lex1(l: Lexer, c: char): Lexer {
    match l
    case InSingle => if c == '\'' then Code else l
    case InDouble => if c == '"' then Code else l
    case InLine => if c == '\n' then Code else l
    case InBlock(star) => if star && c == '/' then Code else InBlock(c == '*')
    case _ =>
      if l.Dash? && c == '-' then InLine
      else if l.Slash? && c == '*' then InBlock(false)
      else if c == '\'' then InSingle
      else if c == '"' then InDouble
      else if c == '-' then Dash
      else if c == '/' then Slash
      else Code
  }

  function Lex(l: Lexer, s: string): Lexer
    decreases |s|
  {
    if s == [] then l else Lex(Lex1(l, s[0]), s[1..])
  }

  /** Some comment of the text holds a quote. */
  predicate QuoteInComment(l: Lexer, s: string)
    decreases |s|
  {
    s != [] && ((l.Comment() && (s[0] == '\'' || s[0] == '"')) || QuoteInComment(Lex1(l, s[0]), s[1..]))
  }

  /** After `k` characters both are in the same quotes. */
  predicate AgreeAt(l: Lexer, s: string, k: nat)
    requires k <= |s|
  {
    Lex(l, s[..k]).Quoting() == Scan(l.Quoting(), s[..k])
  }

  /** The scanners' own reading of quotes, which knows no comments, is the lexer's all through a text
      if and only if no comment of it holds a quote. */
  lemma {:induction false} ScannersLexIff(l: Lexer, s: string)
    ensures (forall k :: 0 <= k <= |s| ==> AgreeAt(l, s, k)) <==> !QuoteInComment(l, s)
    decreases |s|
  {
    if s == [] {
    } else {
      var l', q' := Lex1(l, s[0]), Step(l.Quoting(), s[0]);
      ScannersLexIff(l', s[1..]);
      if l.Comment() && (s[0] == '\'' || s[0] == '"') {
        LexFirst(l, s, 1);
        assert !AgreeAt(l, s, 1);
      } else {
        assert l'.Quoting() == q';
        forall k | 1 <= k <= |s| ensures AgreeAt(l, s, k) == AgreeAt(l', s[1..], k - 1) {
          LexFirst(l, s, k);
        }
        assert AgreeAt(l, s, 0);
        forall k | 0 <= k <= |s[1..]| ensures AgreeAt(l', s[1..], k) == AgreeAt(l, s, k + 1) {
        }
      }
    }
  }

  lemma LexFirst(l: Lexer, s: string, k: nat)
    requires 1 <= k <= |s|
    ensures Lex(l, s[..k]) == Lex(Lex1(l, s[0]), s[1..][..k - 1])
    ensures Scan(l.Quoting(), s[..k]) == Scan(Step(l.Quoting(), s[0]), s[1..][..k - 1])
  {
    assert s[..k][1..] == s[1..][..k - 1];
  }
}

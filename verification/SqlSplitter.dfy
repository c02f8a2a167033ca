/** `_split_sql_statements`, and its commutation with `_translate_placeholders`. */
module SqlSplitter {
  import opened Text
  import opened SqlPlaceholders

  /** The raw segments of a script read from quote state `q`: the text between separators
      that stand outside quotes. There is always at least one. */
  function Segments(q: Quote, s: string): (r: seq<string>)
    ensures |r| >= 1
    decreases |s|
  {
    if s == [] then [[]]
    else if s[0] == ';' && q == Outside then [[]] + Segments(Outside, s[1..])
    else Glue([s[0]], Segments(Step(q, s[0]), s[1..]))
  }

  /** `w` put in front of the first segment. */
  function Glue(w: string, segments: seq<string>): seq<string>
    requires |segments| >= 1
  {
    [w + segments[0]] + segments[1..]
  }

  lemma GlueNil(segments: seq<string>)
    requires |segments| >= 1
    ensures Glue([], segments) == segments
  {
    assert [] + segments[0] == segments[0];
  }

  lemma GlueEmpty(w: string, segments: seq<string>)
    ensures Glue(w, [[]] + segments) == [w] + segments
  {
    assert w + [] == w;
    assert ([[]] + segments)[1..] == segments;
  }

  /** The statement in a segment, if there is one. */
  function Statement(segment: string): seq<string> {
    if Strip(segment) == [] then [] else [Strip(segment)]
  }

  /** Segments stripped, empty ones dropped. */
  function Statements(segments: seq<string>): seq<string> {
    if segments == [] then [] else Statement(segments[0]) + Statements(segments[1..])
  }

  function Split(script: string): seq<string> {
    Statements(Segments(Outside, script))
  }

  // ---------------------------------------------------------------- the splitter

  lemma {:induction false} StatementsConcat(xs: seq<string>, ys: seq<string>)
    ensures Statements(xs + ys) == Statements(xs) + Statements(ys)
  {
    if xs == [] {
      assert xs + ys == ys;
    } else {
      assert (xs + ys)[1..] == xs[1..] + ys;
      StatementsConcat(xs[1..], ys);
    }
  }

  lemma StatementsOne(segment: string)
    ensures Statements([segment]) == Statement(segment)
  {
  }

  /** The statements still to come, with `buff` already collected for the next one. */
  ghost function Pending(q: Quote, buff: string, s: string): seq<string> {
    Statements(Glue(buff, Segments(q, s)))
  }

  lemma PendingCons(q: Quote, buff: string, c: char, rest: string)
    ensures Pending(q, buff, [c] + rest) ==
            if c == ';' && q == Outside then Statements([buff]) + Pending(Outside, [], rest)
            else Pending(Step(q, c), buff + [c], rest)
  {
    assert ([c] + rest)[1..] == rest;
    if c == ';' && q == Outside {
      var later := Segments(Outside, rest);
      GlueEmpty(buff, later);
      GlueNil(later);
      StatementsConcat([buff], later);
    } else {
      var later := Segments(Step(q, c), rest);
      Assoc(buff, [c], later[0]);
    }
  }

  /** The splitter stands at `i` in quote state `q`. */
  ghost predicate Splitting(script: string, statements: seq<string>, q: Quote, buff: string, i: nat) {
    i <= |script| && Split(script) == statements + Pending(q, buff, script[i..])
  }

  lemma SplitNext(script: string, statements: seq<string>, q: Quote, buff: string, i: nat)
    requires i < |script| && Splitting(script, statements, q, buff, i)
    ensures if script[i] == ';' && q == Outside then Splitting(script, statements + Statement(buff), Outside, [], i + 1)
            else Splitting(script, statements, Step(q, script[i]), buff + [script[i]], i + 1)
  {
    var rest := script[i + 1..];
    assert script[i..] == [script[i]] + rest;
    PendingCons(q, buff, script[i], rest);
    StatementsOne(buff);
    Assoc(statements, Statement(buff), Pending(Outside, [], rest));
  }

  lemma SplitAll(script: string, statements: seq<string>, q: Quote, buff: string)
    requires Splitting(script, statements, q, buff, |script|)
    ensures Split(script) == statements + Statement(buff)
  {
    assert script[|script|..] == [];
    GlueEmpty(buff, []);
    assert [[]] + [] == Segments(q, []);
    StatementsOne(buff);
  }

  lemma SplitNone(script: string)
    ensures Splitting(script, [], Outside, [], 0)
  {
    GlueNil(Segments(Outside, script));
    assert script[0..] == script;
  }

  /** The splitter as the source runs it. */
  method SplitSqlStatements(script: string) returns (statements: seq<string>)
    ensures statements == Split(script)
  {
    statements := [];
    var buff := [];
    var inSingle, inDouble := false, false;
    SplitNone(script);
    for i := 0 to |script|
      invariant !(inSingle && inDouble)
      invariant Splitting(script, statements, QuoteOf(inSingle, inDouble), buff, i)
    {
      var c := script[i];
      SplitNext(script, statements, QuoteOf(inSingle, inDouble), buff, i);
      if c == '\'' && !inDouble {
        inSingle := !inSingle;
      } else if c == '"' && !inSingle {
        inDouble := !inDouble;
      }
      if c == ';' && !inSingle && !inDouble {
        var stmt := Strip(buff);
        if stmt != [] {
          statements := statements + [stmt];
        } else {
          assert statements + [] == statements;
        }
        buff := [];
      } else {
        buff := buff + [c];
      }
    }
    SplitAll(script, statements, QuoteOf(inSingle, inDouble), buff);
    var tail := Strip(buff);
    if tail != [] {
      statements := statements + [tail];
    } else {
      assert statements + [] == statements;
    }
  }

  // ---------------------------------------------------------------- splitting is lossless

  /** No separator of `w`, read from `q`, stands outside quotes. */
  predicate NoSeparator(q: Quote, w: string)
    decreases |w|
  {
    w == [] || (!(w[0] == ';' && q == Outside) && NoSeparator(Step(q, w[0]), w[1..]))
  }

  /** What it means to cut a script at its separators: no segment holds one, and every segment
      but the last ends outside quotes, where the next one starts. */
  predicate IsCut(q: Quote, segments: seq<string>)
    decreases |segments|
  {
    && segments != []
    && NoSeparator(q, segments[0])
    && (|segments| > 1 ==> Scan(q, segments[0]) == Outside && IsCut(Outside, segments[1..]))
  }

  lemma JoinGlue(c: char, segments: seq<string>)
    requires segments != []
    ensures Join(";", Glue([c], segments)) == [c] + Join(";", segments)
  {
    if |segments| > 1 {
      assert Glue([c], segments)[1..] == segments[1..];
    }
  }

  lemma CutGlue(q: Quote, c: char, segments: seq<string>)
    requires IsCut(Step(q, c), segments) && !(c == ';' && q == Outside)
    ensures IsCut(q, Glue([c], segments))
  {
    var w := [c] + segments[0];
    assert w[1..] == segments[0];
    assert Glue([c], segments)[1..] == segments[1..];
  }

  /** Splitting loses nothing and cuts exactly at the separators. */
  lemma {:induction false} SegmentsCut(q: Quote, s: string)
    ensures Join(";", Segments(q, s)) == s
    ensures IsCut(q, Segments(q, s))
    decreases |s|
  {
    if s == [] {
    } else if s[0] == ';' && q == Outside {
      SegmentsCut(Outside, s[1..]);
      var later := Segments(Outside, s[1..]);
      assert ([[]] + later)[1..] == later;
      assert s == ";" + s[1..];
    } else {
      SegmentsCut(Step(q, s[0]), s[1..]);
      JoinGlue(s[0], Segments(Step(q, s[0]), s[1..]));
      CutGlue(q, s[0], Segments(Step(q, s[0]), s[1..]));
    }
  }

  lemma {:induction false} SegmentsOfWord(q: Quote, w: string)
    requires NoSeparator(q, w)
    ensures Segments(q, w) == [w]
    decreases |w|
  {
    if w != [] {
      SegmentsOfWord(Step(q, w[0]), w[1..]);
      assert w == [w[0]] + w[1..];
    }
  }

  lemma {:induction false} SegmentsOfPrefix(q: Quote, w: string, s: string)
    requires NoSeparator(q, w)
    ensures Segments(q, w + s) == Glue(w, Segments(Scan(q, w), s))
    decreases |w|
  {
    if w == [] {
      assert w + s == s;
      GlueNil(Segments(q, s));
    } else {
      assert (w + s)[1..] == w[1..] + s;
      SegmentsOfPrefix(Step(q, w[0]), w[1..], s);
      var later := Segments(Scan(q, w), s);
      GlueGlue(w[0], w[1..], later);
      assert w == [w[0]] + w[1..];
    }
  }

  lemma GlueGlue(c: char, w: string, segments: seq<string>)
    requires |segments| >= 1
    ensures Glue([c], Glue(w, segments)) == Glue([c] + w, segments)
  {
    Assoc([c], w, segments[0]);
  }

  /** There is only one such cut: any list of segments that joins to the script and is cut at
      its separators is the one computed. */
  lemma {:induction false} SegmentsAreTheOnlyCut(q: Quote, segments: seq<string>)
    requires IsCut(q, segments)
    ensures Segments(q, Join(";", segments)) == segments
    decreases |segments|
  {
    if |segments| == 1 {
      SegmentsOfWord(q, segments[0]);
    } else {
      var rest := Join(";", segments[1..]);
      SegmentsAreTheOnlyCut(Outside, segments[1..]);
      assert Join(";", segments) == segments[0] + (";" + rest);
      SegmentsOfPrefix(q, segments[0], ";" + rest);
      assert (";" + rest)[1..] == rest;
      assert Segments(Outside, ";" + rest) == [[]] + segments[1..];
      GlueEmpty(segments[0], segments[1..]);
    }
  }

  lemma {:induction false} NoSeparatorConcat(q: Quote, x: string, y: string)
    ensures NoSeparator(q, x + y) <==> NoSeparator(q, x) && NoSeparator(Scan(q, x), y)
    decreases |x|
  {
    if x == [] {
      assert x + y == y;
    } else {
      assert (x + y)[1..] == x[1..] + y;
      NoSeparatorConcat(Step(q, x[0]), x[1..], y);
    }
  }

  lemma {:induction false} StripLeftKeepsCut(s: string)
    requires NoSeparator(Outside, s)
    ensures NoSeparator(Outside, StripLeft(s))
  {
    if s != [] && IsSpace(s[0]) {
      StripLeftKeepsCut(s[1..]);
    }
  }

  lemma {:induction false} StripRightKeepsCut(q: Quote, s: string)
    requires NoSeparator(q, s)
    ensures NoSeparator(q, StripRight(s))
    decreases |s|
  {
    if s != [] && IsSpace(s[|s| - 1]) {
      var front := s[..|s| - 1];
      assert s == front + [s[|s| - 1]];
      NoSeparatorConcat(q, front, [s[|s| - 1]]);
      StripRightKeepsCut(q, front);
    }
  }

  predicate IsStatement(w: string) {
    w != [] && Stripped(w) && NoSeparator(Outside, w)
  }

  lemma {:induction false} StatementsOfCut(segments: seq<string>)
    requires IsCut(Outside, segments)
    ensures forall i :: 0 <= i < |Statements(segments)| ==> IsStatement(Statements(segments)[i])
  {
    StripLeftKeepsCut(segments[0]);
    StripRightKeepsCut(Outside, StripLeft(segments[0]));
    StripIsStripped(segments[0]);
    if |segments| > 1 {
      StatementsOfCut(segments[1..]);
    } else {
      assert Statements(segments[1..]) == [];
    }
  }

  /** Every statement is non-empty, stripped and holds no separator outside quotes, and is
      itself a script of one statement. */
  lemma SplitGivesStatements(script: string, i: nat)
    requires i < |Split(script)|
    ensures IsStatement(Split(script)[i])
    ensures Split(Split(script)[i]) == [Split(script)[i]]
  {
    SegmentsCut(Outside, script);
    StatementsOfCut(Segments(Outside, script));
    var w := Split(script)[i];
    SegmentsOfWord(Outside, w);
    StatementsOne(w);
    StripIsIdentityIff(w);
  }

  // ---------------------------------------------------------------- commutation

  function TranslateAll(statements: seq<string>): seq<string> {
    if statements == [] then [] else [Translate(statements[0])] + TranslateAll(statements[1..])
  }

  /** Segments translated, the first one from mode `m`. */
  function TranslateSegments(m: Mode, segments: seq<string>): seq<string>
    requires |segments| >= 1
  {
    [Postgres(TokensFrom(m, segments[0]))] + TranslateAll(segments[1..])
  }

  /** Reading a character that is not a separator adds no separator to the output. */
  lemma OutHasNoSeparator(m: Mode, c: char)
    requires m.Ok() && !(c == ';' && m.Quoting() == Outside)
    ensures NoSeparator(m.Quoting(), Postgres(Out(m, c)))
  {
    if !m.Continues(c) {
      PostgresConcat(m.Owed(), PlainOut(m.Settled(), c));
      OwedHasNoSeparator(m);
      OwedIsUnquoted(m);
      NoSeparatorConcat(m.Quoting(), Postgres(m.Owed()), Postgres(PlainOut(m.Settled(), c)));
      PlainHasNoSeparator(m.Settled(), c);
    }
  }

  lemma PlainHasNoSeparator(p: Mode, c: char)
    requires p.Plain? && !(c == ';' && p.q == Outside)
    ensures NoSeparator(p.q, Postgres(PlainOut(p, c)))
  {
    if p.q == Outside && c == '?' {
      PostgresOne(Positional);
      InertHasNoSeparator("%s");
    } else {
      PostgresOne(Lit(c));
      assert [c][1..] == [];
    }
  }

  lemma OwedHasNoSeparator(m: Mode)
    requires m.Ok()
    ensures NoSeparator(m.Quoting(), Postgres(m.Owed()))
  {
    if m.Colon? {
      PostgresOne(Lit(':'));
    } else if m.Key? {
      PostgresOne(Named(m.key));
      NamedIsInert(m.key);
      InertHasNoSeparator(Named(m.key).Postgres());
    }
  }

  lemma {:induction false} InertHasNoSeparator(w: string)
    requires Inert(w)
    ensures NoSeparator(Outside, w)
  {
    if w != [] {
      assert IsInert(w[0]);
      InertHasNoSeparator(w[1..]);
    }
  }

  /** A separator closes whatever the reader is in the middle of. */
  lemma SeparatorOut(m: Mode)
    requires m.Ok() && m.Quoting() == Outside
    ensures Postgres(Out(m, ';')) == Postgres(m.Owed()) + ";" && Next(m, ';') == Start
  {
    PostgresConcat(m.Owed(), [Lit(';')]);
    PostgresOne(Lit(';'));
  }

  /** Cutting the translation of a script gives the translations of its segments. */
  lemma {:induction false} SegmentsTranslate(m: Mode, s: string)
    requires m.Ok()
    ensures Segments(m.Quoting(), Postgres(TokensFrom(m, s))) ==
            TranslateSegments(m, Segments(m.Quoting(), s))
    decreases |s|
  {
    if s == [] {
      OwedHasNoSeparator(m);
      SegmentsOfWord(m.Quoting(), Postgres(m.Owed()));
    } else {
      var c, rest := s[0], s[1..];
      SegmentsTranslate(Next(m, c), rest);
      PostgresConcat(Out(m, c), TokensFrom(Next(m, c), rest));
      if c == ';' && m.Quoting() == Outside {
        SeparatorOut(m);
        SeparatorTranslates(m, rest);
      } else {
        OtherTranslates(m, c, rest);
      }
    }
  }

  lemma OtherTranslates(m: Mode, c: char, rest: string)
    requires m.Ok() && !(c == ';' && m.Quoting() == Outside)
    requires Segments(Next(m, c).Quoting(), Postgres(TokensFrom(Next(m, c), rest))) ==
             TranslateSegments(Next(m, c), Segments(Next(m, c).Quoting(), rest))
    ensures Segments(m.Quoting(), Postgres(Out(m, c)) + Postgres(TokensFrom(Next(m, c), rest))) ==
            TranslateSegments(m, Glue([c], Segments(Step(m.Quoting(), c), rest)))
  {
    OutKeepsQuotes(m, c);
    OutHasNoSeparator(m, c);
    SegmentsOfPrefix(m.Quoting(), Postgres(Out(m, c)), Postgres(TokensFrom(Next(m, c), rest)));
    GlueTranslates(m, c, Segments(Next(m, c).Quoting(), rest));
  }

  lemma GlueTranslates(m: Mode, c: char, segments: seq<string>)
    requires |segments| >= 1
    ensures Glue(Postgres(Out(m, c)), TranslateSegments(Next(m, c), segments)) ==
            TranslateSegments(m, Glue([c], segments))
  {
    TokensOfCons(m, c, segments[0]);
    PostgresConcat(Out(m, c), TokensFrom(Next(m, c), segments[0]));
    assert Glue([c], segments)[1..] == segments[1..];
  }

  lemma SeparatorTranslates(m: Mode, rest: string)
    requires m.Ok() && m.Quoting() == Outside
    requires Segments(Outside, Postgres(TokensFrom(Start, rest))) == TranslateSegments(Start, Segments(Outside, rest))
    ensures Segments(Outside, Postgres(Out(m, ';')) + Translate(rest)) ==
            TranslateSegments(m, [[]] + Segments(Outside, rest))
  {
    var w, later := Postgres(m.Owed()), Translate(rest);
    SeparatorOut(m);
    OwedHasNoSeparator(m);
    OwedIsUnquoted(m);
    Assoc(w, ";", later);
    SegmentsOfPrefix(Outside, w, ";" + later);
    assert (";" + later)[1..] == later;
    var segments := Segments(Outside, rest);
    assert ([[]] + segments)[1..] == segments;
    assert TranslateAll(segments) == TranslateSegments(Start, segments);
    GlueEmpty(w, TranslateAll(segments));
  }

  /** Translation does not move the first non-space character of a segment. */
  lemma {:induction false} TranslationHead(m: Mode, s: string)
    requires m.Ok()
    requires m.Plain? ==> s != [] && !IsSpace(s[0])
    ensures var t := Postgres(TokensFrom(m, s)); t != [] && !IsSpace(t[0])
    decreases |s|
  {
    if s == [] {
      OwedHead(m);
    } else {
      var c, rest := s[0], s[1..];
      PostgresConcat(Out(m, c), TokensFrom(Next(m, c), rest));
      if m.Continues(c) {
        TranslationHead(Next(m, c), rest);
      } else {
        PostgresConcat(m.Owed(), PlainOut(m.Settled(), c));
        if !m.Plain? {
          OwedHead(m);
        } else if PlainOut(m, c) == [] {
          TranslationHead(Colon, rest);
        } else {
          PostgresOne(PlainOut(m, c)[0]);
        }
      }
    }
  }

  lemma OwedHead(m: Mode)
    requires !m.Plain?
    ensures var t := Postgres(m.Owed()); t != [] && !IsSpace(t[0])
  {
    PostgresOne(m.Owed()[0]);
  }

  lemma {:induction false} StripLeftTranslates(s: string)
    ensures StripLeft(Translate(s)) == Translate(StripLeft(s))
  {
    if s != [] {
      if IsSpace(s[0]) {
        StripLeftTranslates(s[1..]);
        assert Out(Start, s[0]) == [Lit(s[0])];
        PostgresConcat([Lit(s[0])], Tokens(s[1..]));
        PostgresOne(Lit(s[0]));
        assert Translate(s)[1..] == Translate(s[1..]);
      } else {
        TranslationHead(Start, s);
      }
    }
  }

  /** What the last character `c` of a text adds to its translation, from mode `m`. */
  function LastPart(m: Mode, c: char): string {
    Postgres(Out(m, c) + Next(m, c).Owed())
  }

  lemma TranslateAppend(s: string, c: char)
    ensures Run(Start, s).Ok()
    ensures Translate(s + [c]) == Postgres(Outs(Start, s)) + LastPart(Run(Start, s), c)
  {
    var m := Run(Start, s);
    RunQuoting(Start, s);
    TokensConcat(Start, s, [c]);
    TokensOfCons(m, c, []);
    assert [c] + [] == [c];
    PostgresConcat(Outs(Start, s), TokensFrom(m, [c]));
  }

  lemma SpacePart(m: Mode, c: char)
    requires IsSpace(c)
    ensures LastPart(m, c) == Postgres(m.Owed()) + [c]
  {
    assert Out(m, c) + Next(m, c).Owed() == m.Owed() + [Lit(c)];
    PostgresConcat(m.Owed(), [Lit(c)]);
    PostgresOne(Lit(c));
  }

  lemma SpaceAppended(s: string, c: char)
    requires IsSpace(c)
    ensures Translate(s + [c]) == Translate(s) + [c]
  {
    var m := Run(Start, s);
    TranslateAppend(s, c);
    SpacePart(m, c);
    TokensAreOuts(Start, s);
    PostgresConcat(Outs(Start, s), m.Owed());
    Assoc(Postgres(Outs(Start, s)), Postgres(m.Owed()), [c]);
  }

  predicate EndsVisibly(t: string) {
    t != [] && !IsSpace(t[|t| - 1])
  }

  lemma VisibleToken(ts: seq<Token>, t: Token)
    requires EndsVisibly(t.Postgres())
    ensures EndsVisibly(Postgres(ts + [t]))
  {
    PostgresConcat(ts, [t]);
    PostgresOne(t);
  }

  lemma VisiblePart(m: Mode, c: char)
    requires !IsSpace(c)
    ensures EndsVisibly(LastPart(m, c))
  {
    if Next(m, c).Plain? {
      var t := PlainOut(m.Settled(), c)[0];
      assert Out(m, c) + Next(m, c).Owed() == m.Owed() + [t];
      VisibleToken(m.Owed(), t);
    } else {
      VisibleToken(Out(m, c), Next(m, c).Owed()[0]);
    }
  }

  /** Translation does not move the last non-space character of a segment. */
  lemma TranslationLast(s: string, c: char)
    requires !IsSpace(c)
    ensures EndsVisibly(Translate(s + [c]))
  {
    TranslateAppend(s, c);
    VisiblePart(Run(Start, s), c);
  }

  lemma {:induction false} StripRightTranslates(s: string)
    ensures StripRight(Translate(s)) == Translate(StripRight(s))
  {
    if s != [] {
      var front, c := s[..|s| - 1], s[|s| - 1];
      assert s == front + [c];
      if IsSpace(c) {
        StripRightTranslates(front);
        SpaceAppended(front, c);
        assert Translate(s)[..|Translate(s)| - 1] == Translate(front);
      } else {
        TranslationLast(front, c);
      }
    }
  }

  lemma StripTranslates(s: string)
    ensures Strip(Translate(s)) == Translate(Strip(s))
    ensures Translate(Strip(s)) == [] <==> Strip(s) == []
  {
    StripLeftTranslates(s);
    StripRightTranslates(StripLeft(s));
    TokensAreTheText(Strip(s));
    RenderedLength(Tokens(Strip(s)));
  }

  lemma StatementTranslates(segment: string)
    ensures Statement(Translate(segment)) == TranslateAll(Statement(segment))
  {
    StripTranslates(segment);
  }

  lemma {:induction false} TranslateAllConcat(xs: seq<string>, ys: seq<string>)
    ensures TranslateAll(xs + ys) == TranslateAll(xs) + TranslateAll(ys)
  {
    if xs == [] {
      assert xs + ys == ys;
    } else {
      assert (xs + ys)[1..] == xs[1..] + ys;
      TranslateAllConcat(xs[1..], ys);
    }
  }

  lemma {:induction false} StatementsTranslate(segments: seq<string>)
    ensures Statements(TranslateAll(segments)) == TranslateAll(Statements(segments))
  {
    if segments != [] {
      StatementTranslates(segments[0]);
      StatementsTranslate(segments[1..]);
      StatementsConcat([Translate(segments[0])], TranslateAll(segments[1..]));
      StatementsOne(Translate(segments[0]));
      TranslateAllConcat(Statement(segments[0]), Statements(segments[1..]));
    }
  }

  /** Splitting a translated script and translating the statements of a split script are the same. */
  lemma SplitTranslateCommute(script: string)
    ensures Split(Translate(script)) == TranslateAll(Split(script))
  {
    SegmentsTranslate(Start, script);
    StatementsTranslate(Segments(Outside, script));
  }

  // ---------------------------------------------------------------- concatenated scripts

  lemma {:induction false} SegmentsConcat(q: Quote, s1: string, s2: string)
    requires Scan(q, s1) == Outside
    ensures Segments(q, s1 + ";" + s2) == Segments(q, s1) + Segments(Outside, s2)
    decreases |s1|
  {
    if s1 == [] {
      assert s1 + ";" + s2 == [';'] + s2;
      SegmentsOfCons(q, ';', s2);
    } else {
      var c, rest := s1[0], s1[1..];
      assert s1 == [c] + rest && s1 + ";" + s2 == [c] + (rest + ";" + s2);
      SegmentsOfCons(q, c, rest);
      SegmentsOfCons(q, c, rest + ";" + s2);
      SegmentsConcat(Step(q, c), rest, s2);
      ConsConcat(q, c, Segments(Step(q, c), rest), Segments(Outside, s2));
    }
  }

  /** The segments of a text that begins with `c`, given those of the rest. */
  function ConsSegments(q: Quote, c: char, segments: seq<string>): seq<string>
    requires |segments| >= 1
  {
    if c == ';' && q == Outside then [[]] + segments else Glue([c], segments)
  }

  lemma SegmentsOfCons(q: Quote, c: char, s: string)
    ensures Segments(q, [c] + s) == ConsSegments(q, c, Segments(Step(q, c), s))
  {
    assert ([c] + s)[1..] == s;
  }

  lemma ConsConcat(q: Quote, c: char, x: seq<string>, y: seq<string>)
    requires |x| >= 1
    ensures ConsSegments(q, c, x + y) == ConsSegments(q, c, x) + y
  {
  }

  /** The characters that splitting keeps whatever the statement boundaries: neither
      whitespace nor a separator outside quotes. */
  function Kept(q: Quote, s: string): string
    decreases |s|
  {
    if s == [] then []
    else (if IsSpace(s[0]) || (s[0] == ';' && q == Outside) then [] else [s[0]]) + Kept(Step(q, s[0]), s[1..])
  }

  function Dense(s: string): string {
    if s == [] then [] else (if IsSpace(s[0]) then [] else [s[0]]) + Dense(s[1..])
  }

  function DenseAll(statements: seq<string>): string {
    if statements == [] then [] else Dense(statements[0]) + DenseAll(statements[1..])
  }

  lemma {:induction false} DenseConcat(x: string, y: string)
    ensures Dense(x + y) == Dense(x) + Dense(y)
  {
    if x == [] {
      assert x + y == y;
    } else {
      assert (x + y)[1..] == x[1..] + y;
      DenseConcat(x[1..], y);
    }
  }

  lemma {:induction false} DenseStripRight(s: string)
    ensures Dense(StripRight(s)) == Dense(s)
  {
    if s != [] && IsSpace(s[|s| - 1]) {
      DenseStripRight(s[..|s| - 1]);
      DenseConcat(s[..|s| - 1], [s[|s| - 1]]);
      assert s == s[..|s| - 1] + [s[|s| - 1]];
    }
  }

  lemma {:induction false} DenseStripLeft(s: string)
    ensures Dense(StripLeft(s)) == Dense(s)
  {
    if s != [] && IsSpace(s[0]) {
      DenseStripLeft(s[1..]);
    }
  }

  lemma {:induction false} DenseStatements(segments: seq<string>)
    ensures DenseAll(Statements(segments)) == DenseAll(segments)
  {
    if segments != [] {
      DenseStripLeft(segments[0]);
      DenseStripRight(StripLeft(segments[0]));
      DenseStatements(segments[1..]);
      DenseAllConcat(Statement(segments[0]), Statements(segments[1..]));
    }
  }

  lemma {:induction false} SegmentsKeep(q: Quote, s: string)
    ensures DenseAll(Segments(q, s)) == Kept(q, s)
    decreases |s|
  {
    if s != [] {
      SegmentsKeep(Step(q, s[0]), s[1..]);
      var later := Segments(Step(q, s[0]), s[1..]);
      if s[0] == ';' && q == Outside {
        assert ([[]] + later)[1..] == later;
      } else {
        DenseConcat([s[0]], later[0]);
        Assoc(Dense([s[0]]), Dense(later[0]), DenseAll(later[1..]));
        assert [s[0]][1..] == [];
      }
    }
  }

  lemma {:induction false} DenseAllConcat(xs: seq<string>, ys: seq<string>)
    ensures DenseAll(xs + ys) == DenseAll(xs) + DenseAll(ys)
  {
    if xs == [] {
      assert xs + ys == ys;
    } else {
      assert (xs + ys)[1..] == xs[1..] + ys;
      DenseAllConcat(xs[1..], ys);
    }
  }

  lemma {:induction false} KeptConcat(q: Quote, x: string, y: string)
    ensures Kept(q, x + y) == Kept(q, x) + Kept(Scan(q, x), y)
    decreases |x|
  {
    if x == [] {
      assert x + y == y;
    } else {
      assert (x + y)[1..] == x[1..] + y;
      KeptConcat(Step(q, x[0]), x[1..], y);
    }
  }

  /** A separator stands in `s` before any quote character. */
  predicate SeparatorFirst(s: string) {
    s != [] && s[0] != '\'' && s[0] != '"' && (s[0] == ';' || SeparatorFirst(s[1..]))
  }

  lemma {:induction false} NoSeparatorFirst(s: string)
    ensures !SeparatorFirst(Kept(Outside, s))
  {
    if s != [] {
      var c, later := s[0], Kept(Step(Outside, s[0]), s[1..]);
      NoSeparatorFirst(s[1..]);
      if IsSpace(c) || c == ';' {
        assert Kept(Outside, s) == [] + later == later;
      } else {
        assert Kept(Outside, s) == [c] + later;
        assert ([c] + later)[1..] == later;
      }
    }
  }

  lemma SplitKeeps(s: string)
    ensures DenseAll(Split(s)) == Kept(Outside, s)
  {
    SegmentsKeep(Outside, s);
    DenseStatements(Segments(Outside, s));
  }

  /** A separator inside quotes survives, where one outside does not. */
  lemma KeptDiffers(q: Quote, s: string)
    requires q != Outside
    ensures Kept(q, ";" + s) != Kept(Outside, s)
  {
    assert (";" + s)[1..] == s;
    assert SeparatorFirst([';'] + Kept(q, s));
    NoSeparatorFirst(s);
  }

  lemma QuotedSeparatorShows(s1: string, s2: string)
    requires Scan(Outside, s1) != Outside
    ensures Split(s1 + ";" + s2) != Split(s1) + Split(s2)
  {
    var q := Scan(Outside, s1);
    SplitKeeps(s1 + ";" + s2);
    SplitKeeps(s1);
    SplitKeeps(s2);
    DenseAllConcat(Split(s1), Split(s2));
    Assoc(s1, ";", s2);
    KeptConcat(Outside, s1, ";" + s2);
    KeptDiffers(q, s2);
    DifferentTails(Kept(Outside, s1), Kept(q, ";" + s2), Kept(Outside, s2));
  }

  lemma DifferentTails(x: string, y: string, z: string)
    requires y != z
    ensures x + y != x + z
  {
    assert y == (x + y)[|x|..] && z == (x + z)[|x|..];
  }

  /** Two scripts joined by a separator split into the statements of the first and then those of
      the second, if and only if the first one ends outside quotes. */
  lemma SplitConcatIff(s1: string, s2: string)
    ensures Split(s1 + ";" + s2) == Split(s1) + Split(s2) <==> Scan(Outside, s1) == Outside
  {
    if Scan(Outside, s1) == Outside {
      SegmentsConcat(Outside, s1, s2);
      StatementsConcat(Segments(Outside, s1), Segments(Outside, s2));
    } else {
      QuotedSeparatorShows(s1, s2);
    }
  }
}

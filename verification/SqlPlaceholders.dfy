/** `_translate_placeholders`: SQLite placeholders to the driver's `%s` and `%(name)s`.

    The specification is a reader that takes one character at a time; the method below it is
    the scanner of the source, which looks one character back and skips ahead by index. */
module SqlPlaceholders {
  import opened Text

  /** State of the quote automaton that the scanners of hg_gateway/db_postgres.py share. */
  datatype Quote = Outside | Single | Double

  function Step(q: Quote, c: char): Quote {
    match q
    case Outside => if c == '\'' then Single else if c == '"' then Double else Outside
    case Single => if c == '\'' then Outside else Single
    case Double => if c == '"' then Outside else Double
  }

  /** The quote state after reading all of `s`. */
  function Scan(q: Quote, s: string): Quote
    decreases |s|
  {
    if s == [] then q else Scan(Step(q, s[0]), s[1..])
  }

  predicate IsKeyStart(c: char) {
    'A' <= c <= 'Z' || 'a' <= c <= 'z' || c == '_'
  }

  predicate IsKeyPart(c: char) {
    IsKeyStart(c) || '0' <= c <= '9'
  }

  predicate IsKey(w: string) {
    w != [] && IsKeyStart(w[0]) && forall i :: 0 <= i < |w| ==> IsKeyPart(w[i])
  }

  /** A piece of SQLite text: a character that stands for itself, `?`, or `:key`. */
  datatype Token = Lit(c: char) | Positional | Named(key: string) {
    function Sqlite(): string {
      match this
      case Lit(c) => [c]
      case Positional => "?"
      case Named(key) => ":" + key
    }
    function Postgres(): string {
      match this
      case Lit(c) => [c]
      case Positional => "%s"
      case Named(key) => "%(" + key + ")s"
    }
  }

  /** What the reader is in the middle of: plain text (`colon`: the last character was a colon),
      a colon that may start a placeholder, or a key. */
  datatype Mode = Plain(q: Quote, colon: bool) | Colon | Key(key: string) {
    predicate Ok() {
      Key? ==> IsKey(key)
    }
    function Quoting(): Quote {
      if Plain? then q else Outside
    }
    /** The token that the reader still owes. */
    function Owed(): seq<Token> {
      match this
      case Plain(_, _) => []
      case Colon => [Lit(':')]
      case Key(key) => [Named(key)]
    }
    /** The plain-text state that a character which cannot continue this mode is read in. */
    function Settled(): Mode {
      match this
      case Plain(_, _) => this
      case Colon => Plain(Outside, true)
      case Key(_) => Plain(Outside, false)
    }
    predicate Continues(c: char) {
      match this
      case Plain(_, _) => false
      case Colon => IsKeyStart(c)
      case Key(_) => IsKeyPart(c)
    }
  }

  const Start := Plain(Outside, false)

  function Next(m: Mode, c: char): Mode {
    if m.Continues(c) then Key(if m.Key? then m.key + [c] else [c])
    else
      var p := m.Settled();
      if p.q == Outside && c == ':' && !p.colon then Colon else Plain(Step(p.q, c), c == ':')
  }

  /** The tokens completed by reading `c` as plain text in state `p`. */
  function PlainOut(p: Mode, c: char): seq<Token>
    requires p.Plain?
  {
    if p.q == Outside && c == '?' then [Positional]
    else if p.q == Outside && c == ':' && !p.colon then []
    else [Lit(c)]
  }

  function Out(m: Mode, c: char): seq<Token> {
    if m.Continues(c) then [] else m.Owed() + PlainOut(m.Settled(), c)
  }

  function TokensFrom(m: Mode, s: string): seq<Token>
    decreases |s|
  {
    if s == [] then m.Owed() else Out(m, s[0]) + TokensFrom(Next(m, s[0]), s[1..])
  }

  function Tokens(sql: string): seq<Token> {
    TokensFrom(Start, sql)
  }

  function Sqlite(ts: seq<Token>): string {
    if ts == [] then [] else ts[0].Sqlite() + Sqlite(ts[1..])
  }

  function Postgres(ts: seq<Token>): string {
    if ts == [] then [] else ts[0].Postgres() + Postgres(ts[1..])
  }

  function Translate(sql: string): string {
    Postgres(Tokens(sql))
  }

  // ---------------------------------------------------------------- rendering

  lemma {:induction false} PostgresConcat(ts: seq<Token>, us: seq<Token>)
    ensures Postgres(ts + us) == Postgres(ts) + Postgres(us)
  {
    if ts == [] {
      assert ts + us == us;
    } else {
      assert (ts + us)[1..] == ts[1..] + us;
      PostgresConcat(ts[1..], us);
    }
  }

  lemma {:induction false} SqliteConcat(ts: seq<Token>, us: seq<Token>)
    ensures Sqlite(ts + us) == Sqlite(ts) + Sqlite(us)
  {
    if ts == [] {
      assert ts + us == us;
    } else {
      assert (ts + us)[1..] == ts[1..] + us;
      SqliteConcat(ts[1..], us);
    }
  }

  lemma SqliteOne(t: Token)
    ensures Sqlite([t]) == t.Sqlite()
  {
    assert [t][1..] == [];
  }

  /** Reading a character neither loses nor invents text. */
  lemma OutSpells(m: Mode, c: char)
    ensures Sqlite(m.Owed()) + [c] == Sqlite(Out(m, c)) + Sqlite(Next(m, c).Owed())
  {
    if m.Continues(c) {
      SqliteOne(Lit(':'));
      SqliteOne(Next(m, c).Owed()[0]);
      SqliteOne(m.Owed()[0]);
    } else {
      SqliteConcat(m.Owed(), PlainOut(m.Settled(), c));
      PlainSpells(m.Settled(), c);
      Assoc(Sqlite(m.Owed()), Sqlite(PlainOut(m.Settled(), c)), Sqlite(Next(m, c).Owed()));
    }
  }

  lemma PlainSpells(p: Mode, c: char)
    requires p.Plain?
    ensures Sqlite(PlainOut(p, c)) + Sqlite(Next(p, c).Owed()) == [c]
  {
    SqliteOne(Lit(c));
    SqliteOne(Positional);
  }

  lemma {:induction false} TokensSpell(m: Mode, s: string)
    ensures Sqlite(TokensFrom(m, s)) == Sqlite(m.Owed()) + s
    decreases |s|
  {
    if s != [] {
      TokensSpell(Next(m, s[0]), s[1..]);
      FirstSpells(m, s[0], s[1..]);
      assert s == [s[0]] + s[1..];
    }
  }

  lemma FirstSpells(m: Mode, c: char, rest: string)
    requires Sqlite(TokensFrom(Next(m, c), rest)) == Sqlite(Next(m, c).Owed()) + rest
    ensures Sqlite(TokensFrom(m, [c] + rest)) == Sqlite(m.Owed()) + ([c] + rest)
  {
    TokensOfCons(m, c, rest);
    SqliteConcat(Out(m, c), TokensFrom(Next(m, c), rest));
    OutSpells(m, c);
    Splice(Sqlite(m.Owed()), [c], Sqlite(Out(m, c)), Sqlite(Next(m, c).Owed()), rest);
  }

  /** Tokenising loses nothing. */
  lemma TokensAreTheText(sql: string)
    ensures Sqlite(Tokens(sql)) == sql
  {
    TokensSpell(Start, sql);
  }

  // ---------------------------------------------------------------- the scanner

  function PartRun(s: string): (n: nat)
    ensures n <= |s|
  {
    if s != [] && IsKeyPart(s[0]) then 1 + PartRun(s[1..]) else 0
  }

  /** Length of the longest prefix of `s` matching `[A-Za-z_][A-Za-z0-9_]*`, 0 if there is none. */
  function KeyLen(s: string): (n: nat)
    ensures n <= |s|
  {
    if s != [] && IsKeyStart(s[0]) then 1 + PartRun(s[1..]) else 0
  }

  /** A mode that the next character does not continue is closed first. */
  lemma SettledReads(m: Mode, s: string)
    requires s != [] ==> !m.Continues(s[0])
    ensures TokensFrom(m, s) == m.Owed() + TokensFrom(m.Settled(), s)
  {
    if s != [] {
      Assoc(m.Owed(), PlainOut(m.Settled(), s[0]), TokensFrom(Next(m, s[0]), s[1..]));
      assert Next(m.Settled(), s[0]) == Next(m, s[0]);
      assert Out(m.Settled(), s[0]) == PlainOut(m.Settled(), s[0]);
    }
  }

  lemma {:induction false} KeyReads(key: string, s: string)
    ensures TokensFrom(Key(key), s) ==
            [Named(key + s[..PartRun(s)])] + TokensFrom(Plain(Outside, false), s[PartRun(s)..])
    decreases |s|
  {
    if s != [] && IsKeyPart(s[0]) {
      PartContinues(key, s);
      KeyReads(key + [s[0]], s[1..]);
      KeyGrows(key, s, PartRun(s[1..]));
    } else {
      assert key + s[..0] == key && s[0..] == s;
      SettledReads(Key(key), s);
    }
  }

  lemma PartContinues(key: string, s: string)
    requires s != [] && IsKeyPart(s[0])
    ensures TokensFrom(Key(key), s) == TokensFrom(Key(key + [s[0]]), s[1..])
  {
    assert [] + TokensFrom(Key(key + [s[0]]), s[1..]) == TokensFrom(Key(key + [s[0]]), s[1..]);
  }

  lemma KeyGrows(key: string, s: string, n: nat)
    requires 1 + n <= |s|
    ensures (key + [s[0]]) + s[1..][..n] == key + s[..1 + n]
    ensures s[1..][n..] == s[1 + n..]
  {
  }

  /** What a colon that is not part of a cast turns out to be. */
  lemma ColonReads(s: string)
    ensures TokensFrom(Colon, s) ==
            if KeyLen(s) > 0 then [Named(s[..KeyLen(s)])] + TokensFrom(Plain(Outside, false), s[KeyLen(s)..])
            else [Lit(':')] + TokensFrom(Plain(Outside, true), s)
  {
    if KeyLen(s) > 0 {
      KeyReads([s[0]], s[1..]);
      var n := PartRun(s[1..]);
      KeyGrows([], s, n);
      assert [s[0]] + s[1..][..n] == [] + s[..1 + n] == s[..1 + n];
    } else {
      SettledReads(Colon, s);
    }
  }

  function QuoteOf(inSingle: bool, inDouble: bool): Quote {
    if inSingle then Single else if inDouble then Double else Outside
  }

  predicate ColonBefore(sql: string, idx: nat)
    requires idx <= |sql|
  {
    idx > 0 && sql[idx - 1] == ':'
  }

  /** The tokens still to come when the scanner stands at `idx`. */
  ghost function Todo(sql: string, idx: nat, q: Quote): seq<Token>
    requires idx <= |sql|
  {
    TokensFrom(Plain(q, ColonBefore(sql, idx)), sql[idx..])
  }

  /** The token the scanner finds when it stands at `c`, with `later` after it. */
  function Found(colon: bool, q: Quote, c: char, later: string): Token {
    var n := if colon then 0 else KeyLen(later);
    if q == Outside && c == '?' then Positional
    else if q == Outside && c == ':' && n > 0 then Named(later[..n])
    else Lit(c)
  }

  /** How many characters beyond its first one a token takes. */
  function Skip(t: Token): nat {
    if t.Named? then |t.key| else 0
  }

  /** How the reader takes the first character of `rest` in plain text. */
  lemma PlainReads(q: Quote, colon: bool, c: char, later: string, rest: string)
    requires rest == [c] + later
    ensures TokensFrom(Plain(q, colon), rest) ==
            if q == Outside && c == '?' then [Positional] + TokensFrom(Plain(q, false), later)
            else if q == Outside && c == ':' && !colon then TokensFrom(Colon, later)
            else [Lit(c)] + TokensFrom(Plain(Step(q, c), c == ':'), later)
  {
    assert rest[0] == c && rest[1..] == later;
    assert Out(Plain(q, colon), c) == PlainOut(Plain(q, colon), c);
  }

  lemma ScannerReads(colon: bool, q: Quote, c: char, later: string)
    ensures var t := Found(colon, q, c, later);
            && Skip(t) <= |later|
            && TokensFrom(Plain(q, colon), [c] + later) ==
               [t] + TokensFrom(Plain(Step(q, c), t.Lit? && c == ':'), later[Skip(t)..])
  {
    PlainReads(q, colon, c, later, [c] + later);
    ColonReads(later);
    assert later[0..] == later;
  }

  lemma {:induction false} PartRunIsParts(s: string)
    ensures forall i :: 0 <= i < PartRun(s) ==> IsKeyPart(s[i])
  {
    if s != [] && IsKeyPart(s[0]) {
      PartRunIsParts(s[1..]);
    }
  }

  lemma KeyLenIsKey(s: string)
    requires KeyLen(s) > 0
    ensures IsKey(s[..KeyLen(s)])
  {
    PartRunIsParts(s[1..]);
  }

  /** The last character of the token at `idx` is a colon only if the token is a colon. */
  lemma ColonAfter(sql: string, idx: nat, q: Quote, t: Token)
    requires idx < |sql| && t == Found(ColonBefore(sql, idx), q, sql[idx], sql[idx + 1..])
    ensures idx + 1 + Skip(t) <= |sql|
    ensures ColonBefore(sql, idx + 1 + Skip(t)) == (t.Lit? && sql[idx] == ':')
  {
    if t.Named? {
      var later := sql[idx + 1..];
      KeyLenIsKey(later);
      assert sql[idx + Skip(t)] == later[Skip(t) - 1] == t.key[Skip(t) - 1];
    }
  }

  /** One iteration: the token at `idx` comes first, and the rest follows from where it ends. */
  lemma ScannerStep(sql: string, idx: nat, q: Quote, t: Token)
    requires idx < |sql| && t == Found(ColonBefore(sql, idx), q, sql[idx], sql[idx + 1..])
    ensures idx + 1 + Skip(t) <= |sql|
    ensures Todo(sql, idx, q) == [t] + Todo(sql, idx + 1 + Skip(t), Step(q, sql[idx]))
  {
    ColonAfter(sql, idx, q, t);
    FirstAndRest(sql, idx, Skip(t));
    ScannerReads(ColonBefore(sql, idx), q, sql[idx], sql[idx + 1..]);
  }

  /** The translation of what is still to come. */
  ghost function Rest(sql: string, idx: nat, q: Quote): string
    requires idx <= |sql|
  {
    Postgres(Todo(sql, idx, q))
  }

  /** The scanner stands at `idx` in quote state `q`, with `out` written. */
  ghost predicate Scanned(sql: string, idx: nat, q: Quote, out: string) {
    idx <= |sql| && Translate(sql) == out + Rest(sql, idx, q)
  }

  lemma ScannedNext(sql: string, idx: nat, q: Quote, out: string, t: Token)
    requires Scanned(sql, idx, q, out) && idx < |sql|
    requires t == Found(ColonBefore(sql, idx), q, sql[idx], sql[idx + 1..])
    ensures Scanned(sql, idx + 1 + Skip(t), Step(q, sql[idx]), out + t.Postgres())
  {
    ScannerStep(sql, idx, q, t);
    var later := Todo(sql, idx + 1 + Skip(t), Step(q, sql[idx]));
    assert ([t] + later)[1..] == later;
    Assoc(out, t.Postgres(), Postgres(later));
  }

  lemma ScannedAll(sql: string, q: Quote, out: string)
    requires Scanned(sql, |sql|, q, out)
    ensures out == Translate(sql)
  {
    assert sql[|sql|..] == [] && Todo(sql, |sql|, q) == [];
    assert out + [] == out;
  }

  lemma ScannedNone(sql: string)
    ensures Scanned(sql, 0, Outside, [])
  {
    assert sql[0..] == sql;
  }

  /** One turn of the scanner: what it writes, how far it moves, and the flags after it. */
  method ScanOne(sql: string, idx: nat, inSingle: bool, inDouble: bool)
      returns (piece: string, n: nat, single: bool, double: bool)
    requires idx < |sql| && !(inSingle && inDouble)
    ensures var t := Found(ColonBefore(sql, idx), QuoteOf(inSingle, inDouble), sql[idx], sql[idx + 1..]);
            piece == t.Postgres() && n == 1 + Skip(t)
    ensures !(single && double) && QuoteOf(single, double) == Step(QuoteOf(inSingle, inDouble), sql[idx])
  {
    var c := sql[idx];
    piece, n, single, double := [c], 1, inSingle, inDouble;
    if c == '\'' && !inDouble {
      single := !inSingle;
    } else if c == '"' && !inSingle {
      double := !inDouble;
    } else if c == '?' && !inSingle && !inDouble {
      piece := "%s";
    } else if c == ':' && !inSingle && !inDouble {
      if !(idx > 0 && sql[idx - 1] == ':') {
        var len := KeyLen(sql[idx + 1..]);
        if len > 0 {
          piece := "%(" + sql[idx + 1..][..len] + ")s";
          n := 1 + len;
        }
      }
    }
  }

  /** The same turn, in place of the output so far. */
  method ScanInto(sql: string, idx: nat, inSingle: bool, inDouble: bool, out: string)
      returns (more: string, next: nat, single: bool, double: bool)
    requires idx < |sql| && !(inSingle && inDouble) && Scanned(sql, idx, QuoteOf(inSingle, inDouble), out)
    ensures !(single && double) && idx < next <= |sql| && Scanned(sql, next, QuoteOf(single, double), more)
  {
    ghost var q := QuoteOf(inSingle, inDouble);
    ScannedNext(sql, idx, q, out, Found(ColonBefore(sql, idx), q, sql[idx], sql[idx + 1..]));
    var piece, n;
    piece, n, single, double := ScanOne(sql, idx, inSingle, inDouble);
    more, next := out + piece, idx + n;
  }

  /** The scanner as the source runs it: an index, two flags and an output buffer. */
  method TranslatePlaceholders(sql: string) returns (out: string)
    ensures out == Translate(sql)
  {
    out := [];
    var inSingle, inDouble := false, false;
    var idx := 0;
    ScannedNone(sql);
    while idx < |sql|
      invariant !(inSingle && inDouble)
      invariant 0 <= idx <= |sql|
      invariant Scanned(sql, idx, QuoteOf(inSingle, inDouble), out)
    {
      out, idx, inSingle, inDouble := ScanInto(sql, idx, inSingle, inDouble, out);
    }
    ScannedAll(sql, QuoteOf(inSingle, inDouble), out);
  }

  // ---------------------------------------------------------------- composition

  /** The mode after reading all of `s`. */
  function Run(m: Mode, s: string): Mode
    decreases |s|
  {
    if s == [] then m else Run(Next(m, s[0]), s[1..])
  }

  /** The tokens completed while reading `s`. */
  function Outs(m: Mode, s: string): seq<Token>
    decreases |s|
  {
    if s == [] then [] else Out(m, s[0]) + Outs(Next(m, s[0]), s[1..])
  }

  /** Reading a concatenation is reading its parts one after the other. */
  lemma {:induction false} TokensConcat(m: Mode, x: string, y: string)
    ensures TokensFrom(m, x + y) == Outs(m, x) + TokensFrom(Run(m, x), y)
    decreases |x|
  {
    if x == [] {
      assert x + y == y;
    } else {
      var c, rest, m' := x[0], x[1..], Next(m, x[0]);
      assert x + y == [c] + (rest + y);
      TokensConcat(m', rest, y);
      TokensOfCons(m, c, rest + y);
      Assoc(Out(m, c), Outs(m', rest), TokensFrom(Run(m', rest), y));
    }
  }

  lemma TokensOfCons(m: Mode, c: char, rest: string)
    ensures TokensFrom(m, [c] + rest) == Out(m, c) + TokensFrom(Next(m, c), rest)
  {
    assert ([c] + rest)[1..] == rest;
  }

  lemma {:induction false} RunConcat(m: Mode, x: string, y: string)
    ensures Run(m, x + y) == Run(Run(m, x), y)
    ensures Outs(m, x + y) == Outs(m, x) + Outs(Run(m, x), y)
    decreases |x|
  {
    if x == [] {
      assert x + y == y;
    } else {
      assert (x + y)[1..] == x[1..] + y;
      RunConcat(Next(m, x[0]), x[1..], y);
      Assoc(Out(m, x[0]), Outs(Next(m, x[0]), x[1..]), Outs(Run(m, x), y));
    }
  }

  /** Everything read, and what is still owed. */
  lemma TokensAreOuts(m: Mode, s: string)
    ensures TokensFrom(m, s) == Outs(m, s) + Run(m, s).Owed()
  {
    TokensConcat(m, s, []);
    assert s + [] == s;
  }

  /** Text that no scanner treats specially, whatever the state. */
  predicate Inert(w: string) {
    forall i :: 0 <= i < |w| ==> IsInert(w[i])
  }

  predicate IsInert(c: char) {
    c != '\'' && c != '"' && c != '?' && c != ':' && c != ';'
  }

  function Lits(w: string): seq<Token> {
    if w == [] then [] else [Lit(w[0])] + Lits(w[1..])
  }

  /** Inert text is read literally. */
  lemma {:induction false} ReadInert(q: Quote, w: string)
    requires Inert(w)
    ensures Run(Plain(q, false), w) == Plain(q, false) && Outs(Plain(q, false), w) == Lits(w)
    decreases |w|
  {
    if w != [] {
      var c := w[0];
      assert IsInert(c);
      assert Next(Plain(q, false), c) == Plain(q, false) && Out(Plain(q, false), c) == [Lit(c)];
      ReadInert(q, w[1..]);
    }
  }

  /** The quote automaton sees through the reader. */
  lemma {:induction false} RunQuoting(m: Mode, s: string)
    requires m.Ok()
    ensures Run(m, s).Ok() && Run(m, s).Quoting() == Scan(m.Quoting(), s)
    decreases |s|
  {
    if s != [] {
      RunQuoting(Next(m, s[0]), s[1..]);
    }
  }

  /** Outside quotes, a `::` cast is two literal colons whatever stands around it. */
  lemma CastIsLiteral(x: string, y: string)
    requires Scan(Outside, x) == Outside
    ensures Tokens(x + "::" + y) == Tokens(x) + ([Lit(':'), Lit(':')] + TokensFrom(Plain(Outside, true), y))
  {
    var m := Run(Start, x);
    RunQuoting(Start, x);
    Assoc(x, "::", y);
    TokensConcat(Start, x, "::" + y);
    TokensAreOuts(Start, x);
    CastReads(m, y);
    Assoc(Outs(Start, x), m.Owed(), [Lit(':'), Lit(':')] + TokensFrom(Plain(Outside, true), y));
  }

  lemma CastReads(m: Mode, y: string)
    requires m.Quoting() == Outside
    ensures TokensFrom(m, "::" + y) == m.Owed() + ([Lit(':'), Lit(':')] + TokensFrom(Plain(Outside, true), y))
  {
    assert "::" + y == [':'] + ([':'] + y);
    TokensOfCons(m, ':', [':'] + y);
    TokensOfCons(Next(m, ':'), ':', y);
    TwoColons(m);
    Splice(Out(m, ':'), Out(Next(m, ':'), ':'), m.Owed(), [Lit(':'), Lit(':')], TokensFrom(Plain(Outside, true), y));
  }

  lemma TwoColons(m: Mode)
    requires m.Quoting() == Outside
    ensures Next(Next(m, ':'), ':') == Plain(Outside, true)
    ensures Out(m, ':') + Out(Next(m, ':'), ':') == m.Owed() + [Lit(':'), Lit(':')]
  {
  }

  // ---------------------------------------------------------------- what a placeholder is

  /** An identifier begins with an ASCII letter or underscore, and goes on with these and digits. */
  lemma KeyCharsIff(c: char)
    ensures IsKeyStart(c) <==> 65 <= c as int <= 90 || 97 <= c as int <= 122 || c as int == 95
    ensures IsKeyPart(c) <==> IsKeyStart(c) || 48 <= c as int <= 57
  {
  }

  /** One character after a text, and what follows it. */
  lemma NextReads(x: string, c: char, y: string)
    ensures var m := Run(Start, x);
            && m.Ok() && m.Quoting() == Scan(Outside, x)
            && Tokens(x + ([c] + y)) == Outs(Start, x) + (Out(m, c) + TokensFrom(Next(m, c), y))
            && Tokens(x) == Outs(Start, x) + m.Owed()
  {
    RunQuoting(Start, x);
    TokensConcat(Start, x, [c] + y);
    TokensOfCons(Run(Start, x), c, y);
    TokensAreOuts(Start, x);
  }

  /** A question mark outside quotes is a positional placeholder, whatever stands around it. */
  lemma QuestionIsPositional(x: string, y: string)
    requires Scan(Outside, x) == Outside
    ensures Tokens(x + ("?" + y)) == Tokens(x) + ([Positional] + Tokens(y))
  {
    NextReads(x, '?', y);
    var m := Run(Start, x);
    assert Out(m, '?') == m.Owed() + [Positional] && Next(m, '?') == Start;
    Assoc(m.Owed(), [Positional], Tokens(y));
    Assoc(Outs(Start, x), m.Owed(), [Positional] + Tokens(y));
  }

  /** Within quotes every character is literal, question marks and colons included. */
  lemma QuotedIsLiteral(x: string, c: char, y: string)
    requires Scan(Outside, x) != Outside
    ensures Tokens(x + ([c] + y)) ==
            Tokens(x) + ([Lit(c)] + TokensFrom(Plain(Step(Scan(Outside, x), c), c == ':'), y))
  {
    NextReads(x, c, y);
    assert Outs(Start, x) + [] == Outs(Start, x);
  }

  /** Outside quotes, too, is a character that is no placeholder's and no quote. */
  lemma OtherIsLiteral(x: string, c: char, y: string)
    requires Scan(Outside, x) == Outside && c != '?' && c != ':' && !IsKeyPart(c)
    ensures Tokens(x + ([c] + y)) == Tokens(x) + ([Lit(c)] + TokensFrom(Plain(Step(Outside, c), false), y))
  {
    NextReads(x, c, y);
    var m, later := Run(Start, x), TokensFrom(Plain(Step(Outside, c), false), y);
    assert Out(m, c) == m.Owed() + [Lit(c)];
    Assoc(m.Owed(), [Lit(c)], later);
    Assoc(Outs(Start, x), m.Owed(), [Lit(c)] + later);
  }

  predicate EndsInColon(x: string) {
    x != [] && x[|x| - 1] == ':'
  }

  /** The reader remembers a colon only from the last character. */
  lemma NoColonSeen(x: string)
    requires !EndsInColon(x)
    ensures var m := Run(Start, x); m != Colon && (m.Plain? ==> !m.colon)
  {
    if x != [] {
      var n := |x| - 1;
      assert x == x[..n] + [x[n]];
      RunConcat(Start, x[..n], [x[n]]);
      assert [x[n]][1..] == [];
    }
  }

  lemma ColonOpens(x: string, y: string)
    requires Scan(Outside, x) == Outside && !EndsInColon(x)
    ensures Tokens(x + (":" + y)) == Tokens(x) + TokensFrom(Colon, y)
  {
    NextReads(x, ':', y);
    NoColonSeen(x);
    var m := Run(Start, x);
    assert Out(m, ':') == m.Owed() + [] == m.Owed() && Next(m, ':') == Colon;
    Assoc(Outs(Start, x), m.Owed(), TokensFrom(Colon, y));
  }

  lemma {:induction false} PartRunIs(key: string, y: string)
    requires (forall i :: 0 <= i < |key| ==> IsKeyPart(key[i])) && (y == [] || !IsKeyPart(y[0]))
    ensures PartRun(key + y) == |key|
  {
    if key == [] {
      assert key + y == y;
    } else {
      assert (key + y)[1..] == key[1..] + y;
      PartRunIs(key[1..], y);
    }
  }

  /** Outside quotes and not after another colon, a colon and an identifier are a named placeholder,
      which ends where the identifier does. */
  lemma KeyIsNamed(x: string, key: string, y: string)
    requires Scan(Outside, x) == Outside && !EndsInColon(x) && IsKey(key) && (y == [] || !IsKeyPart(y[0]))
    ensures Tokens(x + (":" + (key + y))) == Tokens(x) + ([Named(key)] + Tokens(y))
  {
    ColonOpens(x, key + y);
    ColonReads(key + y);
    assert (key + y)[1..] == key[1..] + y && (key + y)[0] == key[0];
    PartRunIs(key[1..], y);
    assert (key + y)[..|key|] == key && (key + y)[|key|..] == y;
  }

  /** A colon before anything but an identifier or another colon is literal. */
  lemma ColonIsLiteral(x: string, y: string)
    requires Scan(Outside, x) == Outside && !EndsInColon(x) && (y == [] || !IsKeyStart(y[0]))
    ensures Tokens(x + (":" + y)) == Tokens(x) + ([Lit(':')] + TokensFrom(Plain(Outside, true), y))
  {
    ColonOpens(x, y);
    ColonReads(y);
  }

  // ---------------------------------------------------------------- what translation keeps

  predicate KeysOk(ts: seq<Token>) {
    forall i :: 0 <= i < |ts| && ts[i].Named? ==> IsKey(ts[i].key)
  }

  lemma {:induction false} TokensHaveKeys(m: Mode, s: string)
    requires m.Ok()
    ensures KeysOk(TokensFrom(m, s))
    decreases |s|
  {
    if s != [] {
      TokensHaveKeys(Next(m, s[0]), s[1..]);
    }
  }

  predicate NoSlots(ts: seq<Token>) {
    forall i :: 0 <= i < |ts| ==> ts[i].Lit?
  }

  /** Rendering lengthens every placeholder, so only placeholder-free tokens keep their length. */
  lemma {:induction false} RenderedLength(ts: seq<Token>)
    ensures |Postgres(ts)| >= |Sqlite(ts)|
    ensures NoSlots(ts) ==> Postgres(ts) == Sqlite(ts)
    ensures !NoSlots(ts) ==> |Postgres(ts)| > |Sqlite(ts)|
  {
    if ts != [] {
      RenderedLength(ts[1..]);
      assert NoSlots(ts) <==> ts[0].Lit? && NoSlots(ts[1..]) by {
        assert ts == [ts[0]] + ts[1..];
      }
    }
  }

  /** Text without placeholders is unchanged, and only such text is. */
  lemma TranslateFixesIff(sql: string)
    ensures Translate(sql) == sql <==> NoSlots(Tokens(sql))
  {
    TokensAreTheText(sql);
    RenderedLength(Tokens(sql));
  }

  /** The reader's mode on the output, when the reader of the input is in mode `m`. */
  function OutputMode(m: Mode): Mode {
    if m.Plain? then m else Start
  }

  /** What a character adds to the output holds no placeholder, and keeps the two readers in step. */
  lemma OutReadsLiteral(m: Mode, c: char)
    requires m.Ok()
    ensures NoSlots(Outs(OutputMode(m), Postgres(Out(m, c))))
    ensures Run(OutputMode(m), Postgres(Out(m, c))) == OutputMode(Next(m, c))
  {
    if !m.Continues(c) {
      var p := m.Settled();
      PostgresConcat(m.Owed(), PlainOut(p, c));
      RunConcat(OutputMode(m), Postgres(m.Owed()), Postgres(PlainOut(p, c)));
      match m {
        case Plain(_, _) => PlainReadsLiteral(p, p, c);
        case Colon => ColonReadsLiteral(c);
        case Key(key) =>
          NamedReadsLiteral(key);
          PlainReadsLiteral(p, p, c);
      }
    }
  }

  lemma PostgresOne(t: Token)
    ensures Postgres([t]) == t.Postgres()
  {
    assert [t][1..] == [];
  }

  lemma OutsOne(m: Mode, c: char)
    ensures Outs(m, [c]) == Out(m, c) && Run(m, [c]) == Next(m, c)
  {
    assert [c][1..] == [];
  }

  lemma NamedIsInert(key: string)
    requires IsKey(key)
    ensures Inert(Named(key).Postgres())
  {
    var w := Named(key).Postgres();
    assert forall i :: 2 <= i < 2 + |key| ==> w[i] == key[i - 2];
  }

  lemma NamedReadsLiteral(key: string)
    requires IsKey(key)
    ensures NoSlots(Outs(Start, Postgres([Named(key)])))
    ensures Run(Start, Postgres([Named(key)])) == Start
  {
    PostgresOne(Named(key));
    var w := Named(key).Postgres();
    NamedIsInert(key);
    ReadInert(Outside, w);
    LitsAreLiteral(w);
  }

  lemma {:induction false} LitsAreLiteral(w: string)
    ensures NoSlots(Lits(w))
  {
    if w != [] {
      LitsAreLiteral(w[1..]);
    }
  }

  /** A rendered positional placeholder is read as literal text. */
  lemma PositionalReadsLiteral(r: Mode)
    requires r.Plain? || r == Colon
    ensures NoSlots(Outs(r, Postgres([Positional])))
    ensures Run(r, Postgres([Positional])) == Plain(r.Quoting(), false)
  {
    PostgresOne(Positional);
    assert "%s" == ['%'] + ['s'];
    RunConcat(r, ['%'], ['s']);
    OutsOne(r, '%');
    OutsOne(Next(r, '%'), 's');
  }

  lemma PlainReadsLiteral(r: Mode, p: Mode, c: char)
    requires p.Plain? && r == p
    ensures NoSlots(Outs(r, Postgres(PlainOut(p, c))))
    ensures Run(r, Postgres(PlainOut(p, c))) == OutputMode(Next(p, c))
  {
    if p.q == Outside && c == '?' {
      PositionalReadsLiteral(r);
    } else if !(p.q == Outside && c == ':' && !p.colon) {
      PostgresOne(Lit(c));
      OutsOne(r, c);
    }
  }

  lemma AfterColonReadsLiteral(c: char)
    requires !IsKeyStart(c)
    ensures var p := Plain(Outside, true);
            && NoSlots(Outs(Colon, Postgres(PlainOut(p, c))))
            && Run(Colon, Postgres(PlainOut(p, c))) == OutputMode(Next(p, c))
  {
    if c == '?' {
      PositionalReadsLiteral(Colon);
    } else {
      PostgresOne(Lit(c));
      OutsOne(Colon, c);
    }
  }

  lemma ColonReadsLiteral(c: char)
    requires !IsKeyStart(c)
    ensures var p := Plain(Outside, true);
            var w := Postgres([Lit(':')]);
            && NoSlots(Outs(Start, w) + Outs(Run(Start, w), Postgres(PlainOut(p, c))))
            && Run(Run(Start, w), Postgres(PlainOut(p, c))) == OutputMode(Next(p, c))
  {
    PostgresOne(Lit(':'));
    OutsOne(Start, ':');
    AfterColonReadsLiteral(c);
  }

  lemma {:induction false} OutputHasNoSlots(m: Mode, s: string)
    requires m.Ok()
    ensures NoSlots(TokensFrom(OutputMode(m), Postgres(TokensFrom(m, s))))
    decreases |s|
  {
    if s == [] {
      if m.Key? {
        NamedReadsLiteral(m.key);
        TokensAreOuts(Start, Postgres(m.Owed()));
      } else if m.Colon? {
        PostgresOne(Lit(':'));
        OutsOne(Start, ':');
        TokensAreOuts(Start, [':']);
      }
    } else {
      var w, later := Postgres(Out(m, s[0])), TokensFrom(Next(m, s[0]), s[1..]);
      OutputHasNoSlots(Next(m, s[0]), s[1..]);
      OutReadsLiteral(m, s[0]);
      PostgresConcat(Out(m, s[0]), later);
      TokensConcat(OutputMode(m), w, Postgres(later));
    }
  }

  /** Translating twice is translating once. */
  lemma TranslateIdempotent(sql: string)
    ensures Translate(Translate(sql)) == Translate(sql)
  {
    OutputHasNoSlots(Start, sql);
    TranslateFixesIff(Translate(sql));
  }

  /** The quoted characters of `s`, delimiters included. */
  function Quoted(q: Quote, s: string): string
    decreases |s|
  {
    if s == [] then []
    else
      var q' := Step(q, s[0]);
      (if q == Outside && q' == Outside then [] else [s[0]]) + Quoted(q', s[1..])
  }

  lemma {:induction false} QuotedConcat(q: Quote, x: string, y: string)
    ensures Quoted(q, x + y) == Quoted(q, x) + Quoted(Scan(q, x), y)
    ensures Scan(q, x + y) == Scan(Scan(q, x), y)
    decreases |x|
  {
    if x == [] {
      assert x + y == y;
    } else {
      var c, rest := x[0], x[1..];
      assert x == [c] + rest && x + y == [c] + (rest + y);
      QuotedOfCons(q, c, rest);
      QuotedOfCons(q, c, rest + y);
      QuotedConcat(Step(q, c), rest, y);
      Assoc(QuotedChar(q, c), Quoted(Step(q, c), rest), Quoted(Scan(q, x), y));
    }
  }

  function QuotedChar(q: Quote, c: char): string {
    if q == Outside && Step(q, c) == Outside then [] else [c]
  }

  lemma QuotedOfCons(q: Quote, c: char, s: string)
    ensures Quoted(q, [c] + s) == QuotedChar(q, c) + Quoted(Step(q, c), s)
    ensures Scan(q, [c] + s) == Scan(Step(q, c), s)
  {
    assert ([c] + s)[1..] == s;
  }

  lemma {:induction false} InertIsUnquoted(w: string)
    requires Inert(w)
    ensures Quoted(Outside, w) == [] && Scan(Outside, w) == Outside
  {
    if w != [] {
      InertIsUnquoted(w[1..]);
    }
  }

  lemma QuotedOne(q: Quote, c: char)
    ensures Quoted(q, [c]) == if q == Outside && Step(q, c) == Outside then [] else [c]
    ensures Scan(q, [c]) == Step(q, c)
  {
    assert [c][1..] == [];
  }

  /** One character and its translation have the same quoted text and the same quote effect. */
  lemma OutKeepsQuotes(m: Mode, c: char)
    requires m.Ok()
    ensures Quoted(m.Quoting(), Postgres(Out(m, c))) == Quoted(m.Quoting(), [c])
    ensures Scan(m.Quoting(), Postgres(Out(m, c))) == Step(m.Quoting(), c) == Next(m, c).Quoting()
  {
    QuotedOne(m.Quoting(), c);
    if !m.Continues(c) {
      PostgresConcat(m.Owed(), PlainOut(m.Settled(), c));
      QuotedConcat(m.Quoting(), Postgres(m.Owed()), Postgres(PlainOut(m.Settled(), c)));
      OwedIsUnquoted(m);
      PlainKeepsQuotes(m.Settled(), c);
    }
  }

  lemma PlainKeepsQuotes(p: Mode, c: char)
    requires p.Plain?
    ensures Quoted(p.q, Postgres(PlainOut(p, c))) == Quoted(p.q, [c])
    ensures Scan(p.q, Postgres(PlainOut(p, c))) == Step(p.q, c)
  {
    QuotedOne(p.q, c);
    if p.q == Outside && c == '?' {
      PostgresOne(Positional);
      InertIsUnquoted("%s");
    } else {
      PostgresOne(Lit(c));
    }
  }

  lemma OwedIsUnquoted(m: Mode)
    requires m.Ok()
    ensures Quoted(m.Quoting(), Postgres(m.Owed())) == []
    ensures Scan(m.Quoting(), Postgres(m.Owed())) == m.Quoting()
  {
    match m {
      case Plain(_, _) =>
      case Colon =>
        PostgresOne(Lit(':'));
        QuotedOne(Outside, ':');
      case Key(key) =>
        PostgresOne(Named(key));
        var w := Named(key).Postgres();
        NamedIsInert(key);
        InertIsUnquoted(w);
    }
  }

  lemma {:induction false} TranslateKeepsQuotesFrom(m: Mode, s: string)
    requires m.Ok()
    ensures Quoted(m.Quoting(), Postgres(TokensFrom(m, s))) == Quoted(m.Quoting(), s)
    ensures Scan(m.Quoting(), Postgres(TokensFrom(m, s))) == Scan(m.Quoting(), s)
    decreases |s|
  {
    if s == [] {
      OwedIsUnquoted(m);
    } else {
      OutKeepsQuotes(m, s[0]);
      TranslateKeepsQuotesFrom(Next(m, s[0]), s[1..]);
      FirstKeepsQuotes(m, s[0], s[1..]);
      assert s == [s[0]] + s[1..];
    }
  }

  lemma FirstKeepsQuotes(m: Mode, c: char, rest: string)
    requires m.Ok()
    requires var m' := Next(m, c);
             && Quoted(m'.Quoting(), Postgres(TokensFrom(m', rest))) == Quoted(m'.Quoting(), rest)
             && Scan(m'.Quoting(), Postgres(TokensFrom(m', rest))) == Scan(m'.Quoting(), rest)
    ensures Quoted(m.Quoting(), Postgres(TokensFrom(m, [c] + rest))) == Quoted(m.Quoting(), [c] + rest)
    ensures Scan(m.Quoting(), Postgres(TokensFrom(m, [c] + rest))) == Scan(m.Quoting(), [c] + rest)
  {
    OutKeepsQuotes(m, c);
    QuotedOne(m.Quoting(), c);
    QuotedConcat(m.Quoting(), [c], rest);
    TokensOfCons(m, c, rest);
    PostgresConcat(Out(m, c), TokensFrom(Next(m, c), rest));
    QuotedConcat(m.Quoting(), Postgres(Out(m, c)), Postgres(TokensFrom(Next(m, c), rest)));
  }

  /** No quoted character is touched (string literals and quoted identifiers come out as they
      went in), and the output ends in the same quote state as the input. */
  lemma TranslateKeepsQuotes(sql: string)
    ensures Quoted(Outside, Translate(sql)) == Quoted(Outside, sql)
    ensures Scan(Outside, Translate(sql)) == Scan(Outside, sql)
  {
    TranslateKeepsQuotesFrom(Start, sql);
  }

  // ---------------------------------------------------------------- what the driver reads

  function FindClose(s: string): (n: nat)
    ensures n <= |s|
    ensures n < |s| ==> s[n] == ')'
  {
    if s == [] || s[0] == ')' then 0 else 1 + FindClose(s[1..])
  }

  function Prepend(tok: Token, ts: Option<seq<Token>>): Option<seq<Token>> {
    if ts.Some? then Some([tok] + ts.value) else None
  }

  /** The driver's reading of a query (the `pyformat` style of PEP 249): `%%` is a percent
      sign, `%s`, `%b` and `%t` are positional, `%(name)s` is named, and quotes mean nothing.
      None when a percent sign starts none of these. */
  function ReadPyformat(t: string): Option<seq<Token>>
    decreases |t|
  {
    if t == [] then Some([])
    else if t[0] != '%' then Prepend(Lit(t[0]), ReadPyformat(t[1..]))
    else if |t| < 2 then None
    else if t[1] == '%' then Prepend(Lit('%'), ReadPyformat(t[2..]))
    else if t[1] in "sbt" then Prepend(Positional, ReadPyformat(t[2..]))
    else if t[1] == '(' then
      var n := FindClose(t[2..]);
      if 0 < n && n + 3 < |t| && t[n + 3] in "sbt"
      then Prepend(Named(t[2..n + 2]), ReadPyformat(t[n + 4..]))
      else None
    else None
  }

  lemma {:induction false} FindCloseAfter(key: string, y: string)
    requires forall i :: 0 <= i < |key| ==> IsKeyPart(key[i])
    requires y != [] && y[0] == ')'
    ensures FindClose(key + y) == |key|
  {
    if key == [] {
      assert key + y == y;
    } else {
      assert (key + y)[1..] == key[1..] + y;
      FindCloseAfter(key[1..], y);
    }
  }

  lemma DriverReadsNamed(key: string, y: string)
    requires IsKey(key)
    ensures ReadPyformat(Named(key).Postgres() + y) == Prepend(Named(key), ReadPyformat(y))
  {
    var s, n := Named(key).Postgres() + y, |key|;
    NamedParts(key, y);
    FindCloseAfter(key, ")s" + y);
  }

  lemma NamedParts(key: string, y: string)
    ensures var s, n := Named(key).Postgres() + y, |key|;
            && |s| > n + 3 && s[0] == '%' && s[1] == '(' && s[n + 3] == 's'
            && s[2..] == key + (")s" + y) && s[2..n + 2] == key && s[n + 4..] == y
  {
  }

  lemma DriverReadsPositional(y: string)
    ensures ReadPyformat(Positional.Postgres() + y) == Prepend(Positional, ReadPyformat(y))
  {
    assert (Positional.Postgres() + y)[2..] == y;
  }

  lemma DriverReadsLit(c: char, y: string)
    requires c != '%'
    ensures ReadPyformat(Lit(c).Postgres() + y) == Prepend(Lit(c), ReadPyformat(y))
  {
    assert (Lit(c).Postgres() + y)[1..] == y;
  }

  /** The driver reads back each token that the translation writes, percent signs excepted. */
  lemma DriverReadsToken(t: Token, y: string)
    requires t != Lit('%') && (t.Named? ==> IsKey(t.key))
    ensures ReadPyformat(t.Postgres() + y) == Prepend(t, ReadPyformat(y))
  {
    match t
    case Lit(c) => DriverReadsLit(c, y);
    case Positional => DriverReadsPositional(y);
    case Named(key) => DriverReadsNamed(key, y);
  }

  lemma {:induction false} DriverReadsPercentFree(ts: seq<Token>)
    requires KeysOk(ts) && Lit('%') !in ts
    ensures ReadPyformat(Postgres(ts)) == Some(ts)
  {
    if ts != [] {
      assert ts == [ts[0]] + ts[1..];
      DriverReadsPercentFree(ts[1..]);
      DriverReadsToken(ts[0], Postgres(ts[1..]));
    }
  }

  function Percents(s: string): nat {
    if s == [] then 0 else (if s[0] == '%' then 1 else 0) + Percents(s[1..])
  }

  lemma {:induction false} PercentsConcat(x: string, y: string)
    ensures Percents(x + y) == Percents(x) + Percents(y)
  {
    if x == [] {
      assert x + y == y;
    } else {
      assert (x + y)[1..] == x[1..] + y;
      PercentsConcat(x[1..], y);
    }
  }

  lemma {:induction false} PercentsZero(s: string)
    ensures Percents(s) == 0 <==> '%' !in s
  {
    if s != [] {
      PercentsZero(s[1..]);
      assert s == [s[0]] + s[1..];
    }
  }

  lemma PercentsNamed(key: string, a: char, b: char)
    requires a != '%' && b != '%'
    ensures Percents("%(" + key + [a, b]) == 1 + Percents(key)
  {
    PercentsConcat("%(" + key, [a, b]);
    PercentsConcat("%(", key);
    assert [a, b][1..] == [b] && [b][1..] == [];
    assert "%("[1..] == "(";
  }

  /** Percent signs that a reader uses up on a token. */
  function Consumes(t: Token): nat {
    match t
    case Lit(c) => if c == '%' then 2 else 0
    case Positional => 1
    case Named(key) => 1 + Percents(key)
  }

  function Consumed(ts: seq<Token>): nat {
    if ts == [] then 0 else Consumes(ts[0]) + Consumed(ts[1..])
  }

  lemma {:induction false} ReadConsumesAllPercents(t: string)
    requires ReadPyformat(t).Some?
    ensures Consumed(ReadPyformat(t).value) == Percents(t)
    decreases |t|
  {
    if t == [] {
    } else if t[0] != '%' {
      ReadConsumesAllPercents(t[1..]);
    } else if t[1] == '%' || t[1] in "sbt" {
      ReadConsumesAllPercents(t[2..]);
      assert t[1..][1..] == t[2..];
    } else {
      var n := FindClose(t[2..]);
      ReadConsumesAllPercents(t[n + 4..]);
      assert t[2..][n] == ')';
      var head := "%(" + t[2..n + 2] + [t[n + 2], t[n + 3]];
      assert t == head + t[n + 4..];
      PercentsConcat(head, t[n + 4..]);
      PercentsNamed(t[2..n + 2], t[n + 2], t[n + 3]);
    }
  }

  lemma TokenPercents(t: Token)
    requires t.Named? ==> IsKey(t.key)
    ensures Percents(t.Postgres()) + Percents(t.Sqlite()) == Consumes(t)
  {
    match t
    case Lit(c) => assert [c][1..] == [];
    case Positional => assert "%s"[1..] == "s" && "s"[1..] == [];
    case Named(key) =>
      PercentsZero(key);
      PercentsNamed(key, ')', 's');
      assert t.Postgres() == "%(" + key + [')', 's'];
      PercentsConcat(":", key);
  }

  /** Each percent sign of the source leaves the output one percent sign short of what the
      driver needs to read the source's tokens. */
  lemma {:induction false} RenderedPercents(ts: seq<Token>)
    requires KeysOk(ts)
    ensures Percents(Postgres(ts)) + Percents(Sqlite(ts)) == Consumed(ts)
    ensures '%' in Sqlite(ts) <==> Lit('%') in ts
  {
    if ts != [] {
      RenderedPercents(ts[1..]);
      TokenPercents(ts[0]);
      PercentsConcat(ts[0].Postgres(), Postgres(ts[1..]));
      PercentsConcat(ts[0].Sqlite(), Sqlite(ts[1..]));
      PercentInToken(ts[0]);
      assert ts == [ts[0]] + ts[1..];
    }
  }

  lemma PercentInToken(t: Token)
    requires t.Named? ==> IsKey(t.key)
    ensures '%' in t.Sqlite() <==> t == Lit('%')
  {
  }

  lemma DriverReadsSourceOnlyIf(sql: string)
    requires ReadPyformat(Translate(sql)) == Some(Tokens(sql))
    ensures '%' !in sql
  {
    TokensHaveKeys(Start, sql);
    TokensAreTheText(sql);
    RenderedPercents(Tokens(sql));
    ReadConsumesAllPercents(Translate(sql));
    PercentsZero(sql);
  }

  /** The driver sees exactly the placeholders of the SQLite text, in order, around exactly its
      literal characters, if and only if the text contains no percent sign. */
  lemma DriverReadsSourceIff(sql: string)
    ensures ReadPyformat(Translate(sql)) == Some(Tokens(sql)) <==> '%' !in sql
  {
    if '%' !in sql {
      TokensHaveKeys(Start, sql);
      TokensAreTheText(sql);
      RenderedPercents(Tokens(sql));
      DriverReadsPercentFree(Tokens(sql));
    }
    if ReadPyformat(Translate(sql)) == Some(Tokens(sql)) {
      DriverReadsSourceOnlyIf(sql);
    }
  }
}

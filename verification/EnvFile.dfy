/** The `.env` printer and parser. */
module EnvFile {
  import opened Text

  // ---------------------------------------------------------------- characters and lines

  /** Where `str.splitlines` ends a line, apart from line feed and carriage return. */
  predicate IsExoticBreak(c: char) {
    || c == '\U{0B}' || c == '\U{0C}'
    || '\U{1C}' <= c <= '\U{1E}'
    || c == '\U{85}' || c == '\U{2028}' || c == '\U{2029}'
  }

  predicate IsBreak(c: char) {
    c == '\n' || c == '\r' || IsExoticBreak(c)
  }

  predicate NoExotic(s: string) {
    forall i :: 0 <= i < |s| ==> !IsExoticBreak(s[i])
  }

  predicate OneLine(s: string) {
    forall i :: 0 <= i < |s| ==> !IsBreak(s[i])
  }

  /** `text.splitlines()`, after a first line `line` was read in part. A carriage return and line
      feed are one break, as they also are for a file opened as text. */
  function SplitLines(line: string, text: string): seq<string>
    decreases |text|
  {
    if text == [] then (if line == [] then [] else [line])
    else if text[0] == '\r' && |text| > 1 && text[1] == '\n' then [line] + SplitLines([], text[2..])
    else if IsBreak(text[0]) then [line] + SplitLines([], text[1..])
    else SplitLines(line + [text[0]], text[1..])
  }

  // ---------------------------------------------------------------- values

  /** `s.replace(a + b, c)` for two characters `a`, `b`. */
  function ReplacePair(s: string, a: char, b: char, c: char): string {
    if s == [] then []
    else if |s| > 1 && s[0] == a && s[1] == b then [c] + ReplacePair(s[2..], a, b, c)
    else [s[0]] + ReplacePair(s[1..], a, b, c)
  }

  /** `s.replace(c, by)` for a character `c`. */
  function ReplaceChar(s: string, c: char, put: string): string {
    if s == [] then [] else (if s[0] == c then put else [s[0]]) + ReplaceChar(s[1..], c, put)
  }

  predicate NeedsQuotes(v: string) {
    exists i :: 0 <= i < |v| && Quotable(v[i])
  }

  predicate Quotable(c: char) {
    c == '\n' || c == '\r' || c == '"' || c == '#' || c == ' ' || c == '='
  }

  function Escaped(v: string): string {
    ReplaceChar(ReplaceChar(ReplaceChar(ReplaceChar(v, '\\', "\\\\"), '"', "\\\""), '\n', "\\n"), '\r', "\\r")
  }

  function Unescaped(s: string): string {
    ReplacePair(ReplacePair(ReplacePair(ReplacePair(s, '\\', 'n', '\n'), '\\', 'r', '\r'), '\\', '"', '"'),
                '\\', '\\', '\\')
  }

  /** `_env_escape`. */
  function Escape(v: string): string {
    if v == [] then "\"\""
    else if NeedsQuotes(v) then "\"" + Escaped(v) + "\""
    else v
  }

  /** What the parser makes of the text after the equals sign. */
  function Value(raw: string): string {
    if |raw| >= 2 && raw[0] == '"' && raw[|raw| - 1] == '"' then Unescaped(raw[1..|raw| - 1]) else raw
  }

  // ---------------------------------------------------------------- the four replacements

  /** A backslash whose next character one of the first `k` replacements took for its own. */
  predicate Taken(v: string, k: nat) {
    |v| > 1 && v[0] == '\\' && ((v[1] == 'n' && k >= 1) || (v[1] == 'r' && k >= 2))
  }

  /** What a character is printed as, once `k` of the parser's replacements have undone their part. */
  function Printed(c: char, k: nat): string {
    if c == '\\' then (if k >= 4 then "\\" else "\\\\")
    else if c == '"' then (if k >= 3 then "\"" else "\\\"")
    else if c == '\n' then (if k >= 1 then "\n" else "\\n")
    else if c == '\r' then (if k >= 2 then "\r" else "\\r")
    else [c]
  }

  /** The printed value after `k` of the parser's replacements. */
  function Undone(v: string, k: nat): string {
    if v == [] then []
    else if Taken(v, k) then ['\\', if v[1] == 'n' then '\n' else '\r'] + Undone(v[2..], k)
    else Printed(v[0], k) + Undone(v[1..], k)
  }

  lemma {:induction false} ReplaceCharAppend(s: string, t: string, c: char, put: string)
    ensures ReplaceChar(s + t, c, put) == ReplaceChar(s, c, put) + ReplaceChar(t, c, put)
  {
    if s == [] {
      assert s + t == t;
    } else {
      assert (s + t)[1..] == s[1..] + t;
      ReplaceCharAppend(s[1..], t, c, put);
      Assoc(if s[0] == c then put else [s[0]], ReplaceChar(s[1..], c, put), ReplaceChar(t, c, put));
    }
  }

  lemma EscapedAppend(s: string, t: string)
    ensures Escaped(s + t) == Escaped(s) + Escaped(t)
  {
    var s1, t1 := ReplaceChar(s, '\\', "\\\\"), ReplaceChar(t, '\\', "\\\\");
    ReplaceCharAppend(s, t, '\\', "\\\\");
    var s2, t2 := ReplaceChar(s1, '"', "\\\""), ReplaceChar(t1, '"', "\\\"");
    ReplaceCharAppend(s1, t1, '"', "\\\"");
    var s3, t3 := ReplaceChar(s2, '\n', "\\n"), ReplaceChar(t2, '\n', "\\n");
    ReplaceCharAppend(s2, t2, '\n', "\\n");
    ReplaceCharAppend(s3, t3, '\r', "\\r");
  }

  lemma ReplaceInOne(a: char, c: char, put: string)
    ensures ReplaceChar([a], c, put) == if a == c then put else [a]
  {
    assert [a][1..] == [];
    assert put + [] == put;
  }

  lemma ReplaceInTwo(a: char, b: char, c: char, put: string)
    requires a != c && b != c
    ensures ReplaceChar([a, b], c, put) == [a, b]
  {
    assert [a, b] == [a] + [b];
    ReplaceCharAppend([a], [b], c, put);
    ReplaceInOne(a, c, put);
    ReplaceInOne(b, c, put);
  }

  lemma EscapedOne(c: char)
    ensures Escaped([c]) == Printed(c, 0)
  {
    ReplaceInOne(c, '\\', "\\\\");
    if c == '\\' {
      ReplaceInTwo('\\', '\\', '"', "\\\"");
      ReplaceInTwo('\\', '\\', '\n', "\\n");
      ReplaceInTwo('\\', '\\', '\r', "\\r");
    } else {
      ReplaceInOne(c, '"', "\\\"");
      if c == '"' {
        ReplaceInTwo('\\', '"', '\n', "\\n");
        ReplaceInTwo('\\', '"', '\r', "\\r");
      } else {
        ReplaceInOne(c, '\n', "\\n");
        if c == '\n' {
          ReplaceInTwo('\\', 'n', '\r', "\\r");
        } else {
          ReplaceInOne(c, '\r', "\\r");
        }
      }
    }
  }

  lemma {:induction false} EscapedIsPrinted(v: string)
    ensures Escaped(v) == Undone(v, 0)
  {
    if v != [] {
      assert v == [v[0]] + v[1..];
      EscapedAppend([v[0]], v[1..]);
      EscapedOne(v[0]);
      EscapedIsPrinted(v[1..]);
    }
  }

  /** The letter that replacement `k` takes a backslash with, and what it puts. */
  function Letter(k: nat): char {
    if k == 0 then 'n' else if k == 1 then 'r' else if k == 2 then '"' else '\\'
  }

  function Put(k: nat): char {
    if k == 0 then '\n' else if k == 1 then '\r' else if k == 2 then '"' else '\\'
  }

  function Replacement(s: string, k: nat): string {
    ReplacePair(s, '\\', Letter(k), Put(k))
  }

  lemma ReplacementSkips(c: char, rest: string, k: nat)
    requires c != '\\' || rest == [] || rest[0] != Letter(k)
    ensures Replacement([c] + rest, k) == [c] + Replacement(rest, k)
  {
    assert ([c] + rest)[1..] == rest;
  }

  lemma ReplacementPuts(rest: string, k: nat)
    ensures Replacement(['\\', Letter(k)] + rest, k) == [Put(k)] + Replacement(rest, k)
  {
    assert (['\\', Letter(k)] + rest)[2..] == rest;
  }

  /** Whatever is printed starts as the value does, or with a backslash. */
  lemma UndoneHead(v: string, k: nat)
    requires v != []
    ensures Undone(v, k) != []
    ensures Undone(v, k)[0] == v[0] || Undone(v, k)[0] == '\\'
    ensures v[0] != '\\' && v[0] != '"' && v[0] != '\n' && v[0] != '\r' ==> Undone(v, k)[0] == v[0]
  {
  }

  lemma TwoThenRest(a: char, b: char, rest: string)
    ensures [a, b] + rest == [a] + ([b] + rest)
  {
  }

  /** A character that the replacement neither takes nor joins to the next one. */
  lemma PrintedUndone(c: char, rest: string, k: nat)
    requires k < 4 && (c == '\\' && k < 2 ==> rest == [] || rest[0] != Letter(k))
    requires k == 2 ==> rest == [] || rest[0] != '"'
    ensures Replacement(Printed(c, k) + rest, k) == Printed(c, k + 1) + Replacement(rest, k)
  {
    var p := Printed(c, k);
    if p == [c] {
      ReplacementSkips(c, rest, k);
    } else if p[1] == Letter(k) {
      assert p == ['\\', Letter(k)];
      ReplacementPuts(rest, k);
    } else {
      TwoThenRest('\\', p[1], rest);
      ReplacementSkips(p[1], rest, k);
      ReplacementSkips('\\', [p[1]] + rest, k);
      TwoThenRest('\\', p[1], Replacement(rest, k));
    }
  }

  lemma {:induction false} OneReplacement(v: string, k: nat)
    requires k < 4
    ensures Replacement(Undone(v, k), k) == Undone(v, k + 1)
  {
    if v == [] {
    } else if Taken(v, k) {
      var t := if v[1] == 'n' then '\n' else '\r';
      var rest := Undone(v[2..], k);
      OneReplacement(v[2..], k);
      TwoThenRest('\\', t, rest);
      ReplacementSkips('\\', [t] + rest, k);
      ReplacementSkips(t, rest, k);
      TwoThenRest('\\', t, Replacement(rest, k));
    } else if Taken(v, k + 1) {
      NewlyTaken(v, k);
      OneReplacement(v[2..], k);
    } else {
      OneReplacement(v[1..], k);
      if |v| > 1 {
        UndoneHead(v[1..], k);
      }
      PrintedUndone(v[0], Undone(v[1..], k), k);
    }
  }

  /** A backslash before `n` or `r` is printed as two; the second is taken together with the letter. */
  lemma NewlyTaken(v: string, k: nat)
    requires k < 4 && !Taken(v, k) && Taken(v, k + 1)
    ensures Replacement(Undone(v, k), k) == ['\\', Put(k)] + Replacement(Undone(v[2..], k), k)
    ensures v[1] == Letter(k) && k < 2
  {
    var rest := Undone(v[2..], k);
    assert v[1..][1..] == v[2..];
    assert Undone(v[1..], k) == [v[1]] + rest;
    assert Undone(v, k) == "\\\\" + ([v[1]] + rest) == ['\\'] + (['\\', v[1]] + rest);
    ReplacementSkips('\\', ['\\', v[1]] + rest, k);
    ReplacementPuts(rest, k);
  }

  // ---------------------------------------------------------------- what a value reads back as

  /** An `n` or `r` directly after a backslash is read as a line break. */
  function Turned(v: string, i: nat): char
    requires i < |v|
  {
    if i > 0 && v[i - 1] == '\\' && v[i] == 'n' then '\n'
    else if i > 0 && v[i - 1] == '\\' && v[i] == 'r' then '\r'
    else v[i]
  }

  predicate HasPair(v: string) {
    exists i :: 0 < i < |v| && v[i - 1] == '\\' && (v[i] == 'n' || v[i] == 'r')
  }

  lemma {:induction false} UndoneIsTurned(v: string)
    ensures |Undone(v, 4)| == |v| && forall i :: 0 <= i < |v| ==> Undone(v, 4)[i] == Turned(v, i)
  {
    if v == [] {
    } else if Taken(v, 4) {
      UndoneIsTurned(v[2..]);
      assert forall i :: 2 <= i < |v| ==> Undone(v, 4)[i] == Turned(v[2..], i - 2);
    } else {
      UndoneIsTurned(v[1..]);
      assert forall i :: 1 <= i < |v| ==> Undone(v, 4)[i] == Turned(v[1..], i - 1);
    }
  }

  /** The four replacements after the four of the printer, exactly: each `n` or `r` directly after
      a backslash becomes a line feed or carriage return, and nothing else changes. */
  lemma UnescapedIsTurned(v: string)
    ensures var r := Unescaped(Escaped(v));
            |r| == |v| && forall i :: 0 <= i < |v| ==> r[i] == Turned(v, i)
  {
    EscapedIsPrinted(v);
    OneReplacement(v, 0);
    OneReplacement(v, 1);
    OneReplacement(v, 2);
    OneReplacement(v, 3);
    UndoneIsTurned(v);
  }

  lemma UndoneIff(v: string)
    ensures Unescaped(Escaped(v)) == v <==> !HasPair(v)
  {
    UnescapedIsTurned(v);
    if HasPair(v) {
      var i :| 0 < i < |v| && v[i - 1] == '\\' && (v[i] == 'n' || v[i] == 'r');
      assert Unescaped(Escaped(v))[i] != v[i];
    }
  }

  /** What a value without exotic breaks reads back as. */
  function Decoded(v: string): string {
    if NeedsQuotes(v) then Unescaped(Escaped(v)) else Strip(v)
  }

  /** The values that read back unchanged. */
  predicate ReadsBack(v: string) {
    NoExotic(v) && if NeedsQuotes(v) then !HasPair(v) else Stripped(v)
  }

  lemma DecodedIff(v: string)
    requires NoExotic(v)
    ensures Decoded(v) == v <==> ReadsBack(v)
  {
    UndoneIff(v);
    StripIsIdentityIff(v);
  }

  // ---------------------------------------------------------------- the file

  /** `s.find(c)`. */
  function Find(s: string, c: char): int {
    if s == [] then -1
    else if s[0] == c then 0
    else
      var i := Find(s[1..], c);
      if i < 0 then -1 else i + 1
  }

  /** The key and value of a line; None for a blank line, a comment, or a line without a key. */
  function ParseLine(text: string): Option<(string, string)> {
    var line := Strip(text);
    if line == [] || line[0] == '#' then None
    else
      var i := Find(line, '=');
      if i <= 0 || i >= |line| then None else Some((Strip(line[..i]), Value(Strip(line[i + 1..]))))
  }

  /** A later line of the same key wins. */
  function ReadLines(lines: seq<string>): map<string, string> {
    if lines == [] then map[]
    else
      var out := ReadLines(lines[..|lines| - 1]);
      WithLine(out, ParseLine(lines[|lines| - 1]))
  }

  function WithLine(out: map<string, string>, line: Option<(string, string)>): map<string, string> {
    if line.None? then out else out[line.value.0 := line.value.1]
  }

  /** `read_env_file`; None when there is no file. */
  function ReadEnv(file: Option<string>): map<string, string> {
    if file.None? then map[] else ReadLines(SplitLines([], file.value))
  }

  /** The line of each key of `m`, in the given order. */
  function KeyLines(order: seq<string>, m: map<string, string>): seq<string> {
    if order == [] then []
    else
      var k := order[|order| - 1];
      KeyLines(order[..|order| - 1], m) + (if k in m then [k + "=" + Escape(m[k])] else [])
  }

  function Render(header: seq<string>, order: seq<string>, m: map<string, string>): string {
    Join("\n", header + KeyLines(order, m)) + "\n"
  }

  /** What `write_env_file` puts in the file: the safe keys that were there, and the stripped new values. */
  function Merged(file: Option<string>, vars: map<string, string>, safe: seq<string>, merge: bool)
    : map<string, string>
  {
    var there := if merge then ReadEnv(file) else map[];
    (map k | k in there && k in safe :: there[k])
    + (map k | k in vars && k in safe && Strip(vars[k]) != [] :: Strip(vars[k]))
  }

  /** The lines of the keys stand in the given order, one for each key that is there. */
  lemma {:induction false} KeyLinesInOrder(order: seq<string>, m: map<string, string>) returns (at: seq<nat>)
    ensures |at| == |KeyLines(order, m)| && forall i, j :: 0 <= i < j < |at| ==> at[i] < at[j]
    ensures forall i :: 0 <= i < |at| ==>
              at[i] < |order| && order[at[i]] in m
              && KeyLines(order, m)[i] == order[at[i]] + "=" + Escape(m[order[at[i]]])
    ensures forall n: nat :: n < |order| && order[n] in m ==> n in at
  {
    at := [];
    if order != [] {
      var n := |order| - 1;
      at := KeyLinesInOrder(order[..n], m);
      if order[n] in m {
        at := at + [n];
      }
    }
  }

  /** Comment and blank lines. */
  predicate HeaderOk(header: seq<string>) {
    header != [] && forall i :: 0 <= i < |header| ==> OneLine(header[i]) && (header[i] == [] || header[i][0] == '#')
  }

  predicate KeyOk(k: string) {
    OneLine(k) && k != [] && Stripped(k) && k[0] != '#' && '=' !in k
  }

  predicate KeysOk(order: seq<string>) {
    forall i :: 0 <= i < |order| ==> KeyOk(order[i])
  }

  /** The keys that are ever written, in their order. */
  const SAFE_KEYS := ["HG_DATA_DIR", "HG_WORKSPACE", "HG_TIMEZONE"]

  lemma CapitalsAreOk(k: string)
    requires k != [] && forall i :: 0 <= i < |k| ==> k[i] == '_' || 'A' <= k[i] <= 'Z'
    ensures KeyOk(k)
  {
  }

  lemma SafeKeysOk()
    ensures KeysOk(SAFE_KEYS)
  {
    CapitalsAreOk("HG_DATA_DIR");
    CapitalsAreOk("HG_WORKSPACE");
    CapitalsAreOk("HG_TIMEZONE");
  }

  // ---------------------------------------------------------------- one line

  lemma {:induction false} FindFirst(k: string, rest: string, c: char)
    requires c !in k
    ensures Find(k + [c] + rest, c) == |k|
  {
    var s := k + [c] + rest;
    if k != [] {
      assert s[1..] == k[1..] + [c] + rest;
      FindFirst(k[1..], rest, c);
    }
  }

  lemma {:induction false} StripRightOver(a: string, s: string)
    requires a != [] && !IsSpace(a[|a| - 1])
    ensures StripRight(a + s) == a + StripRight(s)
  {
    if s == [] {
      assert a + s == a;
    } else if IsSpace(s[|s| - 1]) {
      assert (a + s)[..|a + s| - 1] == a + s[..|s| - 1];
      StripRightOver(a, s[..|s| - 1]);
    }
  }

  lemma {:induction false} StripLeftSpace(s: string, c: char)
    requires IsSpace(c)
    ensures StripLeft(s + [c]) == if StripLeft(s) == [] then [] else StripLeft(s) + [c]
  {
    if s == [] {
      assert s + [c] == [c] && [c][1..] == [];
    } else if IsSpace(s[0]) {
      assert (s + [c])[1..] == s[1..] + [c];
      StripLeftSpace(s[1..], c);
    }
  }

  lemma {:induction false} StripTwice(s: string)
    ensures Strip(StripRight(s)) == Strip(s)
  {
    if s != [] && IsSpace(s[|s| - 1]) {
      var t, c := s[..|s| - 1], s[|s| - 1];
      StripTwice(t);
      StripLeftSpace(t, c);
      assert s == t + [c];
      if StripLeft(t) != [] {
        assert (StripLeft(t) + [c])[..|StripLeft(t)|] == StripLeft(t);
      }
    }
  }

  /** A key's line, stripped at its right end to `raw`, gives the key and the value of `raw`. */
  lemma KeyLineParses(k: string, text: string, raw: string)
    requires KeyOk(k) && StripRight(text) == raw
    ensures ParseLine(k + "=" + text) == Some((k, Value(Strip(raw))))
  {
    StripRightOver(k + "=", text);
    var line := k + "=" + raw;
    assert Strip(k + "=" + text) == line;
    FindFirst(k, raw, '=');
    assert line[..|k|] == k && line[|k| + 1..] == raw;
    StripIsIdentityIff(k);
  }

  lemma {:induction false} FindIsFirst(s: string, c: char)
    ensures c !in s ==> Find(s, c) == -1
    ensures c in s ==> 0 <= Find(s, c) < |s| && s[Find(s, c)] == c && c !in s[..Find(s, c)]
  {
    if s != [] && s[0] != c {
      FindIsFirst(s[1..], c);
      assert s == [s[0]] + s[1..];
      if c in s {
        assert s[..Find(s, c)] == [s[0]] + s[1..][..Find(s[1..], c)];
      }
    }
  }

  /** A line is skipped if and only if it is blank, a comment, or has nothing or no equals sign before
      its value. */
  lemma SkippedIff(text: string)
    ensures ParseLine(text).None? <==>
            var line := Strip(text); line == [] || line[0] == '#' || line[0] == '=' || '=' !in line
  {
    var line := Strip(text);
    FindIsFirst(line, '=');
  }

  /** Whitespace around the line, the key and the value is no part of them. */
  lemma PaddedLineReads(p: string, k: string, p': string, q: string, raw: string, q': string)
    requires AllSpace(p) && AllSpace(p') && AllSpace(q) && AllSpace(q')
    requires k != [] && Stripped(k) && k[0] != '#' && '=' !in k && Stripped(raw)
    ensures ParseLine(p + ((k + p' + "=") + (q + (raw + q')))) == Some((k, Value(raw)))
  {
    var front, back := k + p' + "=", q + (raw + q');
    StripLeftPadding(p, front + back);
    StripRightOver(front, back);
    var line := front + StripRight(back);
    assert Strip(p + (front + back)) == line;
    forall i | 0 <= i < |k + p'| ensures (k + p')[i] != '=' {
    }
    FindFirst(k + p', StripRight(back), '=');
    assert (k + p') + ['='] + StripRight(back) == line;
    assert line[..|k + p'|] == k + p' && line[|k + p'| + 1..] == StripRight(back);
    assert [] + (k + p') == k + p';
    StripPadding([], k, p');
    StripTwice(back);
    StripPadding(q, raw, q');
  }

  predicate Gives(text: string, k: string) {
    ParseLine(text).Some? && ParseLine(text).value.0 == k
  }

  /** Line `i` is the last that gives key `k`. */
  predicate LastLine(lines: seq<string>, k: string, i: nat)
    requires i < |lines|
  {
    Gives(lines[i], k) && forall j :: i < j < |lines| ==> !Gives(lines[j], k)
  }

  lemma LastLineBefore(lines: seq<string>, k: string, i: nat)
    requires i + 1 < |lines|
    ensures var n := |lines| - 1; LastLine(lines, k, i) <==> LastLine(lines[..n], k, i) && !Gives(lines[n], k)
  {
    var n := |lines| - 1;
    var rest := lines[..n];
    assert forall j :: i < j < n ==> Gives(rest[j], k) == Gives(lines[j], k);
    assert rest[i] == lines[i];
  }

  lemma ReadLast(lines: seq<string>, k: string)
    requires lines != []
    ensures var n := |lines| - 1;
            var before, after := ReadLines(lines[..n]), ReadLines(lines);
            if Gives(lines[n], k) then k in after && after[k] == ParseLine(lines[n]).value.1
            else (k in after <==> k in before) && (k in after ==> after[k] == before[k])
  {
  }

  /** A key has the value of its last line, and no key is there without a line. */
  lemma {:induction false} LastLineWins(lines: seq<string>, k: string)
    ensures forall i :: 0 <= i < |lines| && LastLine(lines, k, i) ==>
              k in ReadLines(lines) && ReadLines(lines)[k] == ParseLine(lines[i]).value.1
    ensures k in ReadLines(lines) ==> exists i :: 0 <= i < |lines| && LastLine(lines, k, i)
  {
    if lines != [] {
      var n := |lines| - 1;
      LastLineWins(lines[..n], k);
      ReadLast(lines, k);
      forall i | 0 <= i < n ensures LastLine(lines, k, i) <==> LastLine(lines[..n], k, i) && !Gives(lines[n], k) {
        LastLineBefore(lines, k, i);
      }
      assert LastLine(lines, k, n) <==> Gives(lines[n], k);
    }
  }

  /** The printer leaves a value as it is unless it is empty or has a character that asks for quotes. */
  lemma PrintedPlainIff(v: string)
    ensures Escape(v) == v <==>
            v != [] && '\n' !in v && '\r' !in v && '"' !in v && '#' !in v && ' ' !in v && '=' !in v
    ensures Escape(v) == v || (|Escape(v)| >= 2 && Escape(v)[0] == '"' == Escape(v)[|Escape(v)| - 1])
  {
    if NeedsQuotes(v) {
      var i :| 0 <= i < |v| && Quotable(v[i]);
      EscapedIsLonger(v);
      assert |Escape(v)| > |v|;
    }
  }

  lemma EscapedIsLonger(v: string)
    ensures |Escaped(v)| >= |v|
  {
    var a := ReplaceChar(v, '\\', "\\\\");
    var b := ReplaceChar(a, '"', "\\\"");
    ReplacingIsLonger(v, '\\', "\\\\");
    ReplacingIsLonger(a, '"', "\\\"");
    ReplacingIsLonger(b, '\n', "\\n");
    ReplacingIsLonger(ReplaceChar(b, '\n', "\\n"), '\r', "\\r");
  }

  lemma {:induction false} ReplacingIsLonger(s: string, c: char, put: string)
    requires |put| >= 1
    ensures |ReplaceChar(s, c, put)| >= |s|
  {
    if s != [] {
      ReplacingIsLonger(s[1..], c, put);
    }
  }

  lemma PlainValue(v: string)
    requires !NeedsQuotes(v)
    ensures Value(Strip(v)) == Strip(v)
  {
    StripTakes(v);
    if Strip(v) != [] {
      assert Strip(v)[0] in v;
      var i :| 0 <= i < |v| && v[i] == Strip(v)[0];
      assert !Quotable(v[i]);
    }
  }

  lemma LineReads(k: string, v: string)
    requires KeyOk(k)
    ensures ParseLine(k + "=" + Escape(v)) == Some((k, Decoded(v)))
  {
    var e := Escape(v);
    if v == [] {
      KeyLineParses(k, e, e);
      assert e[1..1] == [];
    } else if NeedsQuotes(v) {
      KeyLineParses(k, e, e);
      assert e[1..|e| - 1] == Escaped(v);
    } else {
      KeyLineParses(k, v, StripRight(v));
      StripTwice(v);
      PlainValue(v);
    }
  }

  // ---------------------------------------------------------------- lines of a file

  lemma {:induction false} SplitFirst(before: string, line: string, rest: string)
    requires OneLine(line)
    ensures SplitLines(before, line + ("\n" + rest)) == [before + line] + SplitLines([], rest)
    decreases |line|
  {
    var text := line + ("\n" + rest);
    if line == [] {
      assert text == "\n" + rest && text[1..] == rest && before + line == before;
    } else {
      assert text[1..] == line[1..] + ("\n" + rest);
      SplitFirst(before + [line[0]], line[1..], rest);
      assert before + [line[0]] + line[1..] == before + line;
    }
  }

  lemma {:induction false} JoinSplits(lines: seq<string>)
    requires lines != [] && forall i :: 0 <= i < |lines| ==> OneLine(lines[i])
    ensures SplitLines([], Join("\n", lines) + "\n") == lines
  {
    var line := lines[0];
    assert [] + line == line;
    if |lines| == 1 {
      assert Join("\n", lines) + "\n" == line + ("\n" + []);
      SplitFirst([], line, []);
    } else {
      var rest := Join("\n", lines[1..]) + "\n";
      JoinSplits(lines[1..]);
      assert Join("\n", lines) + "\n" == line + ("\n" + rest);
      SplitFirst([], line, rest);
    }
  }

  lemma {:induction false} PrintedOneLine(v: string)
    requires NoExotic(v)
    ensures OneLine(Undone(v, 0))
  {
    if v != [] {
      PrintedOneLine(v[1..]);
      assert OneLine(Printed(v[0], 0));
    }
  }

  lemma EscapeOneLine(v: string)
    requires NoExotic(v)
    ensures OneLine(Escape(v))
  {
    EscapedIsPrinted(v);
    PrintedOneLine(v);
    if !NeedsQuotes(v) {
      forall i | 0 <= i < |v| ensures !IsBreak(v[i]) {
        assert !Quotable(v[i]);
      }
    }
  }

  function DecodedKeys(order: seq<string>, m: map<string, string>): map<string, string> {
    map k | k in order && k in m :: Decoded(m[k])
  }

  lemma DecodedExtend(order: seq<string>, k: string, m: map<string, string>)
    ensures DecodedKeys(order + [k], m) ==
            if k in m then DecodedKeys(order, m)[k := Decoded(m[k])] else DecodedKeys(order, m)
  {
  }

  lemma ReadLinesAppend(lines: seq<string>, text: string)
    ensures ReadLines(lines + [text]) == WithLine(ReadLines(lines), ParseLine(text))
  {
    assert (lines + [text])[..|lines|] == lines;
  }

  /** A file without exotic breaks reads back as its decoded values. */
  lemma {:induction false} KeyLinesRead(header: seq<string>, order: seq<string>, m: map<string, string>)
    requires HeaderOk(header) && KeysOk(order)
    ensures ReadLines(header + KeyLines(order, m)) == DecodedKeys(order, m)
  {
    if order == [] {
      assert header + KeyLines(order, m) == header;
      HeaderReads(header);
    } else {
      var k, rest := order[|order| - 1], order[..|order| - 1];
      KeyLinesRead(header, rest, m);
      DecodedExtend(rest, k, m);
      assert order == rest + [k];
      if k in m {
        LineReads(k, m[k]);
        ReadLinesAppend(header + KeyLines(rest, m), k + "=" + Escape(m[k]));
        Assoc(header, KeyLines(rest, m), [k + "=" + Escape(m[k])]);
      } else {
        assert KeyLines(rest, m) + [] == KeyLines(rest, m);
      }
    }
  }

  lemma {:induction false} HeaderReads(header: seq<string>)
    requires forall i :: 0 <= i < |header| ==> header[i] == [] || header[i][0] == '#'
    ensures ReadLines(header) == map[]
  {
    if header != [] {
      HeaderReads(header[..|header| - 1]);
      var line := header[|header| - 1];
      if line != [] {
        StripRightKeepsHead(line);
      }
    }
  }

  lemma {:induction false} KeyLinesOneLine(order: seq<string>, m: map<string, string>)
    requires KeysOk(order) && forall k | k in m :: NoExotic(m[k])
    ensures forall i :: 0 <= i < |KeyLines(order, m)| ==> OneLine(KeyLines(order, m)[i])
  {
    if order != [] {
      var k := order[|order| - 1];
      KeyLinesOneLine(order[..|order| - 1], m);
      if k in m {
        EscapeOneLine(m[k]);
        assert OneLine(k + "=" + Escape(m[k]));
      }
    }
  }

  lemma RenderReads(header: seq<string>, order: seq<string>, m: map<string, string>)
    requires HeaderOk(header) && KeysOk(order)
    requires forall k | k in m :: k in order && NoExotic(m[k])
    ensures ReadEnv(Some(Render(header, order, m))) == map k | k in m :: Decoded(m[k])
  {
    KeyLinesOneLine(order, m);
    JoinSplits(header + KeyLines(order, m));
    KeyLinesRead(header, order, m);
  }

  // ---------------------------------------------------------------- what can be read at all

  lemma {:induction false} LinesAreOneLine(line: string, text: string)
    requires OneLine(line)
    ensures forall i :: 0 <= i < |SplitLines(line, text)| ==> OneLine(SplitLines(line, text)[i])
    decreases |text|
  {
    if text == [] {
    } else if text[0] == '\r' && |text| > 1 && text[1] == '\n' {
      LinesAreOneLine([], text[2..]);
    } else if IsBreak(text[0]) {
      LinesAreOneLine([], text[1..]);
    } else {
      LinesAreOneLine(line + [text[0]], text[1..]);
    }
  }

  lemma {:induction false} ReplacePairKeeps(s: string, a: char, b: char, c: char)
    requires NoExotic(s) && !IsExoticBreak(c)
    ensures NoExotic(ReplacePair(s, a, b, c))
  {
    if s == [] {
    } else if |s| > 1 && s[0] == a && s[1] == b {
      ReplacePairKeeps(s[2..], a, b, c);
    } else {
      ReplacePairKeeps(s[1..], a, b, c);
    }
  }

  lemma ValueKeeps(raw: string)
    requires NoExotic(raw)
    ensures NoExotic(Value(raw))
  {
    if |raw| >= 2 {
      var s := raw[1..|raw| - 1];
      ReplacePairKeeps(s, '\\', 'n', '\n');
      var s1 := ReplacePair(s, '\\', 'n', '\n');
      ReplacePairKeeps(s1, '\\', 'r', '\r');
      var s2 := ReplacePair(s1, '\\', 'r', '\r');
      ReplacePairKeeps(s2, '\\', '"', '"');
      ReplacePairKeeps(ReplacePair(s2, '\\', '"', '"'), '\\', '\\', '\\');
    }
  }

  lemma StripKeeps(s: string)
    requires NoExotic(s)
    ensures NoExotic(Strip(s))
  {
    StripTakes(s);
    forall i | 0 <= i < |Strip(s)| ensures !IsExoticBreak(Strip(s)[i]) {
      assert Strip(s)[i] in s;
    }
  }

  lemma {:induction false} ReadLinesKeep(lines: seq<string>)
    requires forall i :: 0 <= i < |lines| ==> OneLine(lines[i])
    ensures forall k | k in ReadLines(lines) :: NoExotic(ReadLines(lines)[k])
  {
    if lines != [] {
      ReadLinesKeep(lines[..|lines| - 1]);
      var text := lines[|lines| - 1];
      StripKeeps(text);
      var line := Strip(text);
      var i := Find(line, '=');
      if 0 < i < |line| {
        StripKeeps(line[i + 1..]);
        ValueKeeps(Strip(line[i + 1..]));
      }
    }
  }

  /** No file gives a value that holds a vertical tab, form feed or other exotic break. */
  lemma NoExoticValueIsRead(file: Option<string>)
    ensures forall k | k in ReadEnv(file) :: NoExotic(ReadEnv(file)[k])
  {
    if file.Some? {
      LinesAreOneLine([], file.value);
      ReadLinesKeep(SplitLines([], file.value));
    }
  }

  /** Whatever was in the file, and whatever values are written: the values read back as they were
      written if and only if each of them is one that reads back. */
  lemma WrittenReadsIff(header: seq<string>, order: seq<string>, file: Option<string>, vars: map<string, string>,
                        merge: bool)
    requires HeaderOk(header) && KeysOk(order)
    ensures var m := Merged(file, vars, order, merge);
            ReadEnv(Some(Render(header, order, m))) == m <==> forall k | k in m :: ReadsBack(m[k])
  {
    var m := Merged(file, vars, order, merge);
    var read := ReadEnv(Some(Render(header, order, m)));
    NoExoticValueIsRead(Some(Render(header, order, m)));
    if forall k | k in m :: NoExotic(m[k]) {
      RenderReads(header, order, m);
      forall k | k in m ensures read[k] == m[k] <==> ReadsBack(m[k]) {
        DecodedIff(m[k]);
      }
    }
  }

  /** The same for the keys that are written in fact. */
  lemma SafeKeysReadIff(header: seq<string>, file: Option<string>, vars: map<string, string>, merge: bool)
    requires HeaderOk(header)
    ensures var m := Merged(file, vars, SAFE_KEYS, merge);
            ReadEnv(Some(Render(header, SAFE_KEYS, m))) == m <==> forall k | k in m :: ReadsBack(m[k])
  {
    SafeKeysOk();
    WrittenReadsIff(header, SAFE_KEYS, file, vars, merge);
  }

  /** A new value that is not blank. */
  predicate IsNew(vars: map<string, string>, k: string) {
    k in vars && Strip(vars[k]) != []
  }

  /** What a write is for, in terms of what is read from the file before and after it: a safe key with
      a new value has that value, stripped; any other safe key is as it was in the old file if that is
      merged, and absent if not; no other key is there. */
  predicate Current(read: map<string, string>, old': map<string, string>, vars: map<string, string>, safe: seq<string>,
                    merge: bool)
  {
    && (forall k :: k in safe && IsNew(vars, k) ==> k in read && read[k] == Strip(vars[k]))
    && (forall k :: k in safe && !IsNew(vars, k) ==>
          (k in read <==> merge && k in old') && (k in read ==> read[k] == old'[k]))
    && (forall k :: k in read ==> k in safe)
  }

  /** Every value that is to be in the file is one that reads back. */
  predicate AllReadBack(old': map<string, string>, vars: map<string, string>, safe: seq<string>, merge: bool) {
    && (forall k :: k in safe && IsNew(vars, k) ==> ReadsBack(Strip(vars[k])))
    && (forall k :: k in safe && !IsNew(vars, k) && merge && k in old' ==> ReadsBack(old'[k]))
  }

  lemma CurrentIsMerged(read: map<string, string>, file: Option<string>, vars: map<string, string>, safe: seq<string>,
                        merge: bool)
    ensures Current(read, ReadEnv(file), vars, safe, merge) <==> read == Merged(file, vars, safe, merge)
  {
    var m := Merged(file, vars, safe, merge);
    if Current(read, ReadEnv(file), vars, safe, merge) {
      forall k ensures (k in read <==> k in m) && (k in read ==> read[k] == m[k]) {
      }
    }
  }

  /** The file reads as it should if and only if every value that is to be in it reads back. */
  lemma WrittenIsCurrentIff(header: seq<string>, order: seq<string>, file: Option<string>, vars: map<string, string>,
                            merge: bool, text: string)
    requires HeaderOk(header) && KeysOk(order) && text == Render(header, order, Merged(file, vars, order, merge))
    ensures Current(ReadEnv(Some(text)), ReadEnv(file), vars, order, merge) <==>
            AllReadBack(ReadEnv(file), vars, order, merge)
  {
    var m := Merged(file, vars, order, merge);
    WrittenReadsIff(header, order, file, vars, merge);
    CurrentIsMerged(ReadEnv(Some(text)), file, vars, order, merge);
    if forall k | k in m :: ReadsBack(m[k]) {
      forall k | k in order && IsNew(vars, k) ensures ReadsBack(Strip(vars[k])) {
        assert k in m && m[k] == Strip(vars[k]);
      }
    }
  }

  /** A second write with nothing new then leaves the file as it is. */
  lemma RewriteIsStable(header: seq<string>, order: seq<string>, m: map<string, string>)
    requires HeaderOk(header) && KeysOk(order)
    requires forall k | k in m :: k in order && ReadsBack(m[k])
    ensures var text := Render(header, order, m);
            Render(header, order, Merged(Some(text), map[], order, true)) == text
  {
    RenderReads(header, order, m);
    forall k | k in m ensures Decoded(m[k]) == m[k] {
      DecodedIff(m[k]);
    }
    assert ReadEnv(Some(Render(header, order, m))) == m;
    assert Merged(Some(Render(header, order, m)), map[], order, true) == m;
  }

  // ---------------------------------------------------------------- the loops

  lemma KeyLine(text: string, i: nat)
    requires var line := Strip(text); line != [] && line[0] != '#' && i == Find(line, '=') && 0 < i < |line|
    ensures var line := Strip(text); ParseLine(text) == Some((Strip(line[..i]), Value(Strip(line[i + 1..]))))
  {
  }

  /** What the loop has read of the lines. */
  predicate ReadUpTo(lines: seq<string>, n: nat, out: map<string, string>) {
    n <= |lines| && out == ReadLines(lines[..n])
  }

  lemma NextLine(lines: seq<string>, n: nat, out: map<string, string>)
    requires n < |lines| && ReadUpTo(lines, n, out)
    ensures ReadUpTo(lines, n + 1, WithLine(out, ParseLine(lines[n])))
  {
    ReadLinesAppend(lines[..n], lines[n]);
    assert lines[..n] + [lines[n]] == lines[..n + 1];
  }

  method ReadEnvFile(file: Option<string>) returns (out: map<string, string>)
    ensures out == ReadEnv(file)
  {
    out := map[];
    if file.None? {
      return;
    }
    var lines := SplitLines([], file.value);
    for n := 0 to |lines|
      invariant ReadUpTo(lines, n, out)
    {
      NextLine(lines, n, out);
      var line := Strip(lines[n]);
      if line == [] || line[0] == '#' {
        continue;
      }
      var i := Find(line, '=');
      if i <= 0 || i >= |line| {
        continue;
      }
      var key := Strip(line[..i]);
      var raw := Strip(line[i + 1..]);
      KeyLine(lines[n], i);
      if |raw| >= 2 && raw[0] == '"' && raw[|raw| - 1] == '"' {
        raw := Unescaped(raw[1..|raw| - 1]);
      }
      out := out[key := raw];
    }
    assert lines[..|lines|] == lines;
  }

  method WriteEnvFile(header: seq<string>, order: seq<string>, file: Option<string>, vars: map<string, string>,
                      merge: bool)
      returns (text: string)
    ensures text == Render(header, order, Merged(file, vars, order, merge))
    ensures HeaderOk(header) && KeysOk(order) ==>
              (Current(ReadEnv(Some(text)), ReadEnv(file), vars, order, merge) <==>
               AllReadBack(ReadEnv(file), vars, order, merge))
  {
    var existing := map[];
    if merge {
      existing := ReadEnvFile(file);
    }
    existing := map k | k in existing && k in order :: existing[k];
    var safe := map k | k in vars && k in order && Strip(vars[k]) != [] :: Strip(vars[k]);
    existing := existing + safe;
    var lines := header;
    for n := 0 to |order|
      invariant lines == header + KeyLines(order[..n], existing)
    {
      assert order[..n + 1][..n] == order[..n];
      var k := order[n];
      if k in existing {
        lines := lines + [k + "=" + Escape(existing[k])];
      }
    }
    assert order[..|order|] == order;
    text := Join("\n", lines) + "\n";
    if HeaderOk(header) && KeysOk(order) {
      WrittenIsCurrentIff(header, order, file, vars, merge, text);
    }
  }
}

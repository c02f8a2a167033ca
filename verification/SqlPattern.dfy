/** The INSERT patterns as languages: which statements they match, and into which groups. */
module SqlPattern {
  import opened Text
  import opened SqlPlaceholders
  import opened SqlInsert

  // ---------------------------------------------------------------- the languages

  /** A letter of a keyword, ignoring case as `re.IGNORECASE` does. */
  predicate Letter(c: char, capital: char) {
    || c == capital
    || ('a' <= c <= 'z' && c as int - 'a' as int == capital as int - 'A' as int)
    || (capital == 'S' && c == '\U{17F}')
    || (capital == 'I' && (c == '\U{130}' || c == '\U{131}'))
    || (capital == 'K' && c == '\U{212A}')
  }

  predicate Spells(w: string, word: string) {
    |w| == |word| && forall i :: 0 <= i < |w| ==> Letter(w[i], word[i])
  }

  /** `word\s+` for each word in turn, and nothing else. */
  predicate IsKeywords(words: seq<string>, w: string) {
    if words == [] then w == []
    else exists n :: |words[0]| < n <= |w| && FirstWord(words[0], w, n) && IsKeywords(words[1..], w[n..])
  }

  predicate FirstWord(word: string, w: string, n: nat) {
    |word| < n <= |w| && Spells(w[..|word|], word) && AllSpace(w[|word|..n])
  }

  /** `^\s*` and then the keywords. */
  predicate IsHead(words: seq<string>, w: string) {
    exists n :: 0 <= n <= |w| && AllSpace(w[..n]) && IsKeywords(words, w[n..])
  }

  /** `\s*\(`. */
  predicate IsGap(w: string) {
    w != [] && AllSpace(w[..|w| - 1]) && w[|w| - 1] == '('
  }

  /** `\)\s*VALUES\s*\(`. */
  predicate IsMid(w: string) {
    w != [] && w[0] == ')' && exists n :: 1 <= n && n + 6 <= |w| && ValuesAt(w, n)
  }

  predicate ValuesAt(w: string, n: nat)
    requires 1 <= n && n + 6 <= |w|
  {
    AllSpace(w[1..n]) && Spells(w[n..n + 6], "VALUES") && IsGap(w[n + 6..])
  }

  predicate IsTable(w: string) {
    w != [] && forall i :: 0 <= i < |w| ==> IsTableChar(w[i])
  }

  /** The statement is the groups with what the pattern wants around them. */
  predicate IsMatch(s: string, g: Groups) {
    && s == g.Text()
    && IsHead(ReplaceWords, g.head) && IsTable(g.table) && IsGap(g.gap) && IsMid(g.body.mid)
  }

  // ---------------------------------------------------------------- words and gaps

  lemma SpellsIff(w: string, word: string)
    requires IsWord(word)
    ensures Spells(w, word) <==> |w| == |word| && forall i :: 0 <= i < |w| ==> Fold(w[i]) == word[i]
  {
    if |w| == |word| {
      forall i | 0 <= i < |w| ensures Letter(w[i], word[i]) <==> Fold(w[i]) == word[i] {
      }
    }
  }

  lemma HasWordIff(word: string, s: string)
    requires IsWord(word)
    ensures HasWord(word, s) <==> |word| <= |s| && Spells(s[..|word|], word)
  {
    if |word| <= |s| {
      SpellsIff(s[..|word|], word);
      if Spells(s[..|word|], word) {
        forall i | 0 <= i < |word| ensures Fold(s[i]) == word[i] {
          assert s[..|word|][i] == s[i];
        }
      }
    }
  }

  lemma {:induction false} SpacesAre(p: string, rest: string)
    requires AllSpace(p) && (rest == [] || !IsSpace(rest[0]))
    ensures Spaces(p + rest) == |p|
  {
    if p == [] {
      assert p + rest == rest;
    } else {
      assert (p + rest)[1..] == p[1..] + rest;
      SpacesAre(p[1..], rest);
    }
  }

  lemma {:induction false} SpacesEnd(s: string)
    ensures AllSpace(s[..Spaces(s)])
    ensures Spaces(s) == |s| || !IsSpace(s[Spaces(s)])
  {
    if s != [] && IsSpace(s[0]) {
      SpacesEnd(s[1..]);
      assert s[..Spaces(s)] == [s[0]] + s[1..][..Spaces(s[1..])];
    }
  }

  predicate StartsBlack(s: string) {
    s == [] || !IsSpace(s[0])
  }

  predicate RealWords(words: seq<string>) {
    forall i :: 0 <= i < |words| ==> IsWord(words[i]) && words[i] != []
  }

  lemma KeywordsStartBlack(words: seq<string>, w: string, rest: string)
    requires RealWords(words) && IsKeywords(words, w) && StartsBlack(rest)
    ensures StartsBlack(w + rest)
  {
    if words != [] {
      var n :| |words[0]| < n <= |w| && FirstWord(words[0], w, n) && IsKeywords(words[1..], w[n..]);
      assert Letter(w[..|words[0]|][0], words[0][0]);
      assert (w + rest)[0] == w[0];
    } else {
      assert w + rest == rest;
    }
  }

  lemma Ahead(word: string, a: string, tail: string)
    requires IsWord(word) && Spells(a, word)
    ensures HasWord(word, a + tail)
  {
    SpellsIff(a, word);
    forall i | 0 <= i < |word| ensures Fold((a + tail)[i]) == word[i] {
      assert (a + tail)[i] == a[i];
    }
  }

  lemma TwoParts(a: string, b: string)
    ensures (a + b)[..|a|] == a && (a + b)[|a|..] == b
  {
  }

  lemma KeywordIs(word: string, a: string, b: string, tail: string)
    requires IsWord(word) && Spells(a, word) && b != [] && AllSpace(b) && StartsBlack(tail)
    ensures Is(Keyword(word, (a + b) + tail), |a + b|)
  {
    Assoc(a, b, tail);
    Ahead(word, a, b + tail);
    TwoParts(a, b + tail);
    SpacesAre(b, tail);
  }

  predicate Is(n: Option<nat>, m: nat) {
    n.Some? && n.value == m
  }

  lemma NextWord(words: seq<string>, s: string, n: nat, m: nat)
    requires words != [] && n <= |s| && Is(Keyword(words[0], s), n) && Is(Keywords(words[1..], s[n..]), m)
    ensures Is(Keywords(words, s), n + m)
  {
  }

  lemma ThreeParts(w: string, k: nat, n: nat)
    requires k <= n <= |w|
    ensures w == (w[..k] + w[k..n]) + w[n..]
  {
  }

  lemma NextKeyword(words: seq<string>, ab: string, c: string, rest: string)
    requires words != [] && Is(Keyword(words[0], ab + (c + rest)), |ab|) && Is(Keywords(words[1..], c + rest), |c|)
    ensures Is(Keywords(words, (ab + c) + rest), |ab + c|)
  {
    Assoc(ab, c, rest);
    TwoParts(ab, c + rest);
    NextWord(words, (ab + c) + rest, |ab|, |c|);
  }

  lemma ThreeAssoc(a: string, b: string, c: string, rest: string)
    ensures (a + (b + c)) + rest == a + (b + (c + rest))
  {
  }

  lemma {:induction false} KeywordsComplete(words: seq<string>, w: string, rest: string)
    requires RealWords(words) && IsKeywords(words, w) && StartsBlack(rest)
    ensures Is(Keywords(words, w + rest), |w|)
  {
    if words != [] {
      var n :| |words[0]| < n <= |w| && FirstWord(words[0], w, n) && IsKeywords(words[1..], w[n..]);
      var a, b, c := w[..|words[0]|], w[|words[0]|..n], w[n..];
      ThreeParts(w, |words[0]|, n);
      KeywordsStartBlack(words[1..], c, rest);
      KeywordsComplete(words[1..], c, rest);
      KeywordIs(words[0], a, b, c + rest);
      NextKeyword(words, a + b, c, rest);
    }
  }

  lemma KeywordSound(word: string, s: string)
    requires IsWord(word) && Keyword(word, s).Some?
    ensures var n := Keyword(word, s).value; FirstWord(word, s, n) && StartsBlack(s[n..])
  {
    HasWordIff(word, s);
    SpacesEnd(s[|word|..]);
    var n := Keyword(word, s).value;
    assert s[|word|..][..n - |word|] == s[|word|..n];
  }

  lemma FirstWordOf(word: string, s: string, n: nat, m: nat)
    requires n <= m <= |s| && FirstWord(word, s, n)
    ensures FirstWord(word, s[..m], n) && s[..m][n..] == s[n..][..m - n]
  {
    assert s[..m][..|word|] == s[..|word|] && s[..m][|word|..n] == s[|word|..n];
  }

  lemma OneWordMore(words: seq<string>, w: string, n: nat)
    requires words != [] && FirstWord(words[0], w, n) && IsKeywords(words[1..], w[n..])
    ensures IsKeywords(words, w)
  {
  }

  lemma KeywordsUnfold(words: seq<string>, s: string, m: nat) returns (n: nat)
    requires words != [] && Is(Keywords(words, s), m)
    ensures n <= m <= |s| && Is(Keyword(words[0], s), n) && Is(Keywords(words[1..], s[n..]), m - n)
  {
    n := Keyword(words[0], s).value;
  }

  lemma {:induction false} KeywordsSound(words: seq<string>, s: string, m: nat)
    requires RealWords(words) && Is(Keywords(words, s), m)
    ensures m <= |s| && IsKeywords(words, s[..m]) && (words != [] ==> StartsBlack(s[m..]))
  {
    if words != [] {
      var n := KeywordsUnfold(words, s, m);
      KeywordSound(words[0], s);
      KeywordsSound(words[1..], s[n..], m - n);
      FirstWordOf(words[0], s, n, m);
      OneWordMore(words, s[..m], n);
      assert s[n..][m - n..] == s[m..];
    }
  }

  lemma WordsAreReal()
    ensures RealWords(IgnoreWords) && RealWords(ReplaceWords)
  {
  }

  lemma PrefixOfParts(words: seq<string>, b: string, c: string, rest: string)
    requires AllSpace(b) && StartsBlack(c + rest) && Is(Keywords(words, c + rest), |c|)
    ensures Is(Prefix(words, (b + c) + rest), |b + c|)
  {
    Assoc(b, c, rest);
    SpacesAre(b, c + rest);
    TwoParts(b, c + rest);
  }

  lemma PrefixComplete(words: seq<string>, w: string, rest: string)
    requires RealWords(words) && words != [] && IsHead(words, w) && StartsBlack(rest)
    ensures Is(Prefix(words, w + rest), |w|)
  {
    var n :| 0 <= n <= |w| && AllSpace(w[..n]) && IsKeywords(words, w[n..]);
    var b, c := w[..n], w[n..];
    CutAt(w, n);
    KeywordsStartBlack(words, c, rest);
    KeywordsComplete(words, c, rest);
    PrefixOfParts(words, b, c, rest);
  }

  lemma PrefixSound(words: seq<string>, s: string)
    requires RealWords(words) && words != [] && Prefix(words, s).Some?
    ensures var n := Prefix(words, s).value; IsHead(words, s[..n]) && StartsBlack(s[n..])
  {
    var k, m := Spaces(s), Prefix(words, s).value;
    SpacesEnd(s);
    KeywordsSound(words, s[k..], m - k);
    HeadOf(words, s, k, m);
    assert s[k..][m - k..] == s[m..];
  }

  lemma HeadOf(words: seq<string>, s: string, k: nat, m: nat)
    requires k <= m <= |s| && AllSpace(s[..k]) && IsKeywords(words, s[k..][..m - k])
    ensures IsHead(words, s[..m])
  {
    assert s[..m][..k] == s[..k] && s[..m][k..] == s[k..][..m - k];
  }

  // ---------------------------------------------------------------- INSERT OR IGNORE

  /** A statement that begins with INSERT OR IGNORE INTO, in any case and spacing, becomes the INSERT
      of the same rest that does nothing on a conflict. */
  lemma IgnoreIsPlainInsert(head: string, rest: string)
    requires IsHead(IgnoreWords, head) && StartsBlack(rest)
    ensures InsertOrIgnore(head + rest) == "INSERT INTO " + rest + " ON CONFLICT DO NOTHING"
  {
    WordsAreReal();
    PrefixComplete(IgnoreWords, head, rest);
    assert (head + rest)[|head|..] == rest;
  }

  // ---------------------------------------------------------------- the body

  lemma GapComplete(w: string, rest: string)
    requires IsGap(w)
    ensures Gap(w + rest) == Some(|w|)
  {
    var n := |w| - 1;
    assert w + rest == w[..n] + (['('] + rest);
    SpacesAre(w[..n], ['('] + rest);
  }

  lemma GapSound(s: string)
    requires Gap(s).Some?
    ensures IsGap(s[..Gap(s).value])
  {
    var k := Spaces(s);
    SpacesEnd(s);
    assert s[..k + 1][..k] == s[..k];
  }

  lemma MidStep(a: string, v: string, tail: string)
    requires AllSpace(a) && Spells(v, "VALUES")
    ensures Mid([')'] + (a + (v + tail))) == Plus(1 + |a| + 6, Gap(tail))
  {
    var s, after := [')'] + (a + (v + tail)), v + tail;
    assert s[1..] == a + after && s[1 + |a|..] == after && s[1 + |a| + 6..] == tail;
    assert Letter(v[0], 'V') && after[0] == v[0];
    SpacesAre(a, after);
    assert after[..6] == v;
    HasWordIff("VALUES", after);
  }

  lemma MidParts(w: string, n: nat)
    requires 1 <= n && n + 6 <= |w| && w[0] == ')'
    ensures w == [')'] + (w[1..n] + (w[n..n + 6] + w[n + 6..]))
  {
  }

  lemma MidOfParts(a: string, v: string, gap: string, rest: string)
    requires AllSpace(a) && Spells(v, "VALUES") && IsGap(gap)
    ensures Mid(([')'] + (a + (v + gap))) + rest) == Some(|[')'] + (a + (v + gap))|)
  {
    GapComplete(gap, rest);
    MidStep(a, v, gap + rest);
    ThreeAssoc(a, v, gap, rest);
    Assoc([')'], a + (v + gap), rest);
  }

  lemma MidComplete(w: string, rest: string)
    requires IsMid(w)
    ensures Mid(w + rest) == Some(|w|)
  {
    var n :| 1 <= n && n + 6 <= |w| && ValuesAt(w, n);
    MidParts(w, n);
    MidOfParts(w[1..n], w[n..n + 6], w[n + 6..], rest);
  }

  lemma MidSlices(s: string, n: nat, m: nat)
    requires 1 <= n && n + 6 <= m <= |s|
    ensures s[..m][1..n] == s[1..][..n - 1] && s[..m][n..n + 6] == s[n..][..6]
    ensures s[..m][n + 6..] == s[n + 6..][..m - n - 6]
  {
  }

  lemma MidSound(s: string)
    requires Mid(s).Some?
    ensures IsMid(s[..Mid(s).value])
  {
    var n, m := 1 + Spaces(s[1..]), Mid(s).value;
    SpacesEnd(s[1..]);
    HasWordIff("VALUES", s[n..]);
    GapSound(s[n + 6..]);
    MidSlices(s, n, m);
    assert ValuesAt(s[..m], n);
  }

  lemma {:induction false} ColumnsEndIsFirst(s: string, e: nat)
    requires e <= |s| && Mid(s[e..]).Some?
    ensures ColumnsEnd(s) <= e && Mid(s[ColumnsEnd(s)..]).Some?
  {
    assert s[0..] == s;
    if Mid(s).None? {
      assert s[1..][e - 1..] == s[e..];
      ColumnsEndIsFirst(s[1..], e - 1);
      assert s[1..][ColumnsEnd(s[1..])..] == s[ColumnsEnd(s)..];
    }
  }

  lemma BodyComplete(b: Body)
    requires IsMid(b.mid)
    ensures var m := MatchBody(b.Text());
            && m.Some? && |m.value.columns| <= |b.columns|
            && (|m.value.columns| == |b.columns| ==> m.value == b)
  {
    var s, rest := b.Text(), b.mid + (b.values + ")");
    TwoParts(b.columns, rest);
    MidComplete(b.mid, b.values + ")");
    ColumnsEndIsFirst(s, |b.columns|);
    EndsInParen(s, ColumnsEnd(s), Mid(s[ColumnsEnd(s)..]).value);
    if ColumnsEnd(s) == |b.columns| {
      SameColumns(b);
    }
  }

  lemma SameColumns(b: Body)
    requires Mid(b.mid + (b.values + ")")) == Some(|b.mid|) && ColumnsEnd(b.Text()) == |b.columns|
    ensures MatchBody(b.Text()) == Some(b)
  {
    TwoParts(b.columns, b.mid + (b.values + ")"));
    TwoParts(b.mid, b.values + ")");
    TwoParts(b.values, ")");
  }

  lemma EndsInParen(s: string, e: nat, n: nat)
    requires s != [] && s[|s| - 1] == ')' && e <= |s| && Mid(s[e..]) == Some(n)
    ensures var rest := s[e..][n..]; rest != [] && rest[|rest| - 1] == ')'
  {
    MidSound(s[e..]);
    var w := s[e..][..n];
    assert w[n - 1] == '(' by {
      var k :| 1 <= k && k + 6 <= |w| && ValuesAt(w, k);
      assert w[k + 6..][|w| - k - 7] == w[|w| - 1];
    }
    assert s[e..][n - 1] == '(' && s[|s| - 1] == s[e..][|s| - e - 1];
  }

  lemma BodySound(s: string, b: Body)
    requires MatchBody(s) == Some(b)
    ensures IsMid(b.mid)
  {
    MidSound(s[ColumnsEnd(s)..]);
  }

  // ---------------------------------------------------------------- INSERT OR REPLACE

  lemma {:induction false} TableRunIs(t: string, rest: string)
    requires (forall i :: 0 <= i < |t| ==> IsTableChar(t[i])) && (rest == [] || !IsTableChar(rest[0]))
    ensures TableRun(t + rest) == |t|
  {
    if t == [] {
      assert t + rest == rest;
    } else {
      assert (t + rest)[1..] == t[1..] + rest;
      TableRunIs(t[1..], rest);
    }
  }

  lemma {:induction false} TableRunTakes(s: string)
    ensures forall i :: 0 <= i < TableRun(s) ==> IsTableChar(s[i])
  {
    if s != [] && IsTableChar(s[0]) {
      TableRunTakes(s[1..]);
    }
  }

  /** The groups of a statement, given those of its body. */
  function WithBody(head: string, table: string, gap: string, body: Option<Body>): Option<Groups> {
    if body.None? then None else Some(Groups(head, table, gap, body.value))
  }

  lemma TableStep(head: string, t: string, rest: string)
    requires IsTable(t) && rest != [] && !IsTableChar(rest[0])
    ensures var n := Gap(rest);
            MatchTable(head, t + rest) ==
            if n.None? then None else WithBody(head, t, rest[..n.value], MatchBody(rest[n.value..]))
  {
    TableRunIs(t, rest);
    assert (t + rest)[..|t|] == t && (t + rest)[|t|..] == rest;
  }

  lemma TableComplete(g: Groups)
    requires IsTable(g.table) && IsGap(g.gap) && IsMid(g.body.mid)
    ensures var m := MatchTable(g.head, g.table + (g.gap + g.body.Text()));
            && m.Some? && |m.value.body.columns| <= |g.body.columns|
            && (|m.value.body.columns| == |g.body.columns| ==> m.value == g)
  {
    var rest := g.gap + g.body.Text();
    assert !IsTableChar(rest[0]) by {
      if |g.gap| > 1 {
        assert IsSpace(g.gap[..|g.gap| - 1][0]);
      }
    }
    TableStep(g.head, g.table, rest);
    GapComplete(g.gap, g.body.Text());
    TwoParts(g.gap, g.body.Text());
    BodyComplete(g.body);
  }

  lemma TableSound(head: string, s: string, g: Groups)
    requires MatchTable(head, s) == Some(g)
    ensures IsTable(g.table) && IsGap(g.gap) && IsMid(g.body.mid) && g.head == head
  {
    TableRunTakes(s);
    var t := TableRun(s);
    forall i | 0 <= i < t ensures IsTableChar(s[..t][i]) {
      assert s[..t][i] == s[i];
    }
    GapSound(s[t..]);
    BodySound(s[t..][Gap(s[t..]).value..], g.body);
  }

  lemma MatchComplete(s: string, g: Groups)
    requires IsMatch(s, g)
    ensures var m := MatchAfter(ReplaceWords, s);
            && m.Some? && |m.value.body.columns| <= |g.body.columns|
            && (|m.value.body.columns| == |g.body.columns| ==> m.value == g)
  {
    var rest := g.table + (g.gap + g.body.Text());
    WordsAreReal();
    assert IsTableChar(g.table[0]) && rest[0] == g.table[0];
    PrefixComplete(ReplaceWords, g.head, rest);
    assert s == g.head + rest && s[..|g.head|] == g.head && s[|g.head|..] == rest;
    TableComplete(g);
  }

  lemma MatchSound(s: string, g: Groups)
    requires MatchAfter(ReplaceWords, s) == Some(g)
    ensures IsMatch(s, g)
  {
    WordLists();
    WordsAreReal();
    MatchAfterIsTheText(ReplaceWords, s, g);
    PrefixSound(ReplaceWords, s);
    var h := Prefix(ReplaceWords, s).value;
    TableSound(s[..h], s[h..], g);
  }

  /** The match of INSERT OR REPLACE: the stripped statement is the groups in what the pattern wants
      around them, and no other such reading of it has shorter columns. */
  lemma MatchIff(sql: string, g: Groups)
    ensures MatchReplace(sql) == Some(g) <==>
            IsMatch(Strip(sql), g)
            && forall g' :: IsMatch(Strip(sql), g') ==> |g.body.columns| <= |g'.body.columns|
  {
    var s := Strip(sql);
    if MatchReplace(sql) == Some(g) {
      MatchSound(s, g);
      forall g' | IsMatch(s, g') ensures |g.body.columns| <= |g'.body.columns| {
        MatchComplete(s, g');
      }
    }
    if IsMatch(s, g) && forall g' :: IsMatch(s, g') ==> |g.body.columns| <= |g'.body.columns| {
      MatchComplete(s, g);
      MatchSound(s, MatchAfter(ReplaceWords, s).value);
    }
  }

  /** A statement that has such a reading at all is matched. */
  lemma MatchedIff(sql: string)
    ensures MatchReplace(sql).Some? <==> exists g :: IsMatch(Strip(sql), g)
  {
    if MatchReplace(sql).Some? {
      MatchSound(Strip(sql), MatchReplace(sql).value);
    }
    if exists g :: IsMatch(Strip(sql), g) {
      var g :| IsMatch(Strip(sql), g);
      MatchComplete(Strip(sql), g);
    }
  }

  // ---------------------------------------------------------------- names

  predicate IsQuote(c: char) {
    c == '"' || c == '\''
  }

  predicate AllQuotes(w: string) {
    forall i :: 0 <= i < |w| ==> IsQuote(w[i])
  }

  predicate Bare(w: string) {
    w == [] || (!IsQuote(w[0]) && !IsQuote(w[|w| - 1]))
  }

  /** Of a name between quotes the quotes go, however many there are, and nothing else. */
  lemma {:induction false} UnquoteIs(q: string, name: string, q': string)
    requires AllQuotes(q) && AllQuotes(q') && Bare(name)
    ensures Unquote(q + (name + q')) == name
    decreases |q| + |q'|
  {
    var s := q + (name + q');
    if q != [] {
      assert s[1..] == q[1..] + (name + q');
      UnquoteIs(q[1..], name, q');
    } else if name == [] {
      assert s == q' && q' == q' + ([] + []);
      if q' != [] {
        assert q'[1..] == q'[1..] + ([] + []);
        UnquoteIs(q'[1..], [], []);
        assert s[1..] == q'[1..];
      }
    } else if q' != [] {
      assert s[..|s| - 1] == q + (name + q'[..|q'| - 1]) && s[|s| - 1] == q'[|q'| - 1];
      UnquoteIs(q, name, q'[..|q'| - 1]);
    } else {
      assert s == name;
    }
  }

  /** A list is cut at every comma and nowhere else. */
  lemma {:induction false} CommasCut(s: string)
    ensures Join(",", SplitComma(s)) == s
    ensures forall i :: 0 <= i < |SplitComma(s)| ==> ',' !in SplitComma(s)[i]
  {
    if s != [] {
      var rest := SplitComma(s[1..]);
      CommasCut(s[1..]);
      assert s == [s[0]] + s[1..];
      if s[0] == ',' {
        JoinAfterComma(rest);
      } else {
        JoinLonger([s[0]], rest);
      }
    }
  }

  lemma JoinAfterComma(parts: seq<string>)
    requires parts != []
    ensures Join(",", [[]] + parts) == "," + Join(",", parts)
  {
    assert ([[]] + parts)[1..] == parts;
  }

  lemma JoinLonger(a: string, parts: seq<string>)
    requires parts != []
    ensures Join(",", [a + parts[0]] + parts[1..]) == a + Join(",", parts)
  {
    assert ([a + parts[0]] + parts[1..])[1..] == parts[1..];
    if |parts| > 1 {
      ThreeAssoc([], a, parts[0] + ",", Join(",", parts[1..]));
      Assoc(a, parts[0] + ",", Join(",", parts[1..]));
      Assoc(a, parts[0], ",");
    }
  }

  /** The column names are the parts of the list without outer whitespace, and then without quotes. */
  lemma {:induction false} ColumnNameIs(parts: seq<string>, i: nat, p: string, q: string, name: string, q': string,
                                        p': string)
    requires i < |parts| && parts[i] == p + ((q + (name + q')) + p')
    requires AllSpace(p) && AllSpace(p') && AllQuotes(q) && AllQuotes(q') && Bare(name) && Stripped(q + (name + q'))
    ensures |CleanNames(parts)| == |parts| && CleanNames(parts)[i] == name
  {
    if i == 0 {
      StripPadding(p, q + (name + q'), p');
      UnquoteIs(q, name, q');
      if |parts| > 1 {
        CleanNamesLength(parts[1..]);
      }
    } else {
      ColumnNameIs(parts[1..], i - 1, p, q, name, q', p');
    }
  }

  lemma {:induction false} CleanNamesLength(parts: seq<string>)
    ensures |CleanNames(parts)| == |parts|
  {
    if parts != [] {
      CleanNamesLength(parts[1..]);
    }
  }
}

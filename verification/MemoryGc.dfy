/** Archiving and pruning an agent's memory lists. A write of a file happens whole or fails. */
module MemoryGc {
  import opened Text

  /** The list in the live file and the list in this month's archive file. */
  datatype Memory<T> = Memory(live: seq<T>, archive: seq<T>)

  /** Which reads and writes of a pass succeed. A failed read of the archive is passed over. */
  datatype Luck = Luck(readLive: bool, readArchive: bool, writeArchive: bool, writeLive: bool)

  /** What a pass reports. */
  datatype Report = Report(archived: nat, pruned: nat, errors: nat)

  /** How many items are over the cap; a cap of zero or less switches the pass off. */
  function Excess<T>(m: Memory<T>, max: int): nat {
    if max > 0 && |m.live| > max then |m.live| - max else 0
  }

  /** `_archive_and_prune_json`. */
  function Pass<T>(m: Memory<T>, max: int, luck: Luck): Memory<T> {
    var k := Excess(m, max);
    if k == 0 || !luck.readLive || !luck.writeArchive then m
    else
      var archive := (if luck.readArchive then m.archive else []) + m.live[..k];
      Memory(if luck.writeLive then m.live[k..] else m.live, archive)
  }

  /** The same with its two writes in place. */
  method ArchiveAndPrune<T>(m: Memory<T>, max: int, luck: Luck) returns (after: Memory<T>, report: Report)
    ensures after == Pass(m, max, luck)
    ensures var k := Excess(m, max);
            && report.archived == (if luck.readLive && luck.writeArchive then k else 0)
            && report.pruned == (if luck.readLive && luck.writeArchive && luck.writeLive then k else 0)
            && report.errors ==
               (if max > 0 && (!luck.readLive || (k > 0 && !(luck.writeArchive && luck.writeLive))) then 1 else 0)
  {
    after, report := m, Report(0, 0, 0);
    if max <= 0 {
      return;
    }
    if !luck.readLive {
      report := Report(0, 0, 1);
      return;
    }
    var items := m.live;
    if |items| <= max {
      return;
    }
    var toArchive, toKeep := items[..|items| - max], items[|items| - max..];
    var existing := [];
    if luck.readArchive {
      existing := m.archive;
    }
    existing := existing + toArchive;
    if !luck.writeArchive {
      report := Report(0, 0, 1);
      return;
    }
    after := after.(archive := existing);
    if !luck.writeLive {
      report := Report(|toArchive|, 0, 1);
      return;
    }
    after := after.(live := toKeep);
    report := Report(|toArchive|, |toArchive|, 0);
  }

  // ---------------------------------------------------------------- one pass

  /** A pass whose archive could not be read but could be written. */
  predicate Overwrites<T>(m: Memory<T>, max: int, luck: Luck) {
    Excess(m, max) > 0 && luck.readLive && !luck.readArchive && luck.writeArchive && m.archive != []
  }

  /** A pass that archives without pruning. */
  predicate Doubles<T>(m: Memory<T>, max: int, luck: Luck) {
    Excess(m, max) > 0 && luck.readLive && luck.writeArchive && !luck.writeLive
  }

  /** A pass keeps what was archived, in place, if and only if it does not write over an archive that
      it could not read, or writes the very same items there. */
  lemma KeepsArchiveIff<T>(m: Memory<T>, max: int, luck: Luck)
    ensures m.archive <= Pass(m, max, luck).archive <==>
            !Overwrites(m, max, luck) || m.archive <= m.live[..Excess(m, max)]
  {
  }

  /** A pass keeps archive and live list as one list if and only if it neither overwrites nor doubles,
      or overwrites an archive with an equal one and does not prune. */
  lemma ConservesIff<T>(m: Memory<T>, max: int, luck: Luck)
    ensures var m' := Pass(m, max, luck);
            m'.archive + m'.live == m.archive + m.live <==>
            || (!Overwrites(m, max, luck) && !Doubles(m, max, luck))
            || (Overwrites(m, max, luck) && Doubles(m, max, luck) && m.archive == m.live[..Excess(m, max)])
  {
    var m', k := Pass(m, max, luck), Excess(m, max);
    Moved(m.archive, m.live, k);
    if Overwrites(m, max, luck) {
      Moved([], m.live, k);
      assert m'.archive == [] + m.live[..k];
      assert !Doubles(m, max, luck) ==> |m'.archive + m'.live| == |m.live|;
      assert Doubles(m, max, luck) ==> m'.archive + m'.live == m.live[..k] + m.live;
      SameFront(m.live[..k], m.archive, m.live);
    } else if Doubles(m, max, luck) {
      assert |m'.archive + m'.live| == |m.archive + m.live| + k;
    }
  }

  lemma SameFront<T>(a: seq<T>, b: seq<T>, rest: seq<T>)
    ensures a + rest == b + rest <==> a == b
  {
    if a + rest == b + rest {
      assert |a + rest| == |b + rest|;
      assert a == (a + rest)[..|a|] && b == (b + rest)[..|b|];
    }
  }

  lemma Moved<T>(archive: seq<T>, live: seq<T>, k: nat)
    requires k <= |live|
    ensures archive + live[..k] + live[k..] == archive + live
  {
    assert live[..k] + live[k..] == live;
  }

  // ---------------------------------------------------------------- runs in one month

  datatype Op<T> = Append(item: T) | Collect(max: int, luck: Luck)

  function Apply<T>(m: Memory<T>, op: Op<T>): Memory<T> {
    match op
    case Append(item) => m.(live := m.live + [item])
    case Collect(max, luck) => Pass(m, max, luck)
  }

  function Run<T>(ops: seq<Op<T>>): Memory<T> {
    if ops == [] then Memory([], []) else Apply(Run(ops[..|ops| - 1]), ops[|ops| - 1])
  }

  /** Everything that was ever appended. */
  function History<T>(ops: seq<Op<T>>): seq<T> {
    if ops == [] then []
    else
      var last := ops[|ops| - 1];
      History(ops[..|ops| - 1]) + (if last.Append? then [last.item] else [])
  }

  predicate NeverOverwrites<T>(ops: seq<Op<T>>) {
    ops == [] ||
    var last := ops[|ops| - 1];
    NeverOverwrites(ops[..|ops| - 1])
    && (last.Collect? ==> !Overwrites(Run(ops[..|ops| - 1]), last.max, last.luck))
  }

  /** How many items were archived by passes that then could not prune them. */
  function Doubled<T>(ops: seq<Op<T>>): nat {
    if ops == [] then 0
    else
      var m, last := Run(ops[..|ops| - 1]), ops[|ops| - 1];
      Doubled(ops[..|ops| - 1])
      + (if last.Collect? && Doubles(m, last.max, last.luck) then Excess(m, last.max) else 0)
  }

  /** Over any run that never writes over an unread archive, whatever reads and writes fail: the live
      list is the end of the history, everything before it is archived, and the lists hold as many
      items as the history and the doubled ones together. */
  lemma {:induction false} LosesNothing<T>(ops: seq<Op<T>>) returns (p: nat)
    requires NeverOverwrites(ops)
    ensures var m, all := Run(ops), History(ops);
            && p <= |all| && m.live == all[p..]
            && (forall i :: 0 <= i < p ==> all[i] in m.archive)
            && |m.archive| + |m.live| == |all| + Doubled(ops)
  {
    p := 0;
    if ops != [] {
      var n := |ops| - 1;
      var m, all, last := Run(ops[..n]), History(ops[..n]), ops[n];
      p := LosesNothing(ops[..n]);
      match last {
        case Append(item) =>
          assert (all + [item])[p..] == all[p..] + [item];
          forall i | 0 <= i < p ensures (all + [item])[i] in m.archive {
            assert (all + [item])[i] == all[i];
          }
        case Collect(max, luck) =>
          assert History(ops) == all;
          p := PassLosesNothing(m, all, p, max, luck);
      }
    }
  }

  lemma PassLosesNothing<T>(m: Memory<T>, all: seq<T>, p: nat, max: int, luck: Luck) returns (q: nat)
    requires !Overwrites(m, max, luck) && p <= |all| && m.live == all[p..]
    requires forall i :: 0 <= i < p ==> all[i] in m.archive
    ensures var m' := Pass(m, max, luck);
            && q <= |all| && m'.live == all[q..] && (forall i :: 0 <= i < q ==> all[i] in m'.archive)
            && |m'.archive| + |m'.live| ==
               |m.archive| + |m.live| + (if Doubles(m, max, luck) then Excess(m, max) else 0)
  {
    var m', k := Pass(m, max, luck), Excess(m, max);
    q := if m'.live == m.live then p else p + k;
    if k > 0 && luck.readLive && luck.writeArchive {
      assert m'.archive == m.archive + m.live[..k];
      forall i | 0 <= i < p + k ensures all[i] in m'.archive {
        if i >= p {
          assert all[i] == m.live[..k][i - p];
        }
      }
      assert all[p..][k..] == all[p + k..];
    }
  }

  /** Archive and live list, read one after the other, are the history if and only if no pass
      archived what it could not prune. */
  lemma {:induction false} ConservedIff<T>(ops: seq<Op<T>>)
    requires NeverOverwrites(ops)
    ensures Run(ops).archive + Run(ops).live == History(ops) <==> Doubled(ops) == 0
  {
    var p := LosesNothing(ops);
    if Doubled(ops) == 0 {
      Conserved(ops);
    } else {
      assert |Run(ops).archive + Run(ops).live| > |History(ops)|;
    }
  }

  lemma {:induction false} Conserved<T>(ops: seq<Op<T>>)
    requires NeverOverwrites(ops) && Doubled(ops) == 0
    ensures Run(ops).archive + Run(ops).live == History(ops)
  {
    if ops != [] {
      var n := |ops| - 1;
      var m := Run(ops[..n]);
      Conserved(ops[..n]);
      match ops[n] {
        case Append(item) =>
          Assoc(m.archive, m.live, [item]);
        case Collect(max, luck) =>
          Moved(m.archive, m.live, Excess(m, max));
          assert History(ops) == History(ops[..n]);
      }
    }
  }

  /** After a pass whose reads and writes succeed the live list is within the cap. */
  lemma WithinCap<T>(m: Memory<T>, max: int, luck: Luck)
    requires max > 0
    ensures |Pass(m, max, luck).live| <= max <==>
            |m.live| <= max || (luck.readLive && luck.writeArchive && luck.writeLive)
  {
  }

  /** What the pass does, in the words of its comment: a list over the cap is split, its newest `max`
      items stay and those before them are archived in order; nothing else changes. */
  lemma PassLeavesNewest<T>(m: Memory<T>, max: int, luck: Luck)
    ensures var m' := Pass(m, max, luck);
            if max > 0 && |m.live| > max && luck.readLive && luck.writeArchive && luck.writeLive then
              exists gone: seq<T> :: m.live == gone + m'.live && |m'.live| == max
                                    && m'.archive == (if luck.readArchive then m.archive + gone else gone)
            else m'.live == m.live
    ensures max <= 0 || |m.live| <= max || !luck.readLive || !luck.writeArchive ==> Pass(m, max, luck) == m
  {
    var k, m' := Excess(m, max), Pass(m, max, luck);
    if max > 0 && |m.live| > max && luck.readLive && luck.writeArchive && luck.writeLive {
      assert m.live == m.live[..k] + m'.live;
      assert [] + m.live[..k] == m.live[..k];
    }
  }

  // ---------------------------------------------------------------- posts past their time

  /** `posts.json` and this month's summaries. */
  datatype Posts<T> = Posts(posts: seq<T>, summaries: seq<string>)

  function Select<T>(posts: seq<T>, expired: T -> bool, wanted: bool): seq<T> {
    if posts == [] then []
    else
      var last := posts[|posts| - 1];
      Select(posts[..|posts| - 1], expired, wanted) + (if expired(last) == wanted then [last] else [])
  }

  /** Each part holds what it is for, and nothing else. */
  lemma {:induction false} SelectTakes<T>(posts: seq<T>, expired: T -> bool, wanted: bool)
    ensures forall p :: p in Select(posts, expired, wanted) <==> p in posts && expired(p) == wanted
  {
    if posts != [] {
      var n := |posts| - 1;
      SelectTakes(posts[..n], expired, wanted);
      assert posts == posts[..n] + [posts[n]];
    }
  }

  /** `part` is a part of `all`, in the same order. */
  ghost predicate InOrder<T>(part: seq<T>, all: seq<T>)
    decreases |all|
  {
    part == [] ||
    (all != [] &&
     (InOrder(part, Front(all)) || (Last(part) == Last(all) && InOrder(Front(part), Front(all)))))
  }

  function Front<T>(s: seq<T>): seq<T>
    requires s != []
  {
    s[..|s| - 1]
  }

  function Last<T>(s: seq<T>): T
    requires s != []
  {
    s[|s| - 1]
  }

  lemma {:induction false} SelectInOrder<T>(posts: seq<T>, expired: T -> bool, wanted: bool)
    ensures InOrder(Select(posts, expired, wanted), posts)
  {
    if posts != [] {
      SelectInOrder(Front(posts), expired, wanted);
      var before, part := Select(Front(posts), expired, wanted), Select(posts, expired, wanted);
      if expired(Last(posts)) == wanted {
        assert part == before + [Last(posts)] && Front(part) == before;
      } else {
        assert part == before;
      }
    }
  }

  /** With nothing selected, everything is left. */
  lemma {:induction false} SelectAll<T>(posts: seq<T>, expired: T -> bool)
    ensures Select(posts, expired, true) == [] ==> Select(posts, expired, false) == posts
  {
    if posts != [] {
      SelectAll(posts[..|posts| - 1], expired);
      assert posts == posts[..|posts| - 1] + [posts[|posts| - 1]];
    }
  }

  function Summaries<T>(posts: seq<T>, summary: T -> string): seq<string> {
    if posts == [] then []
    else Summaries(posts[..|posts| - 1], summary) + [summary(posts[|posts| - 1])]
  }

  lemma {:induction false} SummaryAt<T>(posts: seq<T>, summary: T -> string, i: nat)
    requires i < |posts|
    ensures |Summaries(posts, summary)| == |posts| && Summaries(posts, summary)[i] == summary(posts[i])
  {
    if |posts| > 1 {
      SummaryAt(posts[..|posts| - 1], summary, if i < |posts| - 1 then i else 0);
    }
  }

  predicate Expired(date: Option<int>, cutoff: int) {
    date.Some? && date.value < cutoff
  }

  /** What expires before `cutoff`; a post without a date never does. */
  function ExpiredAt<T>(date: T -> Option<int>, cutoff: int): T -> bool {
    (post: T) => Expired(date(post), cutoff)
  }

  /** The files after `_ttl_prune_posts`. */
  function Pruned<T>(s: Posts<T>, expired: T -> bool, summary: T -> string, summarize: bool, luck: Luck): Posts<T> {
    var out := Select(s.posts, expired, true);
    if !luck.readLive || out == [] then s
    else Posts(
      if luck.writeLive then Select(s.posts, expired, false) else s.posts,
      if summarize && luck.writeArchive
      then (if luck.readArchive then s.summaries else []) + Summaries(out, summary) else s.summaries)
  }

  lemma {:induction false} PartByDate<T>(posts: seq<T>, date: T -> Option<int>, cutoff: int, wanted: bool, p: T)
    requires p in Select(posts, ExpiredAt(date, cutoff), wanted)
    ensures p in posts && Expired(date(p), cutoff) == wanted
  {
    SelectTakes(posts, ExpiredAt(date, cutoff), wanted);
    assert ExpiredAt(date, cutoff)(p) == wanted;
  }

  /** The posts fall into those that stay and those that are dropped, by their dates, both in order. */
  lemma {:induction false} PartsByDate<T>(posts: seq<T>, date: T -> Option<int>, cutoff: int)
    ensures var kept := Select(posts, ExpiredAt(date, cutoff), false);
            && (forall p :: p in kept ==> p in posts && (date(p).None? || date(p).value >= cutoff))
            && InOrder(kept, posts)
    ensures var out := Select(posts, ExpiredAt(date, cutoff), true);
            && (forall p :: p in out ==> p in posts && date(p).Some? && date(p).value < cutoff)
            && InOrder(out, posts)
  {
    SelectInOrder(posts, ExpiredAt(date, cutoff), true);
    SelectInOrder(posts, ExpiredAt(date, cutoff), false);
    forall p | p in Select(posts, ExpiredAt(date, cutoff), false)
      ensures p in posts && (date(p).None? || date(p).value >= cutoff)
    {
      PartByDate(posts, date, cutoff, false, p);
    }
    forall p | p in Select(posts, ExpiredAt(date, cutoff), true)
      ensures p in posts && date(p).Some? && date(p).value < cutoff
    {
      PartByDate(posts, date, cutoff, true, p);
    }
  }

  lemma PrunedParts<T>(s: Posts<T>, expired: T -> bool, summary: T -> string, luck: Luck)
    requires luck.readLive && luck.readArchive && luck.writeArchive && luck.writeLive
    ensures var after, out := Pruned(s, expired, summary, true, luck), Select(s.posts, expired, true);
            && after.posts == Select(s.posts, expired, false)
            && after.summaries == s.summaries + Summaries(out, summary)
  {
    if Select(s.posts, expired, true) == [] {
      SelectAll(s.posts, expired);
      assert s.summaries + [] == s.summaries;
    }
  }

  /** `later` has one summary for each of the posts, in order, after those in `before`. */
  predicate Summarised<T>(before: seq<string>, later: seq<string>, posts: seq<T>, summary: T -> string) {
    && |later| == |before| + |posts| && before <= later
    && forall i :: 0 <= i < |posts| ==> later[|before| + i] == summary(posts[i])
  }

  lemma SummariesAppended<T>(before: seq<string>, posts: seq<T>, summary: T -> string)
    ensures Summarised(before, before + Summaries(posts, summary), posts, summary)
  {
    if posts != [] {
      SummaryAt(posts, summary, 0);
    }
    forall i | 0 <= i < |posts| ensures Summaries(posts, summary)[i] == summary(posts[i]) {
      SummaryAt(posts, summary, i);
    }
  }

  /** With every read and write successful: the posts that stay are exactly those without a date or
      not yet expired, the others are dropped, both in their order; and each dropped post has its
      summary, in that order, after the summaries of before. */
  lemma TtlKeepsRecent<T>(s: Posts<T>, date: T -> Option<int>, cutoff: int, summary: T -> string, luck: Luck)
      returns (out: seq<T>)
    requires luck.readLive && luck.readArchive && luck.writeArchive && luck.writeLive
    ensures var kept := Pruned(s, ExpiredAt(date, cutoff), summary, true, luck).posts;
            && (forall p :: p in kept ==> p in s.posts && (date(p).None? || date(p).value >= cutoff))
            && multiset(kept) + multiset(out) == multiset(s.posts) && InOrder(kept, s.posts)
    ensures (forall p :: p in out ==> p in s.posts && date(p).Some? && date(p).value < cutoff) && InOrder(out, s.posts)
    ensures Summarised(s.summaries, Pruned(s, ExpiredAt(date, cutoff), summary, true, luck).summaries, out, summary)
  {
    out := Select(s.posts, ExpiredAt(date, cutoff), true);
    PartsByDate(s.posts, date, cutoff);
    PrunedParts(s, ExpiredAt(date, cutoff), summary, luck);
    SelectParts(s.posts, ExpiredAt(date, cutoff));
    SummariesAppended(s.summaries, out, summary);
  }

  /** A post is dropped only once the posts could be read and written; no summary is lost but in a
      file of summaries that could not be read and is written over. */
  lemma TtlLosesNothing<T>(s: Posts<T>, expired: T -> bool, summary: T -> string, summarize: bool, luck: Luck)
    ensures var after := Pruned(s, expired, summary, summarize, luck);
            && (after.posts != s.posts ==> luck.readLive && luck.writeLive)
            && (!(s.summaries <= after.summaries) ==>
                  luck.readLive && summarize && !luck.readArchive && luck.writeArchive)
            && (!summarize ==> after.summaries == s.summaries)
  {
  }

  /** `_ttl_prune_posts`. */
  method TtlPrune<T>(s: Posts<T>, date: T -> Option<int>, cutoff: int, summary: T -> string, summarize: bool,
                     luck: Luck)
      returns (after: Posts<T>, dropped: nat)
    ensures after == Pruned(s, ExpiredAt(date, cutoff), summary, summarize, luck)
    ensures dropped + |after.posts| == |s.posts|
  {
    ghost var isExpired := ExpiredAt(date, cutoff);
    after, dropped := s, 0;
    if !luck.readLive {
      return;
    }
    var toKeep, expired := [], [];
    for i := 0 to |s.posts|
      invariant toKeep == Select(s.posts[..i], isExpired, false)
      invariant expired == Select(s.posts[..i], isExpired, true)
    {
      var post := s.posts[i];
      assert s.posts[..i + 1][..i] == s.posts[..i];
      var dt := date(post);
      if dt.None? {
        toKeep := toKeep + [post];
      } else if dt.value < cutoff {
        expired := expired + [post];
      } else {
        toKeep := toKeep + [post];
      }
    }
    assert s.posts[..|s.posts|] == s.posts;
    if expired == [] {
      return;
    }
    if summarize {
      var existing := [];
      if luck.readArchive {
        existing := s.summaries;
      }
      for i := 0 to |expired|
        invariant existing == (if luck.readArchive then s.summaries else []) + Summaries(expired[..i], summary)
      {
        assert expired[..i + 1][..i] == expired[..i];
        existing := existing + [summary(expired[i])];
      }
      assert expired[..|expired|] == expired;
      if luck.writeArchive {
        after := after.(summaries := existing);
      }
    }
    if luck.writeLive {
      SelectCounts(s.posts, isExpired);
      after := after.(posts := toKeep);
      dropped := |expired|;
    }
  }

  lemma SelectCounts<T>(posts: seq<T>, expired: T -> bool)
    ensures |Select(posts, expired, true)| + |Select(posts, expired, false)| == |posts|
  {
    SelectParts(posts, expired);
    assert |multiset(Select(posts, expired, true)) + multiset(Select(posts, expired, false))| == |multiset(posts)|;
  }

  /** The two parts are the posts, none lost and none twice. */
  lemma {:induction false} SelectParts<T>(posts: seq<T>, expired: T -> bool)
    ensures multiset(Select(posts, expired, true)) + multiset(Select(posts, expired, false)) == multiset(posts)
  {
    if posts != [] {
      var n := |posts| - 1;
      SelectParts(posts[..n], expired);
      assert posts == posts[..n] + [posts[n]];
    }
  }
}

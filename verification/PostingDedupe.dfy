/** The posting dedupe store: a dictionary pruned by age and capped by count on every save, and
    the unbounded history that it stands for. */
module PostingDedupe {
  import opened Text

  /** Times are microseconds; the text form of a time orders as the time does, and its first ten
      characters are its day. */
  const DAY: int := 86_400_000_000
  const MAX_AGE_DAYS: int := 7
  const MAX_KEYS: nat := 500

  function DayOf(at: int): int {
    at / DAY
  }

  function Cutoff(now: int): int {
    DayOf(now - MAX_AGE_DAYS * DAY)
  }

  datatype Entry = Entry(key: string, threadId: Option<string>, threadUrl: Option<string>, at: int)

  /** A dictionary in insertion order. */
  type Dict = seq<Entry>

  predicate DistinctKeys(d: Dict) {
    forall i, j :: 0 <= i < j < |d| ==> d[i].key != d[j].key
  }

  function Find(d: Dict, key: string): Option<Entry> {
    if d == [] then None else if d[0].key == key then Some(d[0]) else Find(d[1..], key)
  }

  /** `d[key] = ...`: in place for a key that is there, at the end for a new one. */
  function Put(d: Dict, e: Entry): Dict {
    if d == [] then [e] else if d[0].key == e.key then [e] + d[1..] else [d[0]] + Put(d[1..], e)
  }

  function Pop(d: Dict, key: string): Dict {
    if d == [] then [] else if d[0].key == key then d[1..] else [d[0]] + Pop(d[1..], key)
  }

  // ---------------------------------------------------------------- pruning

  /** The keys that are too old, in order. */
  function Expired(d: Dict, cutoff: int): seq<string> {
    if d == [] then []
    else (if DayOf(d[0].at) < cutoff then [d[0].key] else []) + Expired(d[1..], cutoff)
  }

  function PopAll(d: Dict, keys: seq<string>): Dict
    decreases |keys|
  {
    if keys == [] then d else PopAll(Pop(d, keys[0]), keys[1..])
  }

  /** `sorted(..., key=at)`: stable. */
  function InsertByTime(e: Entry, sorted: Dict): Dict {
    if sorted == [] || e.at <= sorted[0].at then [e] + sorted else [sorted[0]] + InsertByTime(e, sorted[1..])
  }

  function SortByTime(d: Dict): Dict {
    if d == [] then [] else InsertByTime(d[0], SortByTime(d[1..]))
  }

  function Keys(d: Dict): seq<string> {
    seq(|d|, i requires 0 <= i < |d| => d[i].key)
  }

  function Excess(d: Dict): seq<string> {
    if |d| > MAX_KEYS && |SortByTime(d)| == |d| then Keys(SortByTime(d)[..|d| - MAX_KEYS]) else []
  }

  function Prune(d: Dict, cutoff: int): Dict {
    var kept := PopAll(d, Expired(d, cutoff));
    PopAll(kept, Excess(kept))
  }

  /** An entry is too old for a save if and only if it is from before the day, in UTC, seven days ago. */
  lemma RecentIff(at: int, now: int, midnight: int)
    requires midnight % DAY == 0 && midnight <= now - 7 * DAY < midnight + DAY
    ensures DayOf(at) >= Cutoff(now) <==> at >= midnight
  {
  }

  // ---------------------------------------------------------------- dictionaries as sets

  function Entries(d: Dict): set<Entry> {
    set e | e in d
  }

  lemma {:induction false} FindFinds(d: Dict, key: string)
    ensures Find(d, key).Some? ==> Find(d, key).value in d && Find(d, key).value.key == key
    ensures Find(d, key).None? ==> forall e :: e in d ==> e.key != key
  {
    if d != [] && d[0].key != key {
      FindFinds(d[1..], key);
    }
  }

  lemma InDistinct(d: Dict, e: Entry, f: Entry)
    requires DistinctKeys(d) && e in d && f in d && e.key == f.key
    ensures e == f
  {
  }

  lemma {:induction false} PutEntries(d: Dict, e: Entry)
    requires DistinctKeys(d)
    ensures DistinctKeys(Put(d, e))
    ensures forall x :: x in Put(d, e) <==> x == e || (x in d && x.key != e.key)
  {
    if d == [] {
    } else if d[0].key == e.key {
      assert forall x :: x in d <==> x == d[0] || x in d[1..];
    } else {
      PutEntries(d[1..], e);
      assert forall x :: x in d <==> x == d[0] || x in d[1..];
    }
  }

  lemma {:induction false} PopEntries(d: Dict, key: string)
    requires DistinctKeys(d)
    ensures DistinctKeys(Pop(d, key))
    ensures forall x :: x in Pop(d, key) <==> x in d && x.key != key
  {
    if d == [] {
    } else if d[0].key == key {
      assert forall x :: x in d <==> x == d[0] || x in d[1..];
    } else {
      PopEntries(d[1..], key);
      assert forall x :: x in d <==> x == d[0] || x in d[1..];
    }
  }

  lemma {:induction false} PopAllEntries(d: Dict, keys: seq<string>)
    requires DistinctKeys(d)
    ensures DistinctKeys(PopAll(d, keys))
    ensures forall x :: x in PopAll(d, keys) <==> x in d && x.key !in keys
    decreases |keys|
  {
    if keys != [] {
      PopEntries(d, keys[0]);
      PopAllEntries(Pop(d, keys[0]), keys[1..]);
      assert forall k :: k in keys <==> k == keys[0] || k in keys[1..];
    }
  }

  lemma {:induction false} ExpiredKeys(d: Dict, cutoff: int)
    ensures forall k :: k in Expired(d, cutoff) <==> exists e :: e in d && e.key == k && DayOf(e.at) < cutoff
  {
    if d != [] {
      ExpiredKeys(d[1..], cutoff);
      assert forall x :: x in d <==> x == d[0] || x in d[1..];
    }
  }

  ghost function Recent(es: set<Entry>, cutoff: int): set<Entry> {
    set e | e in es && DayOf(e.at) >= cutoff
  }

  ghost function Newer(es: set<Entry>, at: int): set<Entry> {
    set e | e in es && e.at > at
  }

  /** The `n` newest entries: those that fewer than `n` entries are newer than. */
  ghost function Newest(es: set<Entry>, n: nat): set<Entry> {
    set e | e in es && |Newer(es, e.at)| < n
  }

  lemma AgePruned(d: Dict, cutoff: int)
    requires DistinctKeys(d)
    ensures DistinctKeys(PopAll(d, Expired(d, cutoff)))
    ensures Entries(PopAll(d, Expired(d, cutoff))) == Recent(Entries(d), cutoff)
  {
    PopAllEntries(d, Expired(d, cutoff));
    ExpiredKeys(d, cutoff);
    forall x | x in d ensures x.key in Expired(d, cutoff) <==> DayOf(x.at) < cutoff {
      if x.key in Expired(d, cutoff) {
        var e :| e in d && e.key == x.key && DayOf(e.at) < cutoff;
        InDistinct(d, e, x);
      }
    }
  }

  // ---------------------------------------------------------------- the cap

  predicate Sorted(s: Dict) {
    forall i, j :: 0 <= i < j < |s| ==> s[i].at <= s[j].at
  }

  lemma {:induction false} InsertTakes(e: Entry, s: Dict)
    ensures multiset(InsertByTime(e, s)) == multiset(s) + multiset{e}
    ensures forall x :: x in InsertByTime(e, s) <==> x == e || x in s
  {
    if s != [] && e.at > s[0].at {
      InsertTakes(e, s[1..]);
      assert s == [s[0]] + s[1..];
    }
  }

  lemma SortedCons(e: Entry, t: Dict)
    requires Sorted(t) && forall x :: x in t ==> e.at <= x.at
    ensures Sorted([e] + t)
  {
    forall i | 0 <= i < |t| ensures e.at <= t[i].at {
      assert t[i] in t;
    }
  }

  lemma {:induction false} InsertSorts(e: Entry, s: Dict)
    requires Sorted(s)
    ensures Sorted(InsertByTime(e, s))
  {
    if s == [] {
    } else if e.at > s[0].at {
      InsertSorts(e, s[1..]);
      InsertTakes(e, s[1..]);
      SortedCons(s[0], InsertByTime(e, s[1..]));
    } else {
      SortedCons(e, s);
    }
  }

  lemma {:induction false} SortSorts(d: Dict)
    ensures Sorted(SortByTime(d)) && multiset(SortByTime(d)) == multiset(d)
  {
    if d != [] {
      SortSorts(d[1..]);
      InsertSorts(d[0], SortByTime(d[1..]));
      InsertTakes(d[0], SortByTime(d[1..]));
      assert d == [d[0]] + d[1..];
    }
  }

  lemma SortKeepsAll(d: Dict)
    ensures |SortByTime(d)| == |d| && Entries(SortByTime(d)) == Entries(d)
  {
    SortSorts(d);
    assert |multiset(SortByTime(d))| == |SortByTime(d)| && |multiset(d)| == |d|;
    assert forall e :: e in d <==> e in multiset(d);
    assert forall e :: e in SortByTime(d) <==> e in multiset(SortByTime(d));
  }

  ghost predicate TimesDiffer(es: set<Entry>) {
    forall e, f :: e in es && f in es && e.at == f.at ==> e == f
  }

  lemma {:induction false} EntriesCount(d: Dict)
    requires DistinctKeys(d)
    ensures |Entries(d)| == |d|
  {
    if d != [] {
      EntriesCount(d[1..]);
      assert Entries(d) == {d[0]} + Entries(d[1..]);
      assert d[0] !in Entries(d[1..]);
    }
  }

  lemma {:induction false} DistinctIfCounted(d: Dict)
    requires |Entries(d)| == |d|
    ensures forall i, j :: 0 <= i < j < |d| ==> d[i] != d[j]
  {
    if d != [] {
      var last := |d| - 1;
      assert Entries(d) == Entries(d[..last]) + {d[last]};
      EntriesBound(d[..last]);
      DistinctIfCounted(d[..last]);
      assert d[last] !in Entries(d[..last]);
      forall i | 0 <= i < last ensures d[i] != d[last] {
        assert d[..last][i] in Entries(d[..last]);
      }
    }
  }

  lemma {:induction false} EntriesBound(d: Dict)
    ensures |Entries(d)| <= |d|
  {
    if d != [] {
      EntriesBound(d[1..]);
      assert Entries(d) == {d[0]} + Entries(d[1..]);
    }
  }

  /** In a strictly sorted list, the entries newer than the p-th are those after it. */
  lemma NewerAreAfter(s: Dict, p: nat)
    requires Sorted(s) && |Entries(s)| == |s| && TimesDiffer(Entries(s)) && p < |s|
    ensures |Newer(Entries(s), s[p].at)| == |s| - 1 - p
  {
    DistinctIfCounted(s);
    var after := s[p + 1..];
    forall i | 0 <= i < |s| ensures s[i].at > s[p].at <==> i > p {
      assert s[i] in Entries(s) && s[p] in Entries(s);
    }
    assert Newer(Entries(s), s[p].at) == Entries(after) by {
      forall e | e in Newer(Entries(s), s[p].at) ensures e in Entries(after) {
        var i :| 0 <= i < |s| && s[i] == e;
        assert after[i - p - 1] == e;
      }
    }
    CountDistinct(after);
  }

  lemma {:induction false} CountDistinct(d: Dict)
    requires forall i, j :: 0 <= i < j < |d| ==> d[i] != d[j]
    ensures |Entries(d)| == |d|
  {
    if d != [] {
      CountDistinct(d[1..]);
      assert Entries(d) == {d[0]} + Entries(d[1..]);
      assert d[0] !in Entries(d[1..]);
    }
  }

  lemma KeyInPrefix(s: Dict, n: nat, p: nat)
    requires n <= |s| && p < |s|
    requires forall i, j :: 0 <= i < j < |s| ==> s[i].key != s[j].key
    ensures s[p].key in Keys(s[..n]) <==> p < n
  {
    assert forall i :: 0 <= i < n ==> Keys(s[..n])[i] == s[i].key;
    if p < n {
      assert Keys(s[..n])[p] == s[p].key;
    }
  }

  lemma SortedIsDistinct(d: Dict)
    requires DistinctKeys(d)
    ensures DistinctKeys(SortByTime(d))
  {
    var s := SortByTime(d);
    SortKeepsAll(d);
    EntriesCount(d);
    DistinctIfCounted(s);
    forall i, j | 0 <= i < j < |s| ensures s[i].key != s[j].key {
      assert s[i] in Entries(s) && s[j] in Entries(s);
      assert s[i] in d && s[j] in d;
    }
  }

  /** The excess is what 500 entries or more are newer than. */
  lemma ExcessIsOldest(d: Dict, x: Entry)
    requires DistinctKeys(d) && TimesDiffer(Entries(d)) && x in d
    ensures x.key in Excess(d) <==> |Newer(Entries(d), x.at)| >= MAX_KEYS
  {
    var s := SortByTime(d);
    SortSorts(d);
    SortKeepsAll(d);
    EntriesCount(d);
    SortedIsDistinct(d);
    assert x in Entries(s);
    var p :| 0 <= p < |s| && s[p] == x;
    NewerAreAfter(s, p);
    if |d| > MAX_KEYS {
      KeyInPrefix(s, |d| - MAX_KEYS, p);
    }
  }

  lemma CapKeepsNewest(d: Dict)
    requires DistinctKeys(d) && TimesDiffer(Entries(d))
    ensures DistinctKeys(PopAll(d, Excess(d)))
    ensures Entries(PopAll(d, Excess(d))) == Newest(Entries(d), MAX_KEYS)
  {
    PopAllEntries(d, Excess(d));
    forall x | x in d ensures x.key !in Excess(d) <==> |Newer(Entries(d), x.at)| < MAX_KEYS {
      ExcessIsOldest(d, x);
    }
  }

  /** Pruning keeps exactly the newest entries among those that are recent enough. */
  lemma PruneKeepsNewestRecent(d: Dict, cutoff: int)
    requires DistinctKeys(d) && TimesDiffer(Entries(d))
    ensures DistinctKeys(Prune(d, cutoff))
    ensures Entries(Prune(d, cutoff)) == Newest(Recent(Entries(d), cutoff), MAX_KEYS)
  {
    AgePruned(d, cutoff);
    CapKeepsNewest(PopAll(d, Expired(d, cutoff)));
  }

  // ---------------------------------------------------------------- newest sets

  lemma NewerIsSmaller(es: set<Entry>, fs: set<Entry>, at: int)
    requires es <= fs
    ensures |Newer(es, at)| <= |Newer(fs, at)|
  {
    SubsetCount(Newer(es, at), Newer(fs, at));
  }

  lemma {:induction false} SubsetCount(x: set<Entry>, y: set<Entry>)
    requires x <= y
    ensures |x| <= |y|
  {
    assert y == x + (y - x);
  }

  lemma {:induction false} Oldest(es: set<Entry>) returns (m: Entry)
    requires es != {}
    ensures m in es && forall e :: e in es ==> m.at <= e.at
    decreases |es|
  {
    m :| m in es;
    if es != {m} {
      var r := Oldest(es - {m});
      if r.at < m.at {
        m := r;
      }
    }
  }

  lemma {:induction false} NewestCount(es: set<Entry>, n: nat)
    requires TimesDiffer(es) && |es| >= n
    ensures |Newest(es, n)| == n
    decreases |es|
  {
    if |es| == n {
      forall e | e in es ensures |Newer(es, e.at)| < n {
        SubsetCount(Newer(es, e.at), es - {e});
      }
      assert Newest(es, n) == es;
    } else {
      var m := Oldest(es);
      assert Newer(es, m.at) == es - {m};
      NewestCount(es - {m}, n);
      forall e | e in es - {m} ensures Newer(es, e.at) == Newer(es - {m}, e.at) {
      }
      assert Newest(es, n) == Newest(es - {m}, n);
    }
  }

  /** A set between the newest entries and all of them has the same newest entries. */
  lemma NewestOfBetween(all: set<Entry>, some: set<Entry>, n: nat)
    requires TimesDiffer(all) && Newest(all, n) <= some <= all
    ensures Newest(some, n) == Newest(all, n)
  {
    forall e | e in some ensures |Newer(some, e.at)| < n <==> |Newer(all, e.at)| < n {
      NewerIsSmaller(some, all, e.at);
      if |Newer(all, e.at)| >= n {
        SubsetCount(Newer(all, e.at), all);
        NewestCount(all, n);
        forall f | f in Newest(all, n) ensures f in Newer(some, e.at) {
          if f.at <= e.at {
            SubsetCount(Newer(all, e.at), Newer(all, f.at));
          }
        }
        SubsetCount(Newest(all, n), Newer(some, e.at));
      }
    }
  }

  // ---------------------------------------------------------------- the history

  /** A call to record_posted: what it records, when it prunes, and whether the file could be read
      and is written. */
  datatype Record = Record(entry: Entry, now: int, loaded: bool, saved: bool)

  /** A file that cannot be read is taken for an empty one. */
  function Loaded(d: Dict, loaded: bool): Dict {
    if loaded then d else []
  }

  /** The clock: record times strictly increase, and pruning happens no earlier than recording. */
  predicate Clocked(run: seq<Record>) {
    && (forall i :: 0 <= i < |run| ==> run[i].entry.at <= run[i].now)
    && (forall i, j :: 0 <= i < j < |run| ==> run[i].entry.at < run[j].entry.at && run[i].now <= run[j].now)
  }

  /** The store after a run from an empty file. */
  function Store(run: seq<Record>): Dict {
    if run == [] then []
    else
      var r := run[|run| - 1];
      var was := Store(run[..|run| - 1]);
      if r.saved then Prune(Put(Loaded(was, r.loaded), r.entry), Cutoff(r.now)) else was
  }

  /** The history: the records that were saved since a file that could not be read was last written
      over, the last one for each key, never pruned. */
  function History(run: seq<Record>): Dict {
    if run == [] then []
    else
      var r := run[|run| - 1];
      var was := History(run[..|run| - 1]);
      if r.saved then Put(Loaded(was, r.loaded), r.entry) else was
  }

  /** The cutoff of the latest save. */
  function LatestCutoff(run: seq<Record>): Option<int> {
    if run == [] then None
    else if run[|run| - 1].saved then Some(Cutoff(run[|run| - 1].now))
    else LatestCutoff(run[..|run| - 1])
  }

  ghost function Window(run: seq<Record>): set<Entry> {
    var es := Entries(History(run));
    if LatestCutoff(run).None? then {} else Newest(Recent(es, LatestCutoff(run).value), MAX_KEYS)
  }

  lemma {:induction false} HistoryIsPast(run: seq<Record>)
    requires Clocked(run)
    ensures DistinctKeys(History(run)) && TimesDiffer(Entries(History(run)))
    ensures forall e :: e in History(run) ==> exists i :: 0 <= i < |run| && run[i].entry == e
    ensures LatestCutoff(run).None? ==> History(run) == []
  {
    if run != [] {
      var n := |run| - 1;
      HistoryIsPast(run[..n]);
      PutEntries(Loaded(History(run[..n]), run[n].loaded), run[n].entry);
      forall e | e in History(run[..n]) ensures exists i :: 0 <= i < n && run[i].entry == e {
        var i :| 0 <= i < |run[..n]| && run[..n][i].entry == e;
        assert run[i].entry == e;
      }
    }
  }

  lemma {:induction false} CutoffsGrow(run: seq<Record>, now: int)
    requires forall i :: 0 <= i < |run| ==> run[i].now <= now
    ensures LatestCutoff(run).Some? ==> LatestCutoff(run).value <= Cutoff(now)
  {
    if run != [] && !run[|run| - 1].saved {
      CutoffsGrow(run[..|run| - 1], now);
    }
  }

  /** The entries with `e` in place of any other of its key. */
  ghost function Replaced(es: set<Entry>, e: Entry): set<Entry> {
    (set x | x in es && x.key != e.key) + {e}
  }

  /** A later cutoff and a newer record: what the bounded store keeps of itself is what it would
      keep of the whole history. */
  lemma WindowStep(h: set<Entry>, e: Entry, c: int, c': int)
    requires c <= c' && TimesDiffer(h) && (forall x :: x in h ==> x.at < e.at)
    requires forall x, y :: x in h && y in h && x.key == y.key ==> x == y
    ensures var kept := Newest(Recent(h, c), MAX_KEYS);
            Newest(Recent(Replaced(kept, e), c'), MAX_KEYS) == Newest(Recent(Replaced(h, e), c'), MAX_KEYS)
  {
    var kept := Newest(Recent(h, c), MAX_KEYS);
    var all, some := Replaced(h, e), Replaced(kept, e);
    forall x | x in Newest(Recent(all, c'), MAX_KEYS) ensures x in Recent(some, c') {
      if x != e {
        StillKept(h, e, x, c, c');
      }
    }
    NewestOfBetween(Recent(all, c'), Recent(some, c'), MAX_KEYS);
  }

  lemma AllButOne(es: set<Entry>, key: string)
    requires forall y, z :: y in es && z in es && y.key == z.key ==> y == z
    ensures |es| <= |set y | y in es && y.key != key| + 1
  {
    var same := set y | y in es && y.key != key;
    if y :| y in es && y.key == key {
      assert es == same + {y};
    } else {
      assert es == same;
    }
  }

  lemma StillKept(h: set<Entry>, e: Entry, x: Entry, c: int, c': int)
    requires c <= c' && (forall y :: y in h ==> y.at < e.at)
    requires forall y, z :: y in h && z in h && y.key == z.key ==> y == z
    requires x in h && x.key != e.key
    requires x in Newest(Recent(Replaced(h, e), c'), MAX_KEYS)
    ensures x in Newest(Recent(h, c), MAX_KEYS)
  {
    var all := Replaced(h, e);
    var before, after := Newer(Recent(h, c), x.at), Newer(Recent(all, c'), x.at);
    DaysGrow(x.at, e.at);
    assert e in after && e !in before;
    var same := set y | y in before && y.key != e.key;
    forall y | y in same ensures y in after - {e} {
      DaysGrow(x.at, y.at);
    }
    SubsetCount(same, after - {e});
    AllButOne(before, e.key);
  }

  lemma DaysGrow(a: int, b: int)
    requires a <= b
    ensures DayOf(a) <= DayOf(b)
  {
  }

  lemma PutReplaces(d: Dict, e: Entry)
    requires DistinctKeys(d)
    ensures DistinctKeys(Put(d, e)) && Entries(Put(d, e)) == Replaced(Entries(d), e)
  {
    PutEntries(d, e);
    assert Entries(Put(d, e)) == Replaced(Entries(d), e);
  }

  /** One save: what pruning keeps of the store is what it would keep of the history. */
  lemma SaveKeepsWindow(store: Dict, history: Dict, e: Entry, c: int, c': int)
    requires DistinctKeys(store) && DistinctKeys(history) && TimesDiffer(Entries(history))
    requires Entries(store) == Newest(Recent(Entries(history), c), MAX_KEYS)
    requires c <= c' && forall x :: x in history ==> x.at < e.at
    ensures DistinctKeys(Prune(Put(store, e), c'))
    ensures Entries(Prune(Put(store, e), c')) == Newest(Recent(Entries(Put(history, e)), c'), MAX_KEYS)
  {
    var h, kept := Entries(history), Entries(store);
    PutReplaces(store, e);
    PutReplaces(history, e);
    assert kept <= h;
    assert TimesDiffer(Replaced(kept, e));
    WindowStep(h, e, c, c');
    PruneKeepsNewestRecent(Put(store, e), c');
  }

  /** The store refines the simple history: after any run its entries are exactly the newest 500
      of the last record per key, among those from the latest cutoff day on. */
  lemma {:induction false} StoreIsWindow(run: seq<Record>)
    requires Clocked(run)
    ensures DistinctKeys(Store(run))
    ensures Entries(Store(run)) == Window(run)
  {
    if run != [] {
      var n := |run| - 1;
      var was, r := run[..n], run[n];
      StoreIsWindow(was);
      HistoryIsPast(was);
      if r.saved {
        CutoffsGrow(was, r.now);
        forall x | x in History(was) ensures x.at < r.entry.at {
          var i :| 0 <= i < |was| && was[i].entry == x;
          assert run[i].entry == x;
        }
        var c := if LatestCutoff(was).None? then Cutoff(r.now) else LatestCutoff(was).value;
        SaveKeepsWindow(Loaded(Store(was), r.loaded), Loaded(History(was), r.loaded), r.entry, c, Cutoff(r.now));
      }
    }
  }

  lemma WindowIfClocked(run: seq<Record>)
    ensures Clocked(run) ==> Entries(Store(run)) == Window(run)
  {
    if Clocked(run) {
      StoreIsWindow(run);
    }
  }

  lemma StoreAppend(run: seq<Record>, r: Record)
    ensures Store(run + [r]) ==
            if r.saved then Prune(Put(Loaded(Store(run), r.loaded), r.entry), Cutoff(r.now)) else Store(run)
  {
    assert (run + [r])[..|run|] == run;
  }

  // ---------------------------------------------------------------- check, then post

  predicate Truthy(s: Option<string>) {
    s.Some? && s.value != []
  }

  /** `check_already_posted` on the store's keys: the entry whose post the caller is given. */
  function Check(d: Dict, key: string): Option<Entry> {
    var e := Find(d, key);
    if e.Some? && (Truthy(e.value.threadId) || Truthy(e.value.threadUrl)) then e else None
  }

  /** The last record of its key, naming a thread, not too old, and with few enough keys since. */
  ghost predicate InWindow(run: seq<Record>, e: Entry) {
    && Find(History(run), e.key) == Some(e)
    && ((e.threadId.Some? && e.threadId.value != []) || (e.threadUrl.Some? && e.threadUrl.value != []))
    && LatestCutoff(run).Some? && DayOf(e.at) >= LatestCutoff(run).value
    && |Newer(Entries(History(run)), e.at)| < MAX_KEYS
  }

  /** A check finds a post if and only if it is the last record of its key, carries a thread id or
      url, is from the latest cutoff day or later, and fewer than 500 keys were recorded since. */
  lemma CheckFindsIff(run: seq<Record>, e: Entry)
    requires Clocked(run)
    ensures Check(Store(run), e.key) == Some(e) <==> InWindow(run, e)
  {
    StoreIsWindow(run);
    HistoryIsPast(run);
    FindIsMember(Store(run), e);
    FindIsMember(History(run), e);
    if LatestCutoff(run).Some? && DayOf(e.at) >= LatestCutoff(run).value {
      var h, c := Entries(History(run)), LatestCutoff(run).value;
      forall x | x in h && x.at > e.at ensures DayOf(x.at) >= c {
        DaysGrow(e.at, x.at);
      }
      assert Newer(Recent(h, c), e.at) == Newer(h, e.at);
    }
  }

  lemma FindIsMember(d: Dict, e: Entry)
    requires DistinctKeys(d)
    ensures Find(d, e.key) == Some(e) <==> e in Entries(d)
  {
    FindFinds(d, e.key);
    if e in d {
      InDistinct(d, e, Find(d, e.key).value);
    }
  }

  /** The key of a task, a date bucket and a content hash. */
  function MakeKey(task: string, bucket: string, hash: string): string {
    task + ":" + bucket + ":" + hash
  }

  /** Different posts have different keys, whatever colons the task id holds. */
  lemma KeysAreInjective(t: string, b: string, h: string, t': string, b': string, h': string)
    requires ':' !in b && ':' !in h && ':' !in b' && ':' !in h'
    requires MakeKey(t, b, h) == MakeKey(t', b', h')
    ensures t == t' && b == b' && h == h'
  {
    LastColon(t + ":" + b, h, t' + ":" + b', h');
    LastColon(t, b, t', b');
  }

  // ---------------------------------------------------------------- the file

  type Buckets = map<int, seq<string>>

  /** The buckets after a record: the key is added to the list of its bucket, and the lists from before
      the cutoff day are gone. */
  ghost predicate Bucketed(before: Buckets, after: Buckets, bucket: int, key: string, cutoff: int) {
    && (forall day :: day in after <==> (day in before || day == bucket) && day >= cutoff)
    && (forall day :: day in after && day != bucket ==> after[day] == before[day])
    && (bucket in after ==> after[bucket] == (if bucket in before then before[bucket] else []) + [key])
  }

  /** The session's dedupe file: the dictionary of keys and the lists of keys by date bucket. */
  class DedupeFile {
    var keys: Dict
    var byDate: Buckets
    ghost var history: seq<Record>

    /** The file holds what all records so far have left. */
    ghost predicate Valid()
      reads this
    {
      keys == Store(history)
    }

    constructor ()
      ensures Valid() && history == [] && byDate == map[]
    {
      keys, byDate, history := [], map[], [];
    }

    /** `_prune`, on data loaded from the file. */
    static method PruneData(keys: Dict, byDate: Buckets, now: int) returns (keys': Dict, byDate': Buckets)
      ensures keys' == Prune(keys, Cutoff(now))
      ensures forall day :: day in byDate' <==> day in byDate && day >= Cutoff(now)
      ensures forall day :: day in byDate' ==> byDate'[day] == byDate[day]
    {
      var cutoff := DayOf(now - MAX_AGE_DAYS * DAY);
      var toDrop := FindExpired(keys, cutoff);
      keys' := PopEach(keys, toDrop);
      byDate' := map d | d in byDate && d >= cutoff :: byDate[d];
      SortKeepsAll(keys');
      if |keys'| > MAX_KEYS {
        var byKey := SortByTime(keys');
        keys' := PopEach(keys', Keys(byKey[..|keys'| - MAX_KEYS]));
      }
    }

    static method FindExpired(keys: Dict, cutoff: int) returns (toDrop: seq<string>)
      ensures toDrop == Expired(keys, cutoff)
    {
      toDrop := [];
      for i := 0 to |keys|
        invariant Expired(keys, cutoff) == toDrop + Expired(keys[i..], cutoff)
      {
        assert keys[i..][1..] == keys[i + 1..];
        if DayOf(keys[i].at) < cutoff {
          toDrop := toDrop + [keys[i].key];
        }
      }
    }

    static method PopEach(d: Dict, drop: seq<string>) returns (d': Dict)
      ensures d' == PopAll(d, drop)
    {
      d' := d;
      for i := 0 to |drop|
        invariant PopAll(d', drop[i..]) == PopAll(d, drop)
      {
        assert drop[i..][1..] == drop[i + 1..];
        d' := Pop(d', drop[i]);
      }
    }

    /** `record_posted`. On a clock that rises the keys are then the window of all records so far. */
    method RecordPosted(bucket: int, r: Record)
      requires Valid()
      modifies this
      ensures Valid() && history == old(history) + [r]
      ensures Clocked(history) ==> Entries(keys) == Window(history)
      ensures r.saved ==> Bucketed(if r.loaded then old(byDate) else map[], byDate, bucket, r.entry.key, Cutoff(r.now))
      ensures !r.saved ==> byDate == old(byDate)
    {
      var data := Put(if r.loaded then keys else [], r.entry);
      var lists := if r.loaded then byDate else map[];
      var listed := if bucket in lists then lists[bucket] else [];
      var data', byDate' := PruneData(data, lists[bucket := listed + [r.entry.key]], r.now);
      if r.saved {
        keys, byDate := data', byDate';
      }
      StoreAppend(history, r);
      history := history + [r];
      WindowIfClocked(history);
    }

    /** `check_already_posted`: the caller is given a post if and only if the file can be read and the
        post is inside the window. */
    method CheckAlreadyPosted(key: string, loaded: bool) returns (e: Option<Entry>)
      requires Valid()
      ensures Clocked(history) ==> forall x: Entry :: e == Some(x) <==> loaded && x.key == key && InWindow(history, x)
    {
      if !loaded {
        return None;
      }
      e := Find(keys, key);
      if e.Some? && !Truthy(e.value.threadId) && !Truthy(e.value.threadUrl) {
        e := None;
      }
      assert e == Check(keys, key);
      if Clocked(history) {
        forall x: Entry ensures e == Some(x) <==> x.key == key && InWindow(history, x) {
          CheckFindsIff(history, x);
          CheckedKey(keys, key);
        }
      }
    }
  }

  lemma {:induction false} CheckedKey(d: Dict, key: string)
    ensures Find(d, key).Some? ==> Find(d, key).value.key == key
    ensures Check(d, key).Some? ==> Check(d, key).value.key == key
  {
    if d != [] {
      CheckedKey(d[1..], key);
    }
  }
}

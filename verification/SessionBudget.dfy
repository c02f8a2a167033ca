/** The wake payload of a session: merged rows, trimmed context and the token budget. */
module SessionBudget {

  /** A value of the memory files. A scalar is kept as the text that `str` gives it. */
  datatype Value =
    | Null
    | Text(text: string)
    | Scalar(shown: string)
    | List(items: seq<Value>)
    | Dict(entries: seq<Entry>)

  /** An item of a dictionary, in insertion order. */
  datatype Entry = Entry(key: string, value: Value)

  // ---------------------------------------------------------------- the estimate

  /** `_estimate_tokens`. */
  function Estimate(v: Value): nat {
    match v
    case Null => 0
    case Text(s) => if |s| / 4 >= 1 then |s| / 4 else 1
    case Scalar(s) => |s| / 4
    case List(items) => EstimateList(items)
    case Dict(entries) => EstimateDict(entries)
  }

  function EstimateList(items: seq<Value>): nat {
    if items == [] then 0 else Estimate(items[0]) + EstimateList(items[1..])
  }

  function EstimateDict(entries: seq<Entry>): nat {
    if entries == [] then 0 else Estimate(entries[0].value) + EstimateDict(entries[1..])
  }

  lemma {:induction false} SuffixIsSmaller(items: seq<Value>, k: nat)
    requires k <= |items|
    ensures EstimateList(items[k..]) <= EstimateList(items)
  {
    if k > 0 {
      assert items[1..][k - 1..] == items[k..];
      SuffixIsSmaller(items[1..], k - 1);
    } else {
      assert items[0..] == items;
    }
  }

  // ---------------------------------------------------------------- what an estimate counts

  /** Everything in the items, at any depth, that is no list and no dictionary, in order. */
  function Leaves(items: seq<Value>): seq<Value> {
    if items == [] then [] else LeavesOf(items[0]) + Leaves(items[1..])
  }

  function LeavesOf(v: Value): seq<Value> {
    match v
    case List(items) => Leaves(items)
    case Dict(entries) => LeavesIn(entries)
    case _ => [v]
  }

  function LeavesIn(entries: seq<Entry>): seq<Value> {
    if entries == [] then [] else LeavesOf(entries[0].value) + LeavesIn(entries[1..])
  }

  /** A leaf counts one token for every four whole characters it shows; a text counts at least one,
      and nothing counts none. */
  predicate CountsFourths(v: Value, tokens: nat) {
    match v
    case Text(s) => tokens >= 1 && |s| < 4 * tokens + 4 && (4 * tokens <= |s| || tokens == 1)
    case Scalar(s) => 4 * tokens <= |s| < 4 * tokens + 4
    case _ => tokens == 0
  }

  /** `total` is what the leaves count together. */
  predicate IsCountOf(leaves: seq<Value>, total: nat) {
    if leaves == [] then total == 0
    else exists tokens ::
           0 <= tokens <= total && CountsFourths(leaves[0], tokens) && IsCountOf(leaves[1..], total - tokens)
  }

  lemma {:induction false} CountOfBoth(a: seq<Value>, m: nat, b: seq<Value>, n: nat)
    requires IsCountOf(a, m) && IsCountOf(b, n)
    ensures IsCountOf(a + b, m + n)
  {
    if a == [] {
      assert a + b == b;
    } else {
      var tokens :| 0 <= tokens <= m && CountsFourths(a[0], tokens) && IsCountOf(a[1..], m - tokens);
      assert (a + b)[1..] == a[1..] + b;
      CountOfBoth(a[1..], m - tokens, b, n);
      assert CountsFourths((a + b)[0], tokens) && IsCountOf((a + b)[1..], m + n - tokens);
    }
  }

  lemma {:induction false} EstimateCounts(v: Value)
    ensures IsCountOf(LeavesOf(v), Estimate(v))
  {
    match v {
      case List(items) => EstimateListCounts(items);
      case Dict(entries) => EstimateDictCounts(entries);
      case _ =>
        assert [v][1..] == [];
        assert CountsFourths([v][0], Estimate(v)) && IsCountOf([v][1..], Estimate(v) - Estimate(v));
    }
  }

  lemma {:induction false} EstimateListCounts(items: seq<Value>)
    ensures IsCountOf(Leaves(items), EstimateList(items))
  {
    if items != [] {
      EstimateCounts(items[0]);
      EstimateListCounts(items[1..]);
      CountOfBoth(LeavesOf(items[0]), Estimate(items[0]), Leaves(items[1..]), EstimateList(items[1..]));
    }
  }

  /** The estimate of a dictionary is what its leaves count, at whatever depth they are; keys count
      nothing. */
  lemma {:induction false} EstimateDictCounts(entries: seq<Entry>)
    ensures IsCountOf(LeavesIn(entries), EstimateDict(entries))
  {
    if entries != [] {
      EstimateCounts(entries[0].value);
      EstimateDictCounts(entries[1..]);
      CountOfBoth(LeavesOf(entries[0].value), Estimate(entries[0].value),
                  LeavesIn(entries[1..]), EstimateDict(entries[1..]));
    }
  }

  lemma FourthsAreOne(v: Value, x: nat, y: nat)
    requires CountsFourths(v, x) && CountsFourths(v, y)
    ensures x == y
  {
  }

  /** Leaves count one thing only. */
  lemma {:induction false} CountIsOne(leaves: seq<Value>, m: nat, n: nat)
    requires IsCountOf(leaves, m) && IsCountOf(leaves, n)
    ensures m == n
  {
    if leaves != [] {
      var x :| 0 <= x <= m && CountsFourths(leaves[0], x) && IsCountOf(leaves[1..], m - x);
      var y :| 0 <= y <= n && CountsFourths(leaves[0], y) && IsCountOf(leaves[1..], n - y);
      FourthsAreOne(leaves[0], x, y);
      CountIsOne(leaves[1..], m - x, n - y);
    }
  }

  // ---------------------------------------------------------------- trimming

  /** `items[-m:]` of a list longer than `m`. */
  function Newest<T>(items: seq<T>, m: nat): seq<T> {
    if |items| > m then items[|items| - m..] else items
  }

  /** `_trim_context_list_fields`: lists directly in a dictionary, at any depth of dictionaries. */
  function Trim(entries: seq<Entry>, m: nat): seq<Entry> {
    if entries == [] then []
    else [Entry(entries[0].key, TrimValue(entries[0].value, m))] + Trim(entries[1..], m)
  }

  function TrimValue(v: Value, m: nat): Value {
    match v
    case List(items) => List(Newest(items, m))
    case Dict(entries) => Dict(Trim(entries, m))
    case _ => v
  }

  function Min(m: nat, n: nat): nat {
    if m < n then m else n
  }

  /** What a trim promises, between the dictionary and what is left of it: the same keys in the same
      order; of every list field, at any depth of dictionaries, the last `m` items; and everything
      else, lists inside lists included, as it was. */
  predicate IsTrimmed(entries: seq<Entry>, trimmed: seq<Entry>, m: nat) {
    if entries == [] then trimmed == []
    else trimmed != [] && trimmed[0].key == entries[0].key
         && ValueIsTrimmed(entries[0].value, trimmed[0].value, m) && IsTrimmed(entries[1..], trimmed[1..], m)
  }

  predicate ValueIsTrimmed(v: Value, w: Value, m: nat) {
    match v
    case List(items) => w.List? && |w.items| == Min(m, |items|) && EndsWith(items, w.items)
    case Dict(entries) => w.Dict? && IsTrimmed(entries, w.entries, m)
    case _ => w == v
  }

  predicate EndsWith(items: seq<Value>, end: seq<Value>) {
    |end| <= |items| && forall i :: 0 <= i < |end| ==> end[i] == items[|items| - |end| + i]
  }

  lemma NewestIsEndIff(items: seq<Value>, end: seq<Value>, m: nat)
    ensures end == Newest(items, m) <==> |end| == Min(m, |items|) && EndsWith(items, end)
  {
  }

  lemma {:induction false} ValueTrimIsTrimmedIff(v: Value, w: Value, m: nat)
    ensures w == TrimValue(v, m) <==> ValueIsTrimmed(v, w, m)
  {
    match v {
      case List(items) =>
        if w.List? {
          NewestIsEndIff(items, w.items, m);
        }
      case Dict(entries) =>
        if w.Dict? {
          TrimIsTrimmedIff(entries, w.entries, m);
        }
      case _ =>
    }
  }

  /** That is what the trim does, and nothing else would do. */
  lemma {:induction false} TrimIsTrimmedIff(entries: seq<Entry>, trimmed: seq<Entry>, m: nat)
    ensures trimmed == Trim(entries, m) <==> IsTrimmed(entries, trimmed, m)
  {
    if entries != [] && trimmed != [] {
      var first, rest := Entry(entries[0].key, TrimValue(entries[0].value, m)), Trim(entries[1..], m);
      ValueTrimIsTrimmedIff(entries[0].value, trimmed[0].value, m);
      TrimIsTrimmedIff(entries[1..], trimmed[1..], m);
      ConsIff(trimmed, first, rest);
    }
  }

  lemma ConsIff(s: seq<Entry>, first: Entry, rest: seq<Entry>)
    requires s != []
    ensures s == [first] + rest <==> s[0] == first && s[1..] == rest
  {
    assert ([first] + rest)[1..] == rest;
    assert s == [s[0]] + s[1..];
  }

  lemma NewestTwice<T>(items: seq<T>, m: nat, n: nat)
    ensures Newest(Newest(items, n), m) == Newest(items, Min(m, n))
  {
  }

  /** Trimming twice is trimming to the smaller length. */
  lemma {:induction false} TrimTwice(entries: seq<Entry>, m: nat, n: nat)
    ensures Trim(Trim(entries, n), m) == Trim(entries, Min(m, n))
  {
    if entries != [] {
      var e := Entry(entries[0].key, TrimValue(entries[0].value, n));
      assert Trim(entries, n)[1..] == Trim(entries[1..], n);
      TrimTwice(entries[1..], m, n);
      match entries[0].value {
        case List(items) => NewestTwice(items, m, n);
        case Dict(inner) => TrimTwice(inner, m, n);
        case _ =>
      }
    }
  }

  /** Trimming never raises the estimate. */
  lemma {:induction false} TrimIsSmaller(entries: seq<Entry>, m: nat)
    ensures EstimateDict(Trim(entries, m)) <= EstimateDict(entries)
  {
    if entries != [] {
      assert Trim(entries, m)[1..] == Trim(entries[1..], m);
      TrimIsSmaller(entries[1..], m);
      match entries[0].value {
        case List(items) =>
          if |items| > m {
            SuffixIsSmaller(items, |items| - m);
          }
        case Dict(inner) => TrimIsSmaller(inner, m);
        case _ =>
      }
    }
  }

  /** A shorter trim never gives a higher estimate. */
  lemma TrimIsMonotone(entries: seq<Entry>, m: nat, n: nat)
    requires m <= n
    ensures EstimateDict(Trim(entries, m)) <= EstimateDict(Trim(entries, n))
  {
    TrimTwice(entries, m, n);
    TrimIsSmaller(Trim(entries, n), m);
  }

  // ---------------------------------------------------------------- capping the context

  /** The entries per list that pass `k` allows: 50, 40, 30, 20, 10, 1, 1, ... */
  function Allowed(k: nat): nat {
    if k == 0 then 50
    else
      var m := Allowed(k - 1);
      if m - 10 >= 1 then m - 10 else 1
  }

  /** The context after `k` passes of the loop, as long as its guard holds. */
  function Passes(context: seq<Entry>, k: nat): seq<Entry> {
    if k == 0 then context else Trim(Passes(context, k - 1), Allowed(k - 1))
  }

  lemma {:induction false} AllowedFalls(k: nat)
    ensures 1 <= Allowed(k) <= 50 && (k >= 5 ==> Allowed(k) == 1)
    ensures Allowed(k + 1) <= Allowed(k)
  {
    if k == 0 {
    } else if k < 6 {
      AllowedFalls(k - 1);
      assert Allowed(1) == 40 && Allowed(2) == 30 && Allowed(3) == 20 && Allowed(4) == 10 && Allowed(5) == 1;
    } else {
      AllowedFalls(k - 1);
    }
  }

  /** The passes amount to the last of them. */
  lemma {:induction false} PassesAreTheLast(context: seq<Entry>, k: nat)
    requires k >= 1
    ensures Passes(context, k) == Trim(context, Allowed(k - 1))
  {
    if k > 1 {
      PassesAreTheLast(context, k - 1);
      AllowedFalls(k - 2);
      TrimTwice(context, Allowed(k - 1), Allowed(k - 2));
    }
  }

  /** The loop's guard after `k` passes. */
  predicate OverAfter(context: seq<Entry>, maxTokens: nat, k: nat) {
    EstimateDict(Passes(context, k)) > maxTokens
  }

  lemma PassesBound(context: seq<Entry>, k: nat)
    ensures EstimateDict(Trim(context, 1)) <= EstimateDict(Passes(context, k))
    ensures k >= 6 ==> Passes(context, k) == Trim(context, 1)
  {
    if k == 0 {
      TrimIsSmaller(context, 1);
    } else {
      PassesAreTheLast(context, k);
      AllowedFalls(k - 1);
      TrimIsMonotone(context, 1, Allowed(k - 1));
    }
  }

  /** The loop ends, and then within six passes, if and only if the context fits with one entry
      left in every list; otherwise its guard holds after any number of passes. */
  lemma CapEndsIff(context: seq<Entry>, maxTokens: nat)
    ensures (exists k: nat :: !OverAfter(context, maxTokens, k)) <==> EstimateDict(Trim(context, 1)) <= maxTokens
    ensures EstimateDict(Trim(context, 1)) <= maxTokens ==> exists k: nat :: k <= 6 && !OverAfter(context, maxTokens, k)
    ensures EstimateDict(Trim(context, 1)) > maxTokens ==> forall k: nat :: OverAfter(context, maxTokens, k)
  {
    forall k: nat ensures EstimateDict(Trim(context, 1)) <= EstimateDict(Passes(context, k)) {
      PassesBound(context, k);
    }
    PassesBound(context, 6);
    if EstimateDict(Trim(context, 1)) <= maxTokens {
      assert !OverAfter(context, maxTokens, 6);
    }
  }

  // ---------------------------------------------------------------- sections

  /** What a list section is cut to. */
  function Cut(items: seq<Value>, budget: nat): seq<Value> {
    if EstimateList(items) <= budget then items else Newest(items, 1)
  }

  lemma NewestIsSmaller(items: seq<Value>)
    ensures EstimateList(Newest(items, 1)) <= EstimateList(items)
  {
    if |items| > 1 {
      SuffixIsSmaller(items, |items| - 1);
    }
  }

  /** A cut section is in budget if and only if its newest item alone is. */
  lemma CutFitsIff(items: seq<Value>, budget: nat)
    ensures EstimateList(Cut(items, budget)) <= budget <==> EstimateList(Newest(items, 1)) <= budget
  {
    NewestIsSmaller(items);
  }

  /** The trim is announced as one from the oldest item until the section fits. What is left is the
      longest suffix that fits if and only if the two newest items together do not fit. */
  lemma CutIsLongestIff(items: seq<Value>, budget: nat)
    requires EstimateList(items) > budget && EstimateList(Newest(items, 1)) <= budget
    ensures (forall k :: 0 <= k <= |items| && EstimateList(items[k..]) <= budget ==>
             |items| - k <= |Cut(items, budget)|)
            <==> EstimateList(Newest(items, 2)) > budget
  {
    var k2 := if |items| > 2 then |items| - 2 else 0;
    assert Newest(items, 2) == items[k2..];
    forall k | 0 <= k <= |items| && |items| - k > 1 ensures EstimateList(items[k2..]) <= EstimateList(items[k..]) {
      assert items[k..][k2 - k..] == items[k2..];
      SuffixIsSmaller(items[k..], k2 - k);
    }
  }

  /** Seven list sections: posts, interactions, recent activity, decision context, continuity
      notes, snippets and entities. */
  type Sections = s: seq<seq<Value>> | |s| == 7 witness seq(7, _ => [])

  function SectionsTotal(sections: seq<seq<Value>>): nat {
    if sections == [] then 0 else EstimateList(sections[0]) + SectionsTotal(sections[1..])
  }

  lemma TotalCountsAllSeven(sections: Sections)
    ensures SectionsTotal(sections) ==
            EstimateList(sections[0]) + EstimateList(sections[1]) + EstimateList(sections[2])
            + EstimateList(sections[3]) + EstimateList(sections[4]) + EstimateList(sections[5])
            + EstimateList(sections[6])
  {
    TotalFrom(sections, 0);
    TotalFrom(sections, 1);
    TotalFrom(sections, 2);
    TotalFrom(sections, 3);
    TotalFrom(sections, 4);
    TotalFrom(sections, 5);
    TotalFrom(sections, 6);
    assert sections[0..] == sections && sections[7..] == [];
  }

  lemma TotalFrom(sections: Sections, k: nat)
    requires k < 7
    ensures SectionsTotal(sections[k..]) == EstimateList(sections[k]) + SectionsTotal(sections[k + 1..])
  {
    assert sections[k..][1..] == sections[k + 1..];
  }

  function BudgetEach(maxTokens: nat): nat {
    if maxTokens / 8 >= 50 then maxTokens / 8 else 50
  }

  /** The share of a section: an eighth of the budget, but at least 50. */
  lemma ShareIsAnEighth(maxTokens: nat, share: nat)
    ensures share <= BudgetEach(maxTokens) <==> share <= 50 || 8 * share <= maxTokens
  {
  }

  lemma {:induction false} SectionsBound(sections: seq<seq<Value>>, budget: nat)
    requires forall i :: 0 <= i < |sections| ==> EstimateList(sections[i]) <= budget
    ensures SectionsTotal(sections) <= |sections| * budget
  {
    if sections != [] {
      SectionsBound(sections[1..], budget);
      OneMoreTime(|sections[1..]|, budget);
    }
  }

  lemma OneMoreTime(n: nat, budget: nat)
    ensures (n + 1) * budget == n * budget + budget
  {
  }

  /** Seven sections and a context within their share stay within max(400, maxTokens) together. */
  lemma TotalBound(sections: Sections, context: seq<Entry>, maxTokens: nat)
    requires forall i :: 0 <= i < 7 ==> EstimateList(sections[i]) <= BudgetEach(maxTokens)
    requires EstimateDict(context) <= BudgetEach(maxTokens)
    ensures SectionsTotal(sections) + EstimateDict(context) <= if maxTokens >= 400 then maxTokens else 400
  {
    SectionsBound(sections, BudgetEach(maxTokens));
  }

  /** An over-budget memory whose newest items and whose context of single entries fit their shares
      comes out within max(400, maxTokens), every section whole or its newest item. */
  lemma EnforcedTotal(before: Sections, context: seq<Entry>, after: Sections, context': seq<Entry>, maxTokens: nat)
    requires forall n :: 0 <= n < 7 ==> after[n] == Cut(before[n], BudgetEach(maxTokens))
    requires EndsWithin(context, BudgetEach(maxTokens), context')
    ensures (forall n :: 0 <= n < 7 ==> EstimateList(Newest(before[n], 1)) <= BudgetEach(maxTokens)) ==>
              SectionsTotal(after) + EstimateDict(context') <= if maxTokens >= 400 then maxTokens else 400
    ensures forall n :: 0 <= n < 7 ==> after[n] == before[n] || after[n] == Newest(before[n], 1)
  {
    if forall n :: 0 <= n < 7 ==> EstimateList(Newest(before[n], 1)) <= BudgetEach(maxTokens) {
      forall n | 0 <= n < 7 ensures EstimateList(after[n]) <= BudgetEach(maxTokens) {
        CutFitsIff(before[n], BudgetEach(maxTokens));
      }
      TotalBound(after, context', maxTokens);
    }
  }

  /** `_trim_context_list_fields`. */
  method TrimContextListFields(context: seq<Entry>, maxListEntries: nat) returns (trimmed: seq<Entry>)
    requires maxListEntries > 0
    ensures IsTrimmed(context, trimmed, maxListEntries) && trimmed == Trim(context, maxListEntries)
    decreases context
  {
    trimmed := context;
    for i := 0 to |context|
      invariant |trimmed| == |context|
      invariant trimmed[..i] + Trim(trimmed[i..], maxListEntries) == Trim(context, maxListEntries)
      invariant trimmed[i..] == context[i..]
    {
      var e := trimmed[i];
      var v := e.value;
      match e.value {
        case List(items) =>
          if |items| > maxListEntries {
            v := List(items[|items| - maxListEntries..]);
          }
        case Dict(inner) =>
          var cut := TrimContextListFields(inner, maxListEntries);
          v := Dict(cut);
        case _ =>
      }
      assert trimmed[i..][1..] == trimmed[i + 1..];
      trimmed := trimmed[i := Entry(e.key, v)];
    }
    TrimIsTrimmedIff(context, trimmed, maxListEntries);
  }

  /** The context that the loop leaves: the one after the first number of passes, at most six, that
      fits. */
  ghost predicate EndsWithin(before: seq<Entry>, maxTokens: nat, after: seq<Entry>) {
    exists k: nat :: k <= 6 && after == Passes(before, k) && !OverAfter(before, maxTokens, k)
                     && forall j: nat :: j < k ==> OverAfter(before, maxTokens, j)
  }

  /** The list lengths that the passes try. */
  const LENGTHS := [50, 40, 30, 20, 10, 1]

  /** What capping promises: a context within its share stays as it is; of any other every list field,
      at any depth of dictionaries, keeps its newest entries, as many as the greatest of the lengths
      with which the whole context fits. */
  ghost predicate Capped(before: seq<Entry>, maxTokens: nat, after: seq<Entry>) {
    if EstimateDict(before) <= maxTokens then after == before
    else exists i :: 0 <= i < 6 && CappedAt(before, maxTokens, after, i)
  }

  ghost predicate CappedAt(before: seq<Entry>, maxTokens: nat, after: seq<Entry>, i: nat)
    requires i < 6
  {
    && IsTrimmed(before, after, LENGTHS[i]) && EstimateDict(after) <= maxTokens
    && forall j, longer :: 0 <= j < i && IsTrimmed(before, longer, LENGTHS[j]) ==> EstimateDict(longer) > maxTokens
  }

  lemma AllowedAre(k: nat)
    requires k < 6
    ensures Allowed(k) == LENGTHS[k]
  {
    assert Allowed(1) == 40 && Allowed(2) == 30 && Allowed(3) == 20 && Allowed(4) == 10 && Allowed(5) == 1;
  }

  lemma EndIsCapped(before: seq<Entry>, maxTokens: nat, after: seq<Entry>)
    requires EndsWithin(before, maxTokens, after)
    ensures Capped(before, maxTokens, after)
  {
    var k: nat :| k <= 6 && after == Passes(before, k) && !OverAfter(before, maxTokens, k)
                  && forall j: nat :: j < k ==> OverAfter(before, maxTokens, j);
    if k > 0 {
      assert OverAfter(before, maxTokens, 0);
      PassesAreTheLast(before, k);
      AllowedAre(k - 1);
      TrimIsTrimmedIff(before, after, LENGTHS[k - 1]);
      forall j, longer | 0 <= j < k - 1 && IsTrimmed(before, longer, LENGTHS[j])
        ensures EstimateDict(longer) > maxTokens
      {
        AllowedAre(j);
        TrimIsTrimmedIff(before, longer, LENGTHS[j]);
        PassesAreTheLast(before, j + 1);
        assert OverAfter(before, maxTokens, j + 1);
      }
      assert CappedAt(before, maxTokens, after, k - 1);
    }
  }

  /** The inner loop for a section over its share: suffixes are tried from the newest item on. */
  method CutFromFront(arr: seq<Value>, budget: nat) returns (cut: seq<Value>)
    requires EstimateList(arr) > budget
    ensures cut == Cut(arr, budget)
  {
    cut := arr;
    for i := |arr| downto 0
      invariant i < |arr| ==> EstimateList(arr[|arr| - 1..]) > budget
      invariant cut == arr
      invariant i == 0 ==> |arr| == 0
    {
      var trimmed := arr[i..];
      assert i <= |arr| - 1 && trimmed[|arr| - 1 - i..] == arr[|arr| - 1..];
      SuffixIsSmaller(trimmed, |arr| - 1 - i);
      if EstimateList(trimmed) <= budget {
        cut := trimmed;
        break;
      }
      if i == 0 {
        cut := arr[|arr| - 1..];
        break;
      }
    }
  }

  class CompactedMemory {
    var sections: Sections
    var context: seq<Entry>

    constructor (sections: Sections, context: seq<Entry>)
      ensures this.sections == sections && this.context == context
    {
      this.sections, this.context := sections, context;
    }

    /** `_cap_context_tokens`: as many passes as the guard allows, and no more. The loop of a
        context that cannot fit never ends. */
    method CapContextTokens(maxTokens: nat)
      requires maxTokens > 0 ==> EstimateDict(Trim(context, 1)) <= maxTokens
      modifies this`context
      ensures maxTokens > 0 ==> EndsWithin(old(context), maxTokens, context)
      ensures maxTokens > 0 ==> Capped(old(context), maxTokens, context)
      ensures maxTokens == 0 ==> context == old(context)
    {
      if context == [] || maxTokens == 0 {
        assert context == Passes(context, 0);
        return;
      }
      var current := EstimateDict(context);
      if current <= maxTokens {
        assert context == Passes(context, 0);
        return;
      }
      var maxEntries := 50;
      ghost var k: nat := 0;
      while current > maxTokens && maxEntries >= 1
        invariant current == EstimateDict(context) && maxEntries == Allowed(k)
        invariant context == Passes(old(context), k) && k <= 6
        invariant forall j: nat :: j < k ==> OverAfter(old(context), maxTokens, j)
        decreases 6 - k
      {
        PassesBound(old(context), k);
        AllowedFalls(k);
        assert OverAfter(old(context), maxTokens, k);
        var trimmed := TrimContextListFields(context, maxEntries);
        context := trimmed;
        current := EstimateDict(context);
        maxEntries := if maxEntries - 10 >= 1 then maxEntries - 10 else 1;
        k := k + 1;
      }
      AllowedFalls(k);
      EndIsCapped(old(context), maxTokens, context);
    }

    /** The budget of `load_compacted_memory`: nothing changes within it; over it, every section
        over its share is cut to its newest item, and the context is capped. */
    method EnforceBudget(maxTokens: nat)
      requires 0 < maxTokens < SectionsTotal(sections) + EstimateDict(context) ==>
                 EstimateDict(Trim(context, 1)) <= BudgetEach(maxTokens)
      modifies this
      ensures maxTokens == 0 || SectionsTotal(old(sections)) + EstimateDict(old(context)) <= maxTokens ==>
                sections == old(sections) && context == old(context)
      ensures maxTokens > 0 && SectionsTotal(old(sections)) + EstimateDict(old(context)) > maxTokens ==>
                && (forall n :: 0 <= n < 7 ==> sections[n] == Cut(old(sections)[n], BudgetEach(maxTokens)))
                && EndsWithin(old(context), BudgetEach(maxTokens), context)
                && Capped(old(context), BudgetEach(maxTokens), context)
    {
      if maxTokens == 0 {
        return;
      }
      var total := SectionsTotal(sections) + EstimateDict(context);
      if total > maxTokens {
        var budgetEach := BudgetEach(maxTokens);
        for n := 0 to 7
          invariant forall j :: 0 <= j < n ==> sections[j] == Cut(old(sections)[j], budgetEach)
          invariant forall j :: n <= j < 7 ==> sections[j] == old(sections)[j]
          invariant context == old(context)
        {
          var arr := sections[n];
          var current := EstimateList(arr);
          if current <= budgetEach {
            continue;
          }
          var cut := CutFromFront(arr, budgetEach);
          sections := sections[n := cut];
        }
        CapContextTokens(budgetEach);
      }
    }
  }

  // ---------------------------------------------------------------- merging rows

  type Signature<!T> = T -> string

  function Signatures<T>(rows: seq<T>, sig: Signature<T>): set<string> {
    set i | 0 <= i < |rows| :: sig(rows[i])
  }

  /** `incoming` added to `rows` in order, without those whose signature is there already. */
  function Add<T>(rows: seq<T>, incoming: seq<T>, sig: Signature<T>): seq<T>
    decreases |incoming|
  {
    if incoming == [] then rows
    else
      var row := incoming[0];
      Add(if sig(row) in Signatures(rows, sig) then rows else rows + [row], incoming[1..], sig)
  }

  /** `_merge_unique_rows`. */
  function Merge<T>(existing: seq<T>, incoming: seq<T>, sig: Signature<T>, limit: nat): seq<T> {
    Limited(Add(existing, incoming, sig), limit)
  }

  function Limited<T>(rows: seq<T>, limit: nat): seq<T> {
    if limit > 0 then Newest(rows, limit) else rows
  }

  /** The sources merged one after the other, starting from nothing. */
  function MergeAll<T>(sources: seq<seq<T>>, sig: Signature<T>, limit: nat): seq<T> {
    if sources == [] then []
    else Merge(MergeAll(sources[..|sources| - 1], sig, limit), sources[|sources| - 1], sig, limit)
  }

  function Flatten<T>(sources: seq<seq<T>>): seq<T> {
    if sources == [] then [] else Flatten(sources[..|sources| - 1]) + sources[|sources| - 1]
  }

  /** All rows of the sources, each where it first came. */
  function FirstSeen<T>(sources: seq<seq<T>>, sig: Signature<T>): seq<T> {
    Add([], Flatten(sources), sig)
  }

  predicate Distinct<T>(rows: seq<T>, sig: Signature<T>) {
    forall i, j :: 0 <= i < j < |rows| ==> sig(rows[i]) != sig(rows[j])
  }

  lemma {:induction false} AddKeeps<T>(rows: seq<T>, incoming: seq<T>, sig: Signature<T>)
    requires Distinct(rows, sig)
    ensures Distinct(Add(rows, incoming, sig), sig)
    ensures rows <= Add(rows, incoming, sig)
    decreases |incoming|
  {
    if incoming != [] {
      var row := incoming[0];
      AddKeeps(if sig(row) in Signatures(rows, sig) then rows else rows + [row], incoming[1..], sig);
    }
  }

  lemma {:induction false} AddTwice<T>(rows: seq<T>, a: seq<T>, b: seq<T>, sig: Signature<T>)
    ensures Add(Add(rows, a, sig), b, sig) == Add(rows, a + b, sig)
    decreases |a|
  {
    if a == [] {
      assert a + b == b;
    } else {
      var row := a[0];
      assert (a + b)[1..] == a[1..] + b;
      AddTwice(if sig(row) in Signatures(rows, sig) then rows else rows + [row], a[1..], b, sig);
    }
  }

  /** The rows `firsts` stand in `all` at the places `at`, in order, and each is the first of its
      signature there. */
  ghost predicate FirstsAt<T>(all: seq<T>, firsts: seq<T>, sig: Signature<T>, at: seq<nat>) {
    && |at| == |firsts| && (forall i, j :: 0 <= i < j < |at| ==> at[i] < at[j])
    && (forall i :: 0 <= i < |at| ==> at[i] < |all| && firsts[i] == all[at[i]])
    && (forall i, j :: 0 <= i < |at| && 0 <= j < at[i] ==> sig(all[j]) != sig(firsts[i]))
  }

  lemma FirstsStay<T>(all: seq<T>, firsts: seq<T>, sig: Signature<T>, at: seq<nat>, row: T)
    requires FirstsAt(all, firsts, sig, at)
    ensures FirstsAt(all + [row], firsts, sig, at)
  {
  }

  lemma FirstsGrow<T>(all: seq<T>, firsts: seq<T>, sig: Signature<T>, at: seq<nat>, row: T)
    requires FirstsAt(all, firsts, sig, at) && sig(row) !in Signatures(all, sig)
    ensures FirstsAt(all + [row], firsts + [row], sig, at + [|all|])
  {
    forall j | 0 <= j < |all| ensures sig(all[j]) != sig(row) {
    }
  }

  lemma FirstsStep<T>(all: seq<T>, row: T, sig: Signature<T>, at: seq<nat>) returns (more: seq<nat>)
    requires FirstsAt(all, Add([], all, sig), sig, at)
    ensures FirstsAt(all + [row], Add([], all + [row], sig), sig, more)
  {
    var firsts := Add([], all, sig);
    AddSignatures([], all, sig);
    AddLast([], all, row, sig);
    if sig(row) in Signatures(firsts, sig) {
      FirstsStay(all, firsts, sig, at, row);
      more := at;
    } else {
      FirstsGrow(all, firsts, sig, at, row);
      more := at + [|all|];
    }
  }

  /** Adding rows to nothing leaves the first row of each signature, in order, and none is missing. */
  lemma {:induction false} AddLeavesFirsts<T>(all: seq<T>, sig: Signature<T>) returns (at: seq<nat>)
    ensures FirstsAt(all, Add([], all, sig), sig, at)
    ensures Signatures(Add([], all, sig), sig) == Signatures(all, sig)
  {
    AddSignatures([], all, sig);
    at := [];
    if all != [] {
      var n := |all| - 1;
      assert all == all[..n] + [all[n]];
      at := AddLeavesFirsts(all[..n], sig);
      at := FirstsStep(all[..n], all[n], sig, at);
    }
  }

  /** The merged rows have distinct signatures, and are never more than the limit. */
  lemma {:induction false} MergedAreDistinct<T>(sources: seq<seq<T>>, sig: Signature<T>, limit: nat)
    ensures Distinct(MergeAll(sources, sig, limit), sig)
    ensures limit > 0 ==> |MergeAll(sources, sig, limit)| <= limit
  {
    if sources != [] {
      var n := |sources| - 1;
      MergedAreDistinct(sources[..n], sig, limit);
      AddKeeps(MergeAll(sources[..n], sig, limit), sources[n], sig);
    }
  }

  /** The merged rows are all rows by first appearance if and only if the limit never cut any. */
  lemma {:induction false} MergedInFirstSeenOrderIff<T>(sources: seq<seq<T>>, sig: Signature<T>, limit: nat)
    ensures MergeAll(sources, sig, limit) == FirstSeen(sources, sig) <==>
            limit == 0 || |FirstSeen(sources, sig)| <= limit
  {
    MergedAreDistinct(sources, sig, limit);
    if sources != [] {
      var n := |sources| - 1;
      MergedInFirstSeenOrderIff(sources[..n], sig, limit);
      AddTwice([], Flatten(sources[..n]), sources[n], sig);
      AddKeeps([], Flatten(sources[..n]), sig);
      AddKeeps(FirstSeen(sources[..n], sig), sources[n], sig);
    }
  }

  // ---------------------------------------------------------------- the order of the rows left

  /** The merged rows are the newest of all rows by first appearance. */
  ghost predicate NewestFirstSeen<T>(sources: seq<seq<T>>, sig: Signature<T>, limit: nat) {
    MergeAll(sources, sig, limit) == Limited(FirstSeen(sources, sig), limit)
  }

  /** No row left after source `k` came before that source and had been cut by then. */
  predicate NoneReturns<T>(sources: seq<seq<T>>, k: nat, sig: Signature<T>, limit: nat)
    requires k < |sources|
  {
    var before := sources[..k];
    OnlyKeptOrNew(MergeAll(sources[..k + 1], sig, limit), MergeAll(before, sig, limit), Flatten(before), sig)
  }

  /** Every row is one of `kept`, or none of `all`. */
  predicate OnlyKeptOrNew<T>(rows: seq<T>, kept: seq<T>, all: seq<T>, sig: Signature<T>) {
    forall i :: 0 <= i < |rows| ==>
      sig(rows[i]) in Signatures(kept, sig) || sig(rows[i]) !in Signatures(all, sig)
  }

  lemma AddLast<T>(rows: seq<T>, incoming: seq<T>, row: T, sig: Signature<T>)
    ensures var added := Add(rows, incoming, sig);
            Add(rows, incoming + [row], sig) == if sig(row) in Signatures(added, sig) then added else added + [row]
  {
    AddTwice(rows, incoming, [row], sig);
    assert [row][1..] == [];
  }

  lemma {:induction false} AddSignatures<T>(rows: seq<T>, incoming: seq<T>, sig: Signature<T>)
    ensures Signatures(Add(rows, incoming, sig), sig) == Signatures(rows, sig) + Signatures(incoming, sig)
    decreases |incoming|
  {
    if incoming != [] {
      var n := |incoming| - 1;
      assert incoming == incoming[..n] + [incoming[n]];
      AddSignatures(rows, incoming[..n], sig);
      AddLast(rows, incoming[..n], incoming[n], sig);
      SignaturesGrow(incoming[..n], incoming[n], sig);
      SignaturesGrow(Add(rows, incoming[..n], sig), incoming[n], sig);
    }
  }

  lemma SignaturesOfNewest<T>(rows: seq<T>, m: nat, sig: Signature<T>)
    ensures Signatures(Newest(rows, m), sig) <= Signatures(rows, sig)
    ensures Signatures(Limited(rows, m), sig) <= Signatures(rows, sig)
  {
    forall s | s in Signatures(Newest(rows, m), sig) ensures s in Signatures(rows, sig) {
      var i :| 0 <= i < |Newest(rows, m)| && sig(Newest(rows, m)[i]) == s;
      assert Newest(rows, m)[i] in rows;
    }
  }

  lemma NewestLast<T>(rows: seq<T>, row: T, m: nat)
    requires m > 0
    ensures Newest(rows + [row], m) == Newest(rows, m - 1) + [row]
  {
  }

  lemma KeptOrNewParts<T>(rows: seq<T>, row: T, kept: seq<T>, all: seq<T>, sig: Signature<T>)
    requires OnlyKeptOrNew(rows + [row], kept, all, sig)
    ensures OnlyKeptOrNew(rows, kept, all, sig)
    ensures sig(row) in Signatures(kept, sig) || sig(row) !in Signatures(all, sig)
  {
    assert (rows + [row])[|rows|] == row;
    forall i | 0 <= i < |rows| ensures sig(rows[i]) in Signatures(kept, sig) || sig(rows[i]) !in Signatures(all, sig) {
      assert (rows + [row])[i] == rows[i];
    }
  }

  /** Rows added to the newest of `all` end like the rows added to `all`, as far as no cut row is
      among them. */
  lemma {:induction false} EndsAlike<T>(all: seq<T>, limit: nat, incoming: seq<T>, m: nat, sig: Signature<T>)
    requires m <= limit
    requires OnlyKeptOrNew(Newest(Add(Newest(all, limit), incoming, sig), m), Newest(all, limit), all, sig)
    ensures Newest(Add(Newest(all, limit), incoming, sig), m) == Newest(Add(all, incoming, sig), m)
    decreases |incoming|
  {
    var kept := Newest(all, limit);
    if incoming != [] && m > 0 {
      var n := |incoming| - 1;
      var before, row := incoming[..n], incoming[n];
      assert incoming == before + [row];
      AddLast(kept, before, row, sig);
      AddLast(all, before, row, sig);
      AddSignatures(kept, before, sig);
      AddSignatures(all, before, sig);
      SignaturesOfNewest(all, limit, sig);
      var added := Add(kept, before, sig);
      if sig(row) in Signatures(added, sig) {
        EndsAlike(all, limit, before, m, sig);
      } else {
        NewestLast(added, row, m);
        NewestLast(Add(all, before, sig), row, m);
        KeptOrNewParts(Newest(added, m - 1), row, kept, all, sig);
        EndsAlike(all, limit, before, m - 1, sig);
      }
    }
  }

  /** Conversely, the newest of all rows hold no row that had been cut before. */
  lemma NewestHoldNoCut<T>(all: seq<T>, limit: nat, incoming: seq<T>, sig: Signature<T>)
    requires Distinct(all, sig)
    ensures OnlyKeptOrNew(Newest(Add(all, incoming, sig), limit), Newest(all, limit), all, sig)
  {
    var added := Add(all, incoming, sig);
    AddKeeps(all, incoming, sig);
    var ends := Newest(added, limit);
    forall i | 0 <= i < |ends| && sig(ends[i]) in Signatures(all, sig)
      ensures sig(ends[i]) in Signatures(Newest(all, limit), sig)
    {
      NewestHoldNoCutAt(all, limit, added, |added| - |ends| + i, sig);
    }
  }

  lemma NewestAt<T>(rows: seq<T>, m: nat, j: nat, sig: Signature<T>)
    requires |rows| - m <= j < |rows|
    ensures sig(rows[j]) in Signatures(Newest(rows, m), sig)
  {
    var kept := Newest(rows, m);
    assert kept[|kept| - |rows| + j] == rows[j];
  }

  lemma NewestHoldNoCutAt<T>(all: seq<T>, limit: nat, added: seq<T>, i: nat, sig: Signature<T>)
    requires Distinct(added, sig) && all <= added && |added| - limit <= i < |added|
    requires sig(added[i]) in Signatures(all, sig)
    ensures sig(added[i]) in Signatures(Newest(all, limit), sig)
  {
    var j :| 0 <= j < |all| && sig(all[j]) == sig(added[i]);
    assert added[j] == all[j];
    NewestAt(all, limit, j, sig);
  }

  /** One more source keeps the order if and only if no row left after it returns from a cut. */
  lemma OneMoreSourceIff<T>(sources: seq<seq<T>>, k: nat, sig: Signature<T>, limit: nat)
    requires k < |sources| && NewestFirstSeen(sources[..k], sig, limit)
    ensures NewestFirstSeen(sources[..k + 1], sig, limit) <==> NoneReturns(sources, k, sig, limit)
  {
    var all, before := FirstSeen(sources[..k], sig), sources[..k + 1];
    assert before[..|before| - 1] == sources[..k] && before[|before| - 1] == sources[k];
    AddTwice([], Flatten(sources[..k]), sources[k], sig);
    AddSignatures([], Flatten(sources[..k]), sig);
    AddKeeps([], Flatten(sources[..k]), sig);
    if limit > 0 {
      NewestHoldNoCut(all, limit, sources[k], sig);
      if NoneReturns(sources, k, sig, limit) {
        EndsAlike(all, limit, sources[k], limit, sig);
      }
    }
  }

  /** After every source the merged rows are the newest of all rows by first appearance, if and only
      if no source leaves a row that came before it and had been cut. */
  lemma {:induction false} OrderIsKeptIff<T>(sources: seq<seq<T>>, sig: Signature<T>, limit: nat)
    ensures (forall k :: 0 <= k <= |sources| ==> NewestFirstSeen(sources[..k], sig, limit)) <==>
            (forall k :: 0 <= k < |sources| ==> NoneReturns(sources, k, sig, limit))
  {
    if forall k :: 0 <= k <= |sources| ==> NewestFirstSeen(sources[..k], sig, limit) {
      forall k | 0 <= k < |sources| ensures NoneReturns(sources, k, sig, limit) {
        OneMoreSourceIff(sources, k, sig, limit);
      }
    }
    if forall k :: 0 <= k < |sources| ==> NoneReturns(sources, k, sig, limit) {
      for k := 0 to |sources|
        invariant forall j :: 0 <= j <= k ==> NewestFirstSeen(sources[..j], sig, limit)
      {
        OneMoreSourceIff(sources, k, sig, limit);
      }
    }
  }

  /** Every row of source `k` that came before it is still among the merged rows. */
  predicate StillMerged<T>(sources: seq<seq<T>>, k: nat, sig: Signature<T>, limit: nat)
    requires k < |sources|
  {
    OnlyKeptOrNew(sources[k], MergeAll(sources[..k], sig, limit), Flatten(sources[..k]), sig)
  }

  /** So the merged rows come in first-seen order, whatever was cut, when every row that comes again
      is still among them. */
  lemma NoReturnKeepsOrder<T>(sources: seq<seq<T>>, sig: Signature<T>, limit: nat)
    requires forall k :: 0 <= k < |sources| ==> StillMerged(sources, k, sig, limit)
    ensures MergeAll(sources, sig, limit) == Limited(FirstSeen(sources, sig), limit)
  {
    forall k | 0 <= k < |sources| ensures NoneReturns(sources, k, sig, limit) {
      var before, merged := sources[..k + 1], MergeAll(sources[..k], sig, limit);
      assert before[..|before| - 1] == sources[..k] && before[|before| - 1] == sources[k];
      AddSignatures(merged, sources[k], sig);
      SignaturesOfNewest(Add(merged, sources[k], sig), limit, sig);
      assert StillMerged(sources, k, sig, limit);
      LeftAreKeptOrNew(MergeAll(before, sig, limit), merged, sources[k], Flatten(sources[..k]), sig);
    }
    OrderIsKeptIff(sources, sig, limit);
    assert sources[..|sources|] == sources;
  }

  lemma LeftAreKeptOrNew<T>(left: seq<T>, merged: seq<T>, incoming: seq<T>, all: seq<T>, sig: Signature<T>)
    requires OnlyKeptOrNew(incoming, merged, all, sig)
    requires Signatures(left, sig) <= Signatures(merged, sig) + Signatures(incoming, sig)
    ensures OnlyKeptOrNew(left, merged, all, sig)
  {
    forall i | 0 <= i < |left|
      ensures sig(left[i]) in Signatures(merged, sig) || sig(left[i]) !in Signatures(all, sig)
    {
      assert sig(left[i]) in Signatures(left, sig);
      if sig(left[i]) in Signatures(incoming, sig) {
        var j :| 0 <= j < |incoming| && sig(incoming[j]) == sig(left[i]);
      }
    }
  }

  /** Once rows were cut, even the rows that are left need not be in the order in which they first
      came: a row that was cut and comes again is put last. */
  lemma CutRowsComeLast<T>(a: T, b: T, c: T, sig: Signature<T>)
    requires sig(a) != sig(b) && sig(b) != sig(c) && sig(a) != sig(c)
    ensures MergeAll([[a, b], [c], [a]], sig, 2) == [c, a]
  {
    var sources := [[a, b], [c], [a]];
    assert Add([], [a, b], sig) == [a, b] by {
      assert [] + [a] == [a] && [a] + [b] == [a, b];
      AddOne([], a, sig);
      AddOne([a], b, sig);
      AddTwice([], [a], [b], sig);
    }
    AddOne([a, b], c, sig);
    AddOne([b, c], a, sig);
    assert [a, b] + [c] == [a, b, c] && Newest([a, b, c], 2) == [b, c];
    assert [b, c] + [a] == [b, c, a] && Newest([b, c, a], 2) == [c, a];
    assert sources[..1] == [[a, b]] && sources[..2] == [[a, b], [c]];
    assert MergeAll(sources[..1], sig, 2) == [a, b] by {
      assert sources[..1][..0] == [];
    }
    assert MergeAll(sources[..2], sig, 2) == [b, c] by {
      assert sources[..2][..1] == sources[..1];
    }
  }

  lemma AddOne<T>(rows: seq<T>, row: T, sig: Signature<T>)
    requires sig(row) !in Signatures(rows, sig)
    ensures Add(rows, [row], sig) == rows + [row]
  {
    assert [row][1..] == [];
  }

  /** `_merge_unique_rows`, with its set of signatures seen. */
  method MergeUniqueRows<T>(existing: seq<T>, incoming: seq<T>, sig: Signature<T>, limit: nat) returns (merged: seq<T>)
    ensures merged == Merge(existing, incoming, sig, limit)
  {
    merged := existing;
    var seen := set i | 0 <= i < |merged| :: sig(merged[i]);
    for n := 0 to |incoming|
      invariant seen == Signatures(merged, sig)
      invariant Add(merged, incoming[n..], sig) == Add(existing, incoming, sig)
    {
      var row := incoming[n];
      var signature := sig(row);
      assert incoming[n..][1..] == incoming[n + 1..];
      if signature in seen {
        continue;
      }
      SignaturesGrow(merged, row, sig);
      seen := seen + {signature};
      merged := merged + [row];
    }
    if limit > 0 && |merged| > limit {
      merged := merged[|merged| - limit..];
    }
  }

  lemma SignaturesGrow<T>(rows: seq<T>, row: T, sig: Signature<T>)
    ensures Signatures(rows + [row], sig) == Signatures(rows, sig) + {sig(row)}
  {
    var more := rows + [row];
    forall s ensures s in Signatures(more, sig) <==> s in Signatures(rows, sig) + {sig(row)} {
      if s in Signatures(rows, sig) {
        var i :| 0 <= i < |rows| && sig(rows[i]) == s;
        assert more[i] == rows[i];
      }
      assert more[|rows|] == row;
    }
  }
}

/** The community store: a chain of receipts, capability leases, and multi-model research records. */
module Community {
  import opened Text
  import opened ResearchRun

  /** What a receipt records. A lease receipt carries the capability, or the action. */
  datatype Kind =
    | LeaseRequested(capability: string)
    | LeaseActed(action: Action)
    | ToolExecuted
    | ToolDenied
    | ResearchStarted
    | ResearchAnalysis(model: string)
    | ResearchSynthesis(model: string)
    | ResearchEnded(completed: bool, runSha: Option<string>)
    | OtherKind(name: string)

  datatype Action = Approve | Revoke | Expire

  /** A receipt without its own hash. Creation times are texts, and the number is their place in text
      order. */
  datatype Content = Content(id: string, kind: Kind, subject: string, prior: string, createdAt: int)

  datatype Receipt = Receipt(content: Content, hash: string)

  type Hash = Content -> string

  datatype LeaseStatus = IsRequested | IsActive | IsRevoked | IsExpired

  datatype Lease = Lease(capability: string, status: LeaseStatus)

  /** The stored data, and the records that background tasks have loaded and not ended yet. */
  datatype Store = Store(receipts: seq<Receipt>, leases: map<string, Lease>, research: map<string, Run>,
                         running: map<string, Run>)

  // ---------------------------------------------------------------- receipts

  /** Whether a receipt that comes after `a` in the list sorts after it by creation time. The sort is
      stable, and the file lists its receipts by id: of equal times a receipt made since the file was
      loaded sorts after those before it, and a loaded one after a lesser id. */
  predicate SortsAfter(a: Content, b: Content, made: bool) {
    b.createdAt > a.createdAt || (b.createdAt == a.createdAt && (made || TextLess(a.id, b.id)))
  }

  /** The last one in order of creation time, of receipts of which the first `loaded` come from the file. */
  function Newest(receipts: seq<Receipt>, loaded: nat): Receipt
    requires receipts != []
  {
    if |receipts| == 1 then receipts[0]
    else
      var n := |receipts| - 1;
      var m, last := Newest(receipts[..n], loaded), receipts[n];
      if SortsAfter(m.content, last.content, n >= loaded) then last else m
  }

  /** `_receipt`. */
  function MakeReceipt(receipts: seq<Receipt>, loaded: nat, h: Hash, id: string, kind: Kind, subject: string,
                       now: int): Receipt {
    var prior := if receipts == [] then [] else Newest(receipts, loaded).hash;
    var c := Content(id, kind, subject, prior, now);
    Receipt(c, h(c))
  }

  /** A receipt to be made, and the id and time it gets. */
  datatype Entry = Entry(kind: Kind, subject: string)

  datatype Stamp = Stamp(id: string, at: int)

  function StampedReceipt(receipts: seq<Receipt>, loaded: nat, h: Hash, e: Entry, stamp: Stamp): Receipt {
    MakeReceipt(receipts, loaded, h, stamp.id, e.kind, e.subject, stamp.at)
  }

  /** Receipts made one after the other, on a file that holds `receipts`. */
  function AddReceipts(receipts: seq<Receipt>, h: Hash, entries: seq<Entry>, stamps: seq<Stamp>): (r: seq<Receipt>)
    requires |stamps| == |entries|
    ensures |r| == |receipts| + |entries|
  {
    if entries == [] then receipts
    else
      var n := |entries| - 1;
      var rs := AddReceipts(receipts, h, entries[..n], stamps[..n]);
      rs + [StampedReceipt(rs, |receipts|, h, entries[n], stamps[n])]
  }

  // ---------------------------------------------------------------- operations

  datatype Op =
    | RequestLease(leaseId: string, capability: string)
    | ActOnLease(leaseId: string, action: Option<Action>)  // None for an unsupported action
    | UseTool(tool: string)
    | Record(name: string, subject: string)  // a plan, workflow, document or memory operation
    | StartResearch(id: string, run: Run)
    | LoadResearch(id: string)  // the background task of a start begins
    | Progress(id: string, run: Run, event: Event)
    | EndResearch(id: string, after: Run, now: int)  // and ends

  const ANY_TOOL := "tools.run"

  predicate Covers(lease: Lease, tool: string) {
    lease.status == IsActive && (lease.capability == tool || lease.capability == ANY_TOOL)
  }

  predicate Allowed(leases: map<string, Lease>, tool: string) {
    exists id :: id in leases && Covers(leases[id], tool)
  }

  function StatusAfter(action: Action): LeaseStatus {
    match action
    case Approve => IsActive
    case Revoke => IsRevoked
    case Expire => IsExpired
  }

  function AnalysisEntries(id: string, analyses: seq<Analysis>): (r: seq<Entry>)
    ensures |r| == |analyses|
  {
    if analyses == [] then []
    else AnalysisEntries(id, analyses[..|analyses| - 1]) + [Entry(ResearchAnalysis(analyses[|analyses| - 1].model), id)]
  }

  function ModelEntries(id: string, run: Run): (r: seq<Entry>)
    ensures |r| == |run.analyses| + (if run.synthesis.Some? then 1 else 0)
  {
    AnalysisEntries(id, run.analyses)
    + (if run.synthesis.Some? then [Entry(ResearchSynthesis(run.synthesisModel), id)] else [])
  }

  /** The receipts that ending a run makes: one for each analysis, one for a synthesis, and the last. */
  function EndEntries(id: string, run: Run): (r: seq<Entry>)
    ensures |r| == |run.analyses| + (if run.synthesis.Some? then 1 else 0) + 1
  {
    ModelEntries(id, run) + [Entry(ResearchEnded(run.status == IsCompleted, run.runSha), id)]
  }

  /** The receipts that an operation makes. */
  function Entries(s: Store, op: Op): seq<Entry> {
    match op
    case RequestLease(id, capability) => if capability == [] then [] else [Entry(LeaseRequested(capability), id)]
    case ActOnLease(id, action) => if id !in s.leases || action.None? then [] else [Entry(LeaseActed(action.value), id)]
    case UseTool(tool) => [Entry(if Allowed(s.leases, tool) then ToolExecuted else ToolDenied, tool)]
    case Record(name, subject) => [Entry(OtherKind(name), subject)]
    case StartResearch(id, _) => [Entry(ResearchStarted, id)]
    case LoadResearch(_) => []
    case Progress(_, _, _) => []
    case EndResearch(id, run, _) => if id in s.running then EndEntries(id, run) else []
  }

  function LeasesAfter(s: Store, op: Op): map<string, Lease> {
    match op
    case RequestLease(id, capability) =>
      if capability == [] then s.leases else s.leases[id := Lease(capability, IsRequested)]
    case ActOnLease(id, action) =>
      if id !in s.leases || action.None? then s.leases
      else s.leases[id := s.leases[id].(status := StatusAfter(action.value))]
    case _ => s.leases
  }

  function Ids(stamps: seq<Stamp>): (r: seq<string>)
    ensures |r| == |stamps|
  {
    if stamps == [] then [] else Ids(stamps[..|stamps| - 1]) + [stamps[|stamps| - 1].id]
  }

  /** What the progress callback stores: never a finished run. */
  function Persisted(research: map<string, Run>, id: string, run: Run, event: Event): Run {
    var kept := if id in research && research[id].receiptIds != [] && run.receiptIds == []
                then run.(receiptIds := research[id].receiptIds) else run;
    if event == Completed || event == Failed then kept.(status := IsRunning) else kept
  }

  /** A finished run with its receipts attached. */
  function Attached(run: Run, ids: seq<string>, now: int): Run {
    run.(receiptIds := run.receiptIds + ids, updatedAt := now)
  }

  function ResearchAfter(s: Store, op: Op, stamps: seq<Stamp>): map<string, Run> {
    match op
    case StartResearch(id, run) => s.research[id := run.(receiptIds := run.receiptIds + Ids(stamps))]
    case Progress(id, run, event) => s.research[id := Persisted(s.research, id, run, event)]
    case EndResearch(id, run, now) =>
      if id in s.running then s.research[id := Attached(run, Ids(stamps), now)] else s.research
    case _ => s.research
  }

  /** A task finds its record as it was started. */
  function RunningAfter(s: Store, op: Op): map<string, Run> {
    match op
    case LoadResearch(id) =>
      if id in s.research && s.research[id].status == IsQueued then s.running[id := s.research[id]] else s.running
    case EndResearch(id, _, _) => s.running - {id}
    case _ => s.running
  }

  function Perform(s: Store, op: Op, h: Hash, stamps: seq<Stamp>): Store
    requires |stamps| == |Entries(s, op)|
  {
    Store(AddReceipts(s.receipts, h, Entries(s, op), stamps), LeasesAfter(s, op), ResearchAfter(s, op, stamps),
          RunningAfter(s, op))
  }

  // ---------------------------------------------------------------- the chain of receipts

  /** Every receipt hashes its own content and names the hash of the one before it. */
  predicate Linear(receipts: seq<Receipt>, h: Hash) {
    && (forall i :: 0 <= i < |receipts| ==> receipts[i].hash == h(receipts[i].content))
    && (receipts != [] ==> receipts[0].content.prior == [])
    && (forall i :: 0 < i < |receipts| ==> receipts[i].content.prior == receipts[i - 1].hash)
  }

  predicate Rising(receipts: seq<Receipt>) {
    forall i :: 0 < i < |receipts| ==> receipts[i - 1].content.createdAt < receipts[i].content.createdAt
  }

  predicate RisingStamps(stamps: seq<Stamp>) {
    forall i :: 0 < i < |stamps| ==> stamps[i - 1].at < stamps[i].at
  }

  /** The stamps are later than every receipt, and rise. */
  predicate Later(receipts: seq<Receipt>, stamps: seq<Stamp>) {
    RisingStamps(stamps)
    && (receipts != [] && stamps != [] ==> receipts[|receipts| - 1].content.createdAt < stamps[0].at)
  }

  lemma {:induction false} NewestIsLast(receipts: seq<Receipt>, loaded: nat)
    requires receipts != [] && Rising(receipts)
    ensures Newest(receipts, loaded) == receipts[|receipts| - 1]
  {
    if |receipts| > 1 {
      var n := |receipts| - 1;
      RisingPrefix(receipts);
      NewestIsLast(receipts[..n], loaded);
      assert receipts[n - 1].content.createdAt < receipts[n].content.createdAt;
    }
  }

  lemma RisingPrefix(receipts: seq<Receipt>)
    requires receipts != [] && Rising(receipts)
    ensures Rising(receipts[..|receipts| - 1])
  {
    var n := |receipts| - 1;
    forall i | 0 < i < n ensures receipts[..n][i - 1].content.createdAt < receipts[..n][i].content.createdAt {
      assert receipts[i - 1].content.createdAt < receipts[i].content.createdAt;
    }
  }

  lemma ReceiptExtends(receipts: seq<Receipt>, loaded: nat, h: Hash, e: Entry, stamp: Stamp)
    requires Linear(receipts, h) && Rising(receipts)
    requires receipts != [] ==> receipts[|receipts| - 1].content.createdAt < stamp.at
    ensures var all := receipts + [MakeReceipt(receipts, loaded, h, stamp.id, e.kind, e.subject, stamp.at)];
            Linear(all, h) && Rising(all)
  {
    if receipts != [] {
      NewestIsLast(receipts, loaded);
    }
  }

  /** Receipts made at rising times extend the chain. */
  lemma {:induction false} ReceiptsExtend(receipts: seq<Receipt>, h: Hash, entries: seq<Entry>, stamps: seq<Stamp>)
    requires |stamps| == |entries| && Linear(receipts, h) && Rising(receipts) && Later(receipts, stamps)
    ensures var all := AddReceipts(receipts, h, entries, stamps);
            && Linear(all, h) && Rising(all) && receipts <= all
            && (entries != [] ==> all[|all| - 1].content.createdAt == stamps[|stamps| - 1].at)
  {
    if entries != [] {
      var n := |entries| - 1;
      forall i | 0 < i < n ensures stamps[..n][i - 1].at < stamps[..n][i].at {
        assert stamps[i - 1].at < stamps[i].at;
      }
      ReceiptsExtend(receipts, h, entries[..n], stamps[..n]);
      var rs := AddReceipts(receipts, h, entries[..n], stamps[..n]);
      if n > 0 {
        assert stamps[n - 1].at < stamps[n].at;
      }
      ReceiptExtends(rs, |receipts|, h, entries[n], stamps[n]);
    }
  }

  lemma {:induction false} FirstTime(h: Hash, entries: seq<Entry>, stamps: seq<Stamp>)
    requires entries != [] && |stamps| == |entries|
    ensures AddReceipts([], h, entries, stamps)[0].content.createdAt == stamps[0].at
  {
    if |entries| > 1 {
      FirstTime(h, entries[..|entries| - 1], stamps[..|entries| - 1]);
    }
  }

  lemma {:induction false} RisesFrom(receipts: seq<Receipt>, k: nat)
    requires k < |receipts| && Rising(receipts)
    ensures receipts[0].content.createdAt <= receipts[k].content.createdAt
  {
    if k > 0 {
      RisesFrom(receipts, k - 1);
      assert receipts[k - 1].content.createdAt < receipts[k].content.createdAt;
    }
  }

  // ---------------------------------------------------------------- receipts of equal times

  /** Receipts made one after the other, receipt `i` on a file that held the first `loaded[i]`. */
  predicate Made(receipts: seq<Receipt>, loaded: seq<nat>, h: Hash) {
    |loaded| == |receipts| && forall i :: 0 <= i < |receipts| ==>
      var c := receipts[i].content;
      receipts[i] == MakeReceipt(receipts[..i], loaded[i], h, c.id, c.kind, c.subject, c.createdAt)
  }

  /** Each of the receipts sorts before `c`. */
  predicate AllBefore(receipts: seq<Receipt>, c: Content, made: bool) {
    forall j :: 0 <= j < |receipts| ==> SortsAfter(receipts[j].content, c, made)
  }

  /** The last of the receipts sorts after all others, when the first `loaded` come from the file. */
  predicate SortsLast(receipts: seq<Receipt>, loaded: nat)
    requires receipts != []
  {
    var n := |receipts| - 1;
    AllBefore(receipts[..n], receipts[n].content, n >= loaded)
  }

  /** Two different contents with one hash. */
  predicate Collide(receipts: seq<Receipt>, h: Hash) {
    exists i, j :: 0 <= i < j < |receipts|
      && receipts[i].content != receipts[j].content && h(receipts[i].content) == h(receipts[j].content)
  }

  predicate DistinctIds(receipts: seq<Receipt>) {
    forall i, j :: 0 <= i < j < |receipts| ==> receipts[i].content.id != receipts[j].content.id
  }

  /** No receipt is later than the newest, and none of the file with the same time has a greater id. */
  lemma {:induction false} NewestIsGreatest(receipts: seq<Receipt>, loaded: nat)
    requires receipts != []
    ensures Newest(receipts, loaded) in receipts
    ensures var m := Newest(receipts, loaded).content;
            forall r :: r in receipts ==>
              && r.content.createdAt <= m.createdAt
              && (|receipts| <= loaded && r.content.createdAt == m.createdAt ==>
                    r.content.id == m.id || TextLess(r.content.id, m.id))
  {
    var n := |receipts| - 1;
    if n > 0 {
      var rest := receipts[..n];
      NewestIsGreatest(rest, loaded);
      var m, last := Newest(rest, loaded).content, receipts[n].content;
      LessIsTotal(m.id, last.id);
      assert receipts == rest + [receipts[n]];
      forall r | r in rest && TextLess(r.content.id, m.id) && TextLess(m.id, last.id)
        ensures TextLess(r.content.id, last.id)
      {
        LessIsTransitive(r.content.id, m.id, last.id);
      }
    }
  }

  lemma NewestBefore(receipts: seq<Receipt>, loaded: nat, c: Content)
    requires receipts != []
    ensures SortsAfter(Newest(receipts, loaded).content, c, |receipts| >= loaded) <==>
            AllBefore(receipts, c, |receipts| >= loaded)
  {
    NewestIsGreatest(receipts, loaded);
    var m := Newest(receipts, loaded).content;
    var k :| 0 <= k < |receipts| && receipts[k] == Newest(receipts, loaded);
    forall j | 0 <= j < |receipts|
      ensures SortsAfter(m, c, |receipts| >= loaded) ==> SortsAfter(receipts[j].content, c, |receipts| >= loaded)
    {
      assert receipts[j] in receipts;
      LessIsTransitive(receipts[j].content.id, m.id, c.id);
    }
  }

  /** The last receipt is found as the newest if and only if it sorts after all others. */
  lemma LastIsNewestIff(receipts: seq<Receipt>, loaded: nat)
    requires receipts != [] && DistinctIds(receipts)
    ensures Newest(receipts, loaded) == receipts[|receipts| - 1] <==> SortsLast(receipts, loaded)
  {
    var n := |receipts| - 1;
    if n > 0 {
      NewestBefore(receipts[..n], loaded, receipts[n].content);
      NewestIsGreatest(receipts[..n], loaded);
      var k :| 0 <= k < n && receipts[k] == Newest(receipts[..n], loaded);
    }
  }

  lemma NamesLastIff(receipts: seq<Receipt>, loaded: seq<nat>, h: Hash, i: nat)
    requires Made(receipts, loaded, h) && DistinctIds(receipts) && !Collide(receipts, h) && 0 < i < |receipts|
    ensures receipts[i].content.prior == receipts[i - 1].hash <==> SortsLast(receipts[..i], loaded[i])
  {
    LastIsNewestIff(receipts[..i], loaded[i]);
    NewestIsGreatest(receipts[..i], loaded[i]);
    var k :| 0 <= k < i && receipts[k] == Newest(receipts[..i], loaded[i]);
    assert receipts[k].hash == h(receipts[k].content) && receipts[i - 1].hash == h(receipts[i - 1].content);
    if k < i - 1 {
      assert receipts[k].content.id != receipts[i - 1].content.id;
    }
  }

  /** Unless two contents collide, the receipts form one chain without a fork if and only if, each
      time one is made, the one before it sorts after all others: by time, then by the order of the
      requests' own receipts, or of the ids in the file. */
  lemma ReceiptsLinearIff(receipts: seq<Receipt>, loaded: seq<nat>, h: Hash)
    requires Made(receipts, loaded, h) && DistinctIds(receipts) && !Collide(receipts, h)
    ensures Linear(receipts, h) <==> forall i :: 0 < i < |receipts| ==> SortsLast(receipts[..i], loaded[i])
  {
    forall i | 0 < i < |receipts|
      ensures receipts[i].content.prior == receipts[i - 1].hash <==> SortsLast(receipts[..i], loaded[i])
    {
      NamesLastIff(receipts, loaded, h, i);
    }
    forall i | 0 <= i < |receipts| ensures receipts[i].hash == h(receipts[i].content) {
      assert receipts[i] == MakeReceipt(receipts[..i], loaded[i], h, receipts[i].content.id, receipts[i].content.kind,
                                        receipts[i].content.subject, receipts[i].content.createdAt);
    }
  }

  /** Three requests within one tick: the second and the third name the same receipt if and only if
      the second has the lesser id. */
  lemma SameTimeForksIff(a: Receipt, b: Receipt, c: Receipt, h: Hash)
    requires Made([a] + [b] + [c], [0, 1, 2], h) && DistinctIds([a] + [b] + [c]) && !Collide([a] + [b] + [c], h)
    requires a.content.createdAt == b.content.createdAt
    ensures b.content.prior == a.hash
    ensures c.content.prior == a.hash <==> TextLess(b.content.id, a.content.id)
  {
    var all := [a] + [b] + [c];
    NamesLastIff(all, [0, 1, 2], h, 1);
    NamesLastIff(all, [0, 1, 2], h, 2);
    assert all[..1] == [a] && all[..2] == [a] + [b] && ([a] + [b])[..1] == [a];
    assert all[0] == a && all[1] == b && all[2] == c;
    LessIsTotal(a.content.id, b.content.id);
    LessIsIrreflexive(a.content.id, b.content.id);
    assert Newest([a] + [b], 2) == if TextLess(a.content.id, b.content.id) then b else a;
    assert c.content.prior == Newest([a] + [b], 2).hash;
    assert all[0].content != all[1].content && h(all[0].content) != h(all[1].content);
  }

  // ---------------------------------------------------------------- leases, from the receipts alone

  /** The lease that the receipts show under an id. */
  function LeaseOf(receipts: seq<Receipt>, id: string): Option<Lease> {
    if receipts == [] then None
    else
      var c, before := receipts[|receipts| - 1].content, LeaseOf(receipts[..|receipts| - 1], id);
      match c.kind
      case LeaseRequested(capability) => if c.subject == id then Some(Lease(capability, IsRequested)) else before
      case LeaseActed(action) =>
        if c.subject == id && before.Some? then Some(before.value.(status := StatusAfter(action))) else before
      case _ => before
  }

  /** Some lease for the tool, or for every tool, has an approval as its last action. */
  ghost predicate ApprovedIn(receipts: seq<Receipt>, tool: string) {
    exists id :: LeaseOf(receipts, id).Some? && Covers(LeaseOf(receipts, id).value, tool)
  }

  ghost predicate LeasesAgree(s: Store) {
    forall id :: (if id in s.leases then Some(s.leases[id]) else None) == LeaseOf(s.receipts, id)
  }

  /** A tool ran only while a lease for it was approved, and was denied only while none was. */
  ghost predicate ToolReceiptOk(receipts: seq<Receipt>, i: nat)
    requires i < |receipts|
  {
    var c := receipts[i].content;
    && (c.kind == ToolExecuted ==> ApprovedIn(receipts[..i], c.subject))
    && (c.kind == ToolDenied ==> !ApprovedIn(receipts[..i], c.subject))
  }

  ghost predicate ToolsOk(receipts: seq<Receipt>) {
    forall i :: 0 <= i < |receipts| ==> ToolReceiptOk(receipts, i)
  }

  lemma AgreedApproval(s: Store, tool: string)
    requires LeasesAgree(s)
    ensures Allowed(s.leases, tool) <==> ApprovedIn(s.receipts, tool)
  {
    if Allowed(s.leases, tool) {
      var id :| id in s.leases && Covers(s.leases[id], tool);
      assert LeaseOf(s.receipts, id) == Some(s.leases[id]);
    }
    if ApprovedIn(s.receipts, tool) {
      var id :| LeaseOf(s.receipts, id).Some? && Covers(LeaseOf(s.receipts, id).value, tool);
      assert id in s.leases;
    }
  }

  lemma LeaseOfAppend(receipts: seq<Receipt>, r: Receipt, id: string)
    ensures LeaseOf(receipts + [r], id) ==
      match r.content.kind
      case LeaseRequested(capability) =>
        if r.content.subject == id then Some(Lease(capability, IsRequested)) else LeaseOf(receipts, id)
      case LeaseActed(action) =>
        if r.content.subject == id && LeaseOf(receipts, id).Some?
        then Some(LeaseOf(receipts, id).value.(status := StatusAfter(action))) else LeaseOf(receipts, id)
      case _ => LeaseOf(receipts, id)
  {
    assert (receipts + [r])[..|receipts|] == receipts;
  }

  lemma ToolsOkAppend(receipts: seq<Receipt>, r: Receipt)
    requires ToolsOk(receipts)
    requires r.content.kind == ToolExecuted ==> ApprovedIn(receipts, r.content.subject)
    requires r.content.kind == ToolDenied ==> !ApprovedIn(receipts, r.content.subject)
    ensures ToolsOk(receipts + [r])
  {
    var all := receipts + [r];
    forall i | 0 <= i < |all| ensures ToolReceiptOk(all, i) {
      if i < |receipts| {
        assert ToolReceiptOk(receipts, i);
        assert all[..i] == receipts[..i];
      } else {
        assert all[..i] == receipts;
      }
    }
  }

  lemma AddOne(receipts: seq<Receipt>, h: Hash, e: Entry, stamp: Stamp)
    ensures AddReceipts(receipts, h, [e], [stamp]) ==
            receipts + [MakeReceipt(receipts, |receipts|, h, stamp.id, e.kind, e.subject, stamp.at)]
  {
    assert [e][..0] == [] && [stamp][..0] == [];
  }

  /** Receipts of neither a lease nor a tool. */
  predicate Plain(entries: seq<Entry>) {
    forall i :: 0 <= i < |entries| ==>
      var k := entries[i].kind; !k.LeaseRequested? && !k.LeaseActed? && !k.ToolExecuted? && !k.ToolDenied?
  }

  lemma {:induction false} PlainKeep(receipts: seq<Receipt>, h: Hash, entries: seq<Entry>, stamps: seq<Stamp>)
    requires |stamps| == |entries| && Plain(entries) && ToolsOk(receipts)
    ensures var all := AddReceipts(receipts, h, entries, stamps);
            ToolsOk(all) && forall id :: LeaseOf(all, id) == LeaseOf(receipts, id)
  {
    if entries != [] {
      var n := |entries| - 1;
      PlainKeep(receipts, h, entries[..n], stamps[..n]);
      var rs := AddReceipts(receipts, h, entries[..n], stamps[..n]);
      var r := MakeReceipt(rs, |receipts|, h, stamps[n].id, entries[n].kind, entries[n].subject, stamps[n].at);
      ToolsOkAppend(rs, r);
      forall id ensures LeaseOf(rs + [r], id) == LeaseOf(rs, id) {
        LeaseOfAppend(rs, r, id);
      }
    }
  }

  lemma {:induction false} AnalysisEntriesPlain(id: string, analyses: seq<Analysis>)
    ensures Plain(AnalysisEntries(id, analyses))
  {
    if analyses != [] {
      AnalysisEntriesPlain(id, analyses[..|analyses| - 1]);
    }
  }

  // ---------------------------------------------------------------- research records

  /** A record as it is before its task runs: started, with one receipt and at least two distinct
      analysts, none of them the synthesis model. */
  predicate StartedOk(run: Run) {
    run.analyses == [] && run.synthesis.None? && |run.receiptIds| == 1 && ValidModels(run.analysts, run.synthesisModel)
  }

  predicate Ended(run: Run) {
    run.status == IsCompleted || run.status == IsFailed
  }

  /** Some receipt ends the run as it stands. */
  predicate HasEnd(receipts: seq<Receipt>, id: string, run: Run) {
    exists k :: 0 <= k < |receipts| && receipts[k].content.subject == id
                && receipts[k].content.kind == ResearchEnded(run.status == IsCompleted, run.runSha)
  }

  /** A record that shows as ended has a receipt for its start, each model call and its end. If it
      shows as completed it has one analysis for each of its analysts, in order, and a synthesis by
      another model, and holds the digest of itself. A queued record is as it was started. */
  predicate RunOk(receipts: seq<Receipt>, id: string, run: Run, sha: Sha) {
    && (run.status == IsQueued ==> StartedOk(run))
    && (Ended(run) ==>
          HasEnd(receipts, id, run) && |run.receiptIds| == |run.analyses| + (if run.synthesis.Some? then 1 else 0) + 2)
    && (run.status == IsCompleted ==>
          && ValidModels(run.analysts, run.synthesisModel)
          && |run.analyses| == |run.analysts| && run.synthesis.Some?
          && (forall i :: 0 <= i < |run.analysts| ==>
                run.analyses[i].index == i && run.analyses[i].model == run.analysts[i])
          && run.runSha == Some(sha(HashPayload(run))))
  }

  ghost predicate ResearchOk(s: Store, sha: Sha) {
    && (forall id :: id in s.research ==> RunOk(s.receipts, id, s.research[id], sha))
    && (forall id :: id in s.running ==> StartedOk(s.running[id]))
  }

  /** What the callers pass: a record as it is created, a record as the callback gets it, and what
      becomes of the record that the task has loaded. */
  ghost predicate Fits(s: Store, op: Op, sha: Sha) {
    match op
    case StartResearch(_, run) =>
      exists query, analysts, synthesis, now :: CreateRun(query, analysts, synthesis, now) == Some(run)
    case Progress(_, run, event) => ShownInTime(Snapshot(run, event))
    case EndResearch(id, after, _) =>
      id in s.running ==>
        && Ended(after) && after.receiptIds == s.running[id].receiptIds
        && (after.status == IsCompleted ==> exists world :: Finished(s.running[id], after, world, sha))
    case _ => true
  }

  lemma {:induction false} AnalysesAreInOrder(run: Run, world: World, n: nat)
    requires n <= |run.analysts|
    ensures var a := Analyses(run, world, n);
            |a| == n && forall i :: 0 <= i < n ==> a[i].index == i && a[i].model == run.analysts[i]
  {
    if n > 0 {
      AnalysesAreInOrder(run, world, n - 1);
    }
  }

  lemma RunStaysOk(receipts: seq<Receipt>, more: seq<Receipt>, id: string, run: Run, sha: Sha)
    requires RunOk(receipts, id, run, sha) && receipts <= more
    ensures RunOk(more, id, run, sha)
  {
    if Ended(run) {
      var k :| 0 <= k < |receipts| && receipts[k].content.subject == id
               && receipts[k].content.kind == ResearchEnded(run.status == IsCompleted, run.runSha);
      assert more[k] == receipts[k];
    }
  }

  /** However a task ends, its record then has all its receipts, and the digest of a completed one
      still matches once receipts and update time are attached. */
  lemma EndedRunOk(s: Store, h: Hash, id: string, after: Run, now: int, stamps: seq<Stamp>, sha: Sha)
    requires ResearchOk(s, sha) && id in s.running && Fits(s, EndResearch(id, after, now), sha)
    requires |stamps| == |EndEntries(id, after)|
    ensures RunOk(AddReceipts(s.receipts, h, EndEntries(id, after), stamps), id, Attached(after, Ids(stamps), now), sha)
  {
    var before, done := s.running[id], Attached(after, Ids(stamps), now);
    var all := AddReceipts(s.receipts, h, EndEntries(id, after), stamps);
    assert StartedOk(before);
    assert HasEnd(all, id, done) by {
      var c := all[|all| - 1].content;
      assert c.kind == ResearchEnded(after.status == IsCompleted, after.runSha) && c.subject == id;
    }
    if after.status == IsCompleted {
      var world :| Finished(before, after, world, sha);
      AnalysesAreInOrder(before, world, |before.analysts|);
      assert [] + Analyses(before, world, |before.analysts|) == after.analyses;
      PayloadBindsIff(after, done);
    }
  }

  lemma CreatedIsStarted(run: Run, stamp: Stamp, query: string, analysts: seq<string>, synthesis: string, now: int)
    requires CreateRun(query, analysts, synthesis, now) == Some(run)
    ensures run.status == IsQueued && StartedOk(run.(receiptIds := run.receiptIds + Ids([stamp])))
    ensures |run.analysts| >= 2 && forall i, j :: 0 <= i < j < |run.analysts| ==> run.analysts[i] != run.analysts[j]
    ensures run.synthesisModel != [] && run.synthesisModel !in run.analysts
  {
  }

  // ---------------------------------------------------------------- runs

  /** An operation, and whether the file can be read for it. */
  datatype Step = Step(op: Op, stamps: seq<Stamp>, loaded: bool)

  /** A file that cannot be read is taken for an empty one. */
  function Loaded(s: Store, loaded: bool): Store {
    if loaded then s else Store([], map[], map[], s.running)
  }

  /** Whether the operation writes the file. */
  predicate Saves(s: Store, op: Op) {
    match op
    case RequestLease(_, capability) => capability != []
    case ActOnLease(id, action) => id in s.leases && action.Some?
    case LoadResearch(_) => false
    case EndResearch(id, _, _) => id in s.running
    case _ => true
  }

  /** An operation writes the file if and only if it makes a receipt or shows progress. */
  lemma SavesIff(s: Store, op: Op)
    ensures Saves(s, op) <==> Entries(s, op) != [] || op.Progress?
  {
  }

  /** One step; a step without the right number of stamps is none. */
  function Next(s: Store, h: Hash, step: Step): Store {
    var from := Loaded(s, step.loaded);
    if |step.stamps| == |Entries(from, step.op)| && (step.loaded || Saves(from, step.op))
    then Perform(from, step.op, h, step.stamps) else s
  }

  function Play(h: Hash, steps: seq<Step>): Store {
    if steps == [] then Store([], map[], map[], map[])
    else Next(Play(h, steps[..|steps| - 1]), h, steps[|steps| - 1])
  }

  /** Sequential operations under a clock that never stands still. */
  predicate Timely(h: Hash, steps: seq<Step>) {
    forall i :: 0 <= i < |steps| ==> Later(Play(h, steps[..i]).receipts, steps[i].stamps)
  }

  ghost predicate Inv(s: Store, h: Hash, sha: Sha) {
    Linear(s.receipts, h) && Rising(s.receipts) && LeasesAgree(s) && ToolsOk(s.receipts) && ResearchOk(s, sha)
  }

  lemma LeasesStep(s: Store, op: Op, h: Hash, stamps: seq<Stamp>)
    requires LeasesAgree(s) && ToolsOk(s.receipts) && |stamps| == |Entries(s, op)|
    ensures LeasesAgree(Perform(s, op, h, stamps)) && ToolsOk(Perform(s, op, h, stamps).receipts)
  {
    var s' := Perform(s, op, h, stamps);
    if (op.RequestLease? || op.ActOnLease? || op.UseTool?) && Entries(s, op) != [] {
      var e := Entries(s, op)[0];
      assert Entries(s, op) == [e] && stamps == [stamps[0]];
      AddOne(s.receipts, h, e, stamps[0]);
      var r := MakeReceipt(s.receipts, |s.receipts|, h, stamps[0].id, e.kind, e.subject, stamps[0].at);
      if op.UseTool? {
        AgreedApproval(s, op.tool);
      }
      ToolsOkAppend(s.receipts, r);
      forall id ensures (if id in s'.leases then Some(s'.leases[id]) else None) == LeaseOf(s'.receipts, id) {
        LeaseOfAppend(s.receipts, r, id);
        assert (if id in s.leases then Some(s.leases[id]) else None) == LeaseOf(s.receipts, id);
      }
    } else {
      if op.EndResearch? {
        AnalysisEntriesPlain(op.id, op.after.analyses);
      }
      PlainKeep(s.receipts, h, Entries(s, op), stamps);
    }
  }

  lemma StartedRecordOk(receipts: seq<Receipt>, id: string, run: Run, stamps: seq<Stamp>, sha: Sha)
    requires |stamps| == 1
    requires exists query, analysts, synthesis, now :: CreateRun(query, analysts, synthesis, now) == Some(run)
    ensures RunOk(receipts, id, run.(receiptIds := run.receiptIds + Ids(stamps)), sha)
  {
    var query, analysts, synthesis, now :| CreateRun(query, analysts, synthesis, now) == Some(run);
    assert stamps == [stamps[0]];
    CreatedIsStarted(run, stamps[0], query, analysts, synthesis, now);
  }

  /** What an operation makes of one record. */
  lemma {:induction false} RecordStep(s: Store, op: Op, h: Hash, stamps: seq<Stamp>, sha: Sha, id: string)
    requires ResearchOk(s, sha) && Fits(s, op, sha) && |stamps| == |Entries(s, op)|
    requires id in ResearchAfter(s, op, stamps)
    requires !(id in s.research && ResearchAfter(s, op, stamps)[id] == s.research[id])
    ensures RunOk(AddReceipts(s.receipts, h, Entries(s, op), stamps), id, ResearchAfter(s, op, stamps)[id], sha)
  {
    match op {
      case StartResearch(_, run) =>
        StartedRecordOk(AddReceipts(s.receipts, h, Entries(s, op), stamps), id, run, stamps, sha);
      case Progress(_, _, _) =>
      case EndResearch(_, after, now) => EndedRunOk(s, h, id, after, now, stamps, sha);
      case _ =>
    }
  }

  lemma ResearchStep(s: Store, op: Op, h: Hash, stamps: seq<Stamp>, sha: Sha)
    requires ResearchOk(s, sha) && Fits(s, op, sha) && |stamps| == |Entries(s, op)|
    requires s.receipts <= Perform(s, op, h, stamps).receipts
    ensures ResearchOk(Perform(s, op, h, stamps), sha)
  {
    var s' := Perform(s, op, h, stamps);
    forall id | id in s'.research ensures RunOk(s'.receipts, id, s'.research[id], sha) {
      if id in s.research && s'.research[id] == s.research[id] {
        RunStaysOk(s.receipts, s'.receipts, id, s.research[id], sha);
      } else {
        RecordStep(s, op, h, stamps, sha, id);
      }
    }
    RunningStep(s, op, sha);
  }

  lemma RunningStep(s: Store, op: Op, sha: Sha)
    requires ResearchOk(s, sha)
    ensures var running := RunningAfter(s, op); forall id :: id in running ==> StartedOk(running[id])
  {
    var running := RunningAfter(s, op);
    forall id | id in running ensures StartedOk(running[id]) {
      if op.LoadResearch? && id == op.id && id in s.research {
        assert RunOk(s.receipts, id, s.research[id], sha);
      }
    }
  }

  /** One operation, at times later than all receipts so far. */
  lemma StepKeeps(s: Store, op: Op, h: Hash, stamps: seq<Stamp>, sha: Sha)
    requires Inv(s, h, sha) && Fits(s, op, sha) && |stamps| == |Entries(s, op)| && Later(s.receipts, stamps)
    ensures Inv(Perform(s, op, h, stamps), h, sha) && s.receipts <= Perform(s, op, h, stamps).receipts
  {
    ReceiptsExtend(s.receipts, h, Entries(s, op), stamps);
    LeasesStep(s, op, h, stamps);
    ResearchStep(s, op, h, stamps, sha);
  }

  lemma EmptyFileIsValid(s: Store, h: Hash, sha: Sha)
    requires Inv(s, h, sha)
    ensures Inv(Loaded(s, false), h, sha)
  {
  }

  /** A step keeps the invariant, and the receipts unless it writes over a file that it could not
      read. */
  lemma NextKeeps(s: Store, h: Hash, step: Step, sha: Sha)
    requires Inv(s, h, sha) && Fits(s, step.op, sha) && Later(s.receipts, step.stamps)
    ensures Inv(Next(s, h, step), h, sha)
    ensures step.loaded ==> s.receipts <= Next(s, h, step).receipts
  {
    var from := Loaded(s, step.loaded);
    EmptyFileIsValid(s, h, sha);
    if |step.stamps| == |Entries(from, step.op)| {
      StepKeeps(from, step.op, h, step.stamps, sha);
    }
  }

  /** A step loses receipts if and only if it writes over a file with receipts that it could not
      read. */
  lemma ReceiptsAreLostIff(s: Store, h: Hash, step: Step)
    requires Linear(s.receipts, h) && Rising(s.receipts) && Later(s.receipts, step.stamps)
    requires |step.stamps| == |Entries(Loaded(s, step.loaded), step.op)|
    ensures s.receipts <= Next(s, h, step).receipts <==>
            step.loaded || s.receipts == [] || !Saves(Loaded(s, false), step.op)
  {
    var entries := Entries(Loaded(s, step.loaded), step.op);
    if step.loaded {
      ReceiptsExtend(s.receipts, h, entries, step.stamps);
    } else if s.receipts != [] && Saves(Loaded(s, false), step.op) && step.stamps != [] {
      FirstTime(h, entries, step.stamps);
      RisesFrom(s.receipts, |s.receipts| - 1);
    }
  }

  /** What the callers pass in each step fits the store that it meets. */
  ghost predicate AllFit(h: Hash, steps: seq<Step>, sha: Sha) {
    forall i :: 0 <= i < |steps| ==> Fits(Play(h, steps[..i]), steps[i].op, sha)
  }

  lemma TimelyPrefix(h: Hash, steps: seq<Step>, sha: Sha)
    requires Timely(h, steps) && AllFit(h, steps, sha) && steps != []
    ensures Timely(h, steps[..|steps| - 1]) && AllFit(h, steps[..|steps| - 1], sha)
  {
    var n := |steps| - 1;
    forall i | 0 <= i < n
      ensures Later(Play(h, steps[..n][..i]).receipts, steps[..n][i].stamps)
      ensures Fits(Play(h, steps[..n][..i]), steps[..n][i].op, sha)
    {
      assert steps[..n][..i] == steps[..i];
    }
  }

  lemma {:induction false} RunIsValid(h: Hash, sha: Sha, steps: seq<Step>)
    requires Timely(h, steps) && AllFit(h, steps, sha)
    ensures Inv(Play(h, steps), h, sha)
  {
    if steps != [] {
      var n := |steps| - 1;
      TimelyPrefix(h, steps, sha);
      RunIsValid(h, sha, steps[..n]);
      NextKeeps(Play(h, steps[..n]), h, steps[n], sha);
    }
  }

  lemma LastStepAppends(h: Hash, sha: Sha, steps: seq<Step>)
    requires Timely(h, steps) && AllFit(h, steps, sha) && steps != [] && steps[|steps| - 1].loaded
    ensures Play(h, steps[..|steps| - 1]).receipts <= Play(h, steps).receipts
  {
    var n := |steps| - 1;
    TimelyPrefix(h, steps, sha);
    RunIsValid(h, sha, steps[..n]);
    NextKeeps(Play(h, steps[..n]), h, steps[n], sha);
  }

  predicate LoadedFrom(steps: seq<Step>, k: nat) {
    forall i :: k <= i < |steps| ==> steps[i].loaded
  }

  lemma {:induction false} RunAppends(h: Hash, sha: Sha, steps: seq<Step>, k: nat)
    requires Timely(h, steps) && AllFit(h, steps, sha) && k <= |steps| && LoadedFrom(steps, k)
    ensures Play(h, steps[..k]).receipts <= Play(h, steps).receipts
  {
    if k == |steps| {
      assert steps[..k] == steps;
    } else {
      var n := |steps| - 1;
      TimelyPrefix(h, steps, sha);
      RunAppends(h, sha, steps[..n], k);
      assert steps[..n][..k] == steps[..k];
      LastStepAppends(h, sha, steps);
    }
  }

  /** Over any sequential run: the receipts in the file form one chain without a fork, to which every
      operation that can read the file only appends; every tool that ran was covered by a lease whose
      last action approved it, and none was denied while one was; and a research record shows as
      ended only with all its receipts, and as completed only with all its analyses and its digest. */
  lemma RunKeeps(h: Hash, sha: Sha, steps: seq<Step>, k: nat)
    requires Timely(h, steps) && AllFit(h, steps, sha) && k <= |steps|
    ensures Inv(Play(h, steps), h, sha)
    ensures LoadedFrom(steps, k) ==> Play(h, steps[..k]).receipts <= Play(h, steps).receipts
  {
    RunIsValid(h, sha, steps);
    if LoadedFrom(steps, k) {
      RunAppends(h, sha, steps, k);
    }
  }

  // ---------------------------------------------------------------- what an active lease is

  predicate OfLease(r: Receipt, id: string) {
    (r.content.kind.LeaseRequested? || r.content.kind.LeaseActed?) && r.content.subject == id
  }

  /** Receipt `k` approves the lease, and is the last receipt of it. */
  predicate ApprovedLast(receipts: seq<Receipt>, id: string, k: nat) {
    && k < |receipts| && receipts[k].content.kind == LeaseActed(Approve) && receipts[k].content.subject == id
    && LeaseOf(receipts[..k], id).Some?
    && forall j :: k < j < |receipts| ==> !OfLease(receipts[j], id)
  }

  /** A lease is active if and only if the last receipt of it is an approval. */
  lemma {:induction false} ActiveIff(receipts: seq<Receipt>, id: string)
    ensures (LeaseOf(receipts, id).Some? && LeaseOf(receipts, id).value.status == IsActive)
            <==> exists k: nat :: ApprovedLast(receipts, id, k)
  {
    if receipts != [] {
      var n := |receipts| - 1;
      ActiveIff(receipts[..n], id);
      if OfLease(receipts[n], id) {
        if ApprovedLast(receipts, id, n) {
        } else {
          assert forall k: nat :: ApprovedLast(receipts, id, k) ==> k == n;
        }
      } else {
        forall k: nat ensures ApprovedLast(receipts[..n], id, k) <==> ApprovedLast(receipts, id, k) {
          if k < n {
            assert receipts[..n][..k] == receipts[..k];
          }
        }
      }
    }
  }

  // ---------------------------------------------------------------- what a tool needs

  predicate IsRequest(r: Receipt, id: string) {
    r.content.kind.LeaseRequested? && r.content.subject == id
  }

  /** Receipt `r` is the last that requests the lease. */
  predicate LastRequest(receipts: seq<Receipt>, id: string, r: nat) {
    r < |receipts| && IsRequest(receipts[r], id) && forall j :: r < j < |receipts| ==> !IsRequest(receipts[j], id)
  }

  /** Receipt `k` is the last of the lease. */
  predicate LastOfLease(receipts: seq<Receipt>, id: string, k: nat) {
    k < |receipts| && OfLease(receipts[k], id) && forall j :: k < j < |receipts| ==> !OfLease(receipts[j], id)
  }

  lemma LastRequestBefore(receipts: seq<Receipt>, id: string, r: nat)
    requires receipts != [] && r < |receipts| - 1
    ensures var n := |receipts| - 1;
            LastRequest(receipts, id, r) <==> LastRequest(receipts[..n], id, r) && !IsRequest(receipts[n], id)
  {
    var n := |receipts| - 1;
    if LastRequest(receipts, id, r) {
      forall j | r < j < n ensures !IsRequest(receipts[..n][j], id) {
        assert receipts[..n][j] == receipts[j];
      }
    }
  }

  lemma LastOfLeaseBefore(receipts: seq<Receipt>, id: string, k: nat)
    requires receipts != [] && k < |receipts| - 1
    ensures var n := |receipts| - 1;
            LastOfLease(receipts, id, k) <==> LastOfLease(receipts[..n], id, k) && !OfLease(receipts[n], id)
  {
    var n := |receipts| - 1;
    if LastOfLease(receipts, id, k) {
      forall j | k < j < n ensures !OfLease(receipts[..n][j], id) {
        assert receipts[..n][j] == receipts[j];
      }
    }
  }

  /** The receipts show a lease once it was requested. */
  lemma {:induction false} ShownOnceRequested(receipts: seq<Receipt>, id: string)
    ensures LeaseOf(receipts, id).Some? <==> exists r: nat :: LastRequest(receipts, id, r)
    ensures LeaseOf(receipts, id).Some? ==> exists k: nat :: LastOfLease(receipts, id, k)
  {
    if receipts != [] {
      var n := |receipts| - 1;
      ShownOnceRequested(receipts[..n], id);
      forall r: nat | r < n
        ensures LastRequest(receipts, id, r) <==> LastRequest(receipts[..n], id, r) && !IsRequest(receipts[n], id)
      {
        LastRequestBefore(receipts, id, r);
      }
      forall k: nat | k < n
        ensures LastOfLease(receipts, id, k) <==> LastOfLease(receipts[..n], id, k) && !OfLease(receipts[n], id)
      {
        LastOfLeaseBefore(receipts, id, k);
      }
      assert LastRequest(receipts, id, n) <==> IsRequest(receipts[n], id);
      assert LastOfLease(receipts, id, n) <==> OfLease(receipts[n], id);
    }
  }

  /** Its capability is that of the last request, and its status what the last receipt of it did. */
  lemma {:induction false} LeaseIs(receipts: seq<Receipt>, id: string, r: nat, k: nat)
    requires LastRequest(receipts, id, r) && LastOfLease(receipts, id, k)
    ensures LeaseOf(receipts, id).Some?
    ensures var lease, last := LeaseOf(receipts, id).value, receipts[k].content.kind;
            && lease.capability == receipts[r].content.kind.capability
            && (lease.status == IsRequested <==> last.LeaseRequested?)
            && (lease.status == IsActive <==> last == LeaseActed(Approve))
            && (lease.status == IsRevoked <==> last == LeaseActed(Revoke))
            && (lease.status == IsExpired <==> last == LeaseActed(Expire))
  {
    var n := |receipts| - 1;
    ShownOnceRequested(receipts[..n], id);
    if r < n {
      LastRequestBefore(receipts, id, r);
      if k < n {
        LastOfLeaseBefore(receipts, id, k);
        LeaseIs(receipts[..n], id, r, k);
      } else {
        var k': nat :| LastOfLease(receipts[..n], id, k');
        LeaseIs(receipts[..n], id, r, k');
      }
    }
  }

  /** The last request of the lease is for the tool, or for every tool, and the last receipt of the
      lease approves it. */
  predicate ApprovedFor(receipts: seq<Receipt>, tool: string, id: string, r: nat, k: nat) {
    && LastRequest(receipts, id, r) && LastOfLease(receipts, id, k)
    && (receipts[r].content.kind.capability == tool || receipts[r].content.kind.capability == "tools.run")
    && receipts[k].content.kind == LeaseActed(Approve)
  }

  /** Some lease covers a tool if and only if, by the receipts, its last request was for that tool or
      for all tools and the last thing that happened to it was an approval. */
  lemma ApprovedIff(receipts: seq<Receipt>, tool: string)
    ensures ApprovedIn(receipts, tool) <==> exists id, r: nat, k: nat :: ApprovedFor(receipts, tool, id, r, k)
  {
    if ApprovedIn(receipts, tool) {
      var id :| LeaseOf(receipts, id).Some? && Covers(LeaseOf(receipts, id).value, tool);
      ShownOnceRequested(receipts, id);
      var r: nat :| LastRequest(receipts, id, r);
      var k: nat :| LastOfLease(receipts, id, k);
      LeaseIs(receipts, id, r, k);
      assert ApprovedFor(receipts, tool, id, r, k);
    }
    if exists id, r: nat, k: nat :: ApprovedFor(receipts, tool, id, r, k) {
      var id, r: nat, k: nat :| ApprovedFor(receipts, tool, id, r, k);
      LeaseIs(receipts, id, r, k);
    }
  }

  // ---------------------------------------------------------------- what ending a run leaves

  lemma {:induction false} AddedAt(base: seq<Receipt>, h: Hash, entries: seq<Entry>, stamps: seq<Stamp>, i: nat)
    requires i < |entries| == |stamps|
    ensures var all := AddReceipts(base, h, entries, stamps);
            var c := all[|base| + i].content;
            base <= all && c.kind == entries[i].kind && c.subject == entries[i].subject && c.id == stamps[i].id
  {
    var n := |entries| - 1;
    if i < n {
      AddedAt(base, h, entries[..n], stamps[..n], i);
    } else if n > 0 {
      AddedAt(base, h, entries[..n], stamps[..n], 0);
    }
  }

  lemma {:induction false} AnalysisEntryAt(id: string, analyses: seq<Analysis>, i: nat)
    requires i < |analyses|
    ensures AnalysisEntries(id, analyses)[i] == Entry(ResearchAnalysis(analyses[i].model), id)
  {
    if i < |analyses| - 1 {
      AnalysisEntryAt(id, analyses[..|analyses| - 1], i);
    }
  }

  lemma {:induction false} IdAt(stamps: seq<Stamp>, i: nat)
    requires i < |stamps|
    ensures Ids(stamps)[i] == stamps[i].id
  {
    if i < |stamps| - 1 {
      IdAt(stamps[..|stamps| - 1], i);
    }
  }

  /** What receipt `i` of an ended run is about: the analyses in order, a synthesis, the end. */
  function EndKind(run: Run, i: nat): Kind {
    if i < |run.analyses| then ResearchAnalysis(run.analyses[i].model)
    else if i == |run.analyses| && run.synthesis.Some? then ResearchSynthesis(run.synthesisModel)
    else ResearchEnded(run.status == IsCompleted, run.runSha)
  }

  /** The receipts are those of before and one for each model call and the end, all about the run; and
      the record names them after those it had. */
  predicate EndReceipted(before: seq<Receipt>, after: seq<Receipt>, id: string, run: Run, record: Run) {
    var n := |run.analyses| + (if run.synthesis.Some? then 1 else 0) + 1;
    && before <= after && |after| == |before| + n
    && run.receiptIds <= record.receiptIds && |record.receiptIds| == |run.receiptIds| + n
    && forall k :: |before| <= k < |after| ==>
         var c, i := after[k].content, k - |before|;
         c.kind == EndKind(run, i) && c.subject == id && c.id == record.receiptIds[|run.receiptIds| + i]
  }

  lemma EndReceiptAt(base: seq<Receipt>, h: Hash, id: string, run: Run, stamps: seq<Stamp>, i: nat)
    requires i < |stamps| == |EndEntries(id, run)|
    ensures var c := AddReceipts(base, h, EndEntries(id, run), stamps)[|base| + i].content;
            c.kind == EndKind(run, i) && c.subject == id && c.id == Ids(stamps)[i]
  {
    AddedAt(base, h, EndEntries(id, run), stamps, i);
    IdAt(stamps, i);
    if i < |run.analyses| {
      AnalysisEntryAt(id, run.analyses, i);
    }
  }

  lemma EndIsReceipted(base: seq<Receipt>, h: Hash, id: string, run: Run, stamps: seq<Stamp>, now: int)
    requires |stamps| == |EndEntries(id, run)|
    ensures EndReceipted(base, AddReceipts(base, h, EndEntries(id, run), stamps), id, run,
                         Attached(run, Ids(stamps), now))
  {
    var all := AddReceipts(base, h, EndEntries(id, run), stamps);
    AddedAt(base, h, EndEntries(id, run), stamps, 0);
    forall k | |base| <= k < |all|
      ensures all[k].content.kind == EndKind(run, k - |base|) && all[k].content.subject == id
      ensures Ids(stamps)[k - |base|] == all[k].content.id
    {
      var i := k - |base|;
      assert |base| + i == k;
      EndReceiptAt(base, h, id, run, stamps, i);
    }
  }

  // ---------------------------------------------------------------- the store in place

  class CommunityStore {
    var receipts: seq<Receipt>
    var leases: map<string, Lease>
    var research: map<string, Run>
    ghost var running: map<string, Run>
    const h: Hash
    ghost const sha: Sha

    constructor (h: Hash, ghost sha: Sha)
      ensures Valid() && State() == Store([], map[], map[], map[]) && this.h == h && this.sha == sha
    {
      receipts, leases, research, running, this.h, this.sha := [], map[], map[], map[], h, sha;
    }

    ghost function State(): Store
      reads this
    {
      Store(receipts, leases, research, running)
    }

    /** What every operation keeps. */
    ghost predicate Valid()
      reads this
    {
      Inv(State(), h, sha)
    }

    /** A file that cannot be read is taken for an empty one. */
    method TakeForEmpty()
      modifies this
      ensures State() == Loaded(old(State()), false)
      ensures old(Valid()) ==> Valid()
    {
      receipts, leases, research := [], map[], map[];
    }

    /** `_receipt`, since the first `loaded` receipts were read from the file. */
    method AddReceipt(loaded: nat, kind: Kind, subject: string, stamp: Stamp)
      modifies this`receipts
      ensures receipts == old(receipts) + [MakeReceipt(old(receipts), loaded, h, stamp.id, kind, subject, stamp.at)]
    {
      var prior := if receipts == [] then [] else Newest(receipts, loaded).hash;
      var content := Content(stamp.id, kind, subject, prior, stamp.at);
      receipts := receipts + [Receipt(content, h(content))];
    }

    method RequestLeaseFor(leaseId: string, capability: string, stamp: Stamp) returns (ok: bool)
      modifies this
      ensures ok <==> capability != []
      ensures old(Valid()) && Later(old(receipts), [stamp]) ==> Valid()
      ensures var op := RequestLease(leaseId, capability);
              if ok then Entries(old(State()), op) != [] && State() == Perform(old(State()), op, h, [stamp])
              else State() == old(State())
    {
      if capability == [] {
        return false;
      }
      if Valid() && Later(receipts, [stamp]) {
        StepKeeps(State(), RequestLease(leaseId, capability), h, [stamp], sha);
      }
      leases := leases[leaseId := Lease(capability, IsRequested)];
      AddOne(receipts, h, Entry(LeaseRequested(capability), leaseId), stamp);
      AddReceipt(|receipts|, LeaseRequested(capability), leaseId, stamp);
      return true;
    }

    method LeaseAction(leaseId: string, action: Option<Action>, stamp: Stamp) returns (ok: bool)
      modifies this
      ensures ok <==> leaseId in old(leases) && action.Some?
      ensures old(Valid()) && Later(old(receipts), [stamp]) ==> Valid()
      ensures var op := ActOnLease(leaseId, action);
              if ok then Entries(old(State()), op) != [] && State() == Perform(old(State()), op, h, [stamp])
              else State() == old(State())
    {
      if leaseId !in leases || action.None? {
        return false;
      }
      if Valid() && Later(receipts, [stamp]) {
        StepKeeps(State(), ActOnLease(leaseId, action), h, [stamp], sha);
      }
      leases := leases[leaseId := leases[leaseId].(status := StatusAfter(action.value))];
      AddOne(receipts, h, Entry(LeaseActed(action.value), leaseId), stamp);
      AddReceipt(|receipts|, LeaseActed(action.value), leaseId, stamp);
      return true;
    }

    /** A tool runs if and only if the receipts show an approved lease for it. */
    method RunTool(tool: string, stamp: Stamp) returns (ok: bool)
      modifies this`receipts
      ensures ok <==> Allowed(old(leases), tool)
      ensures old(Valid()) ==> (ok <==> exists id, r: nat, k: nat :: ApprovedFor(old(receipts), tool, id, r, k))
      ensures old(Valid()) && Later(old(receipts), [stamp]) ==> Valid()
      ensures State() == Perform(old(State()), UseTool(tool), h, [stamp])
    {
      if Valid() {
        AgreedApproval(State(), tool);
        ApprovedIff(receipts, tool);
        if Later(receipts, [stamp]) {
          StepKeeps(State(), UseTool(tool), h, [stamp], sha);
        }
      }
      ok := exists id :: id in leases && Covers(leases[id], tool);
      AddOne(receipts, h, Entry(if ok then ToolExecuted else ToolDenied, tool), stamp);
      AddReceipt(|receipts|, if ok then ToolExecuted else ToolDenied, tool, stamp);
    }

    /** The progress callback: the record is stored with the receipts it had, and a run that has
        ended is not shown as such. */
    method PersistProgress(id: string, run: Run, event: Event)
      modifies this`research
      ensures research.Keys == old(research).Keys + {id}
      ensures forall other :: other in old(research) && other != id ==> research[other] == old(research)[other]
      ensures research[id] == run.(receiptIds := research[id].receiptIds, status := research[id].status)
      ensures research[id].receiptIds == if run.receiptIds == [] && id in old(research)
                                         then old(research)[id].receiptIds else run.receiptIds
      ensures State() == Perform(old(State()), Progress(id, run, event), h, [])
      ensures ShownInTime(Snapshot(run, event)) ==> research[id].status == IsRunning
      ensures old(Valid()) && ShownInTime(Snapshot(run, event)) ==> Valid()
    {
      if Valid() && ShownInTime(Snapshot(run, event)) {
        StepKeeps(State(), Progress(id, run, event), h, [], sha);
      }
      var kept := run;
      if id in research && research[id].receiptIds != [] && run.receiptIds == [] {
        kept := kept.(receiptIds := research[id].receiptIds);
      }
      if event == Completed || event == Failed {
        kept := kept.(status := IsRunning);
      }
      research := research[id := kept];
    }

    /** The receipt of analysis `i`. */
    method AddAnalysis(ghost base: seq<Receipt>, loaded: nat, id: string, analyses: seq<Analysis>, i: nat,
                       stamps: seq<Stamp>, ids: seq<string>) returns (more: seq<string>)
      requires loaded == |base| && i < |analyses| <= |stamps|
      requires Receipted(base, h, id, analyses, i, stamps, receipts, ids)
      modifies this`receipts
      ensures Receipted(base, h, id, analyses, i + 1, stamps, receipts, more)
    {
      var e := Entry(ResearchAnalysis(analyses[i].model), id);
      ghost var rs := receipts;
      AddReceipt(loaded, e.kind, id, stamps[i]);
      more := ids + [stamps[i].id];
      ReceiptedNext(base, h, id, analyses, i, stamps, rs, ids, receipts);
    }

    /** The receipts of the analyses, and their ids. */
    method AddAnalyses(id: string, analyses: seq<Analysis>, stamps: seq<Stamp>) returns (ids: seq<string>)
      requires |stamps| >= |analyses|
      modifies this`receipts
      ensures Receipted(old(receipts), h, id, analyses, |analyses|, stamps, receipts, ids)
    {
      ids := [];
      var loaded := |receipts|;
      for i := 0 to |analyses|
        invariant Receipted(old(receipts), h, id, analyses, i, stamps, receipts, ids)
      {
        ids := AddAnalysis(old(receipts), loaded, id, analyses, i, stamps, ids);
      }
    }

    method AddModelCalls(id: string, run: Run, stamps: seq<Stamp>) returns (ids: seq<string>)
      requires |stamps| > |ModelEntries(id, run)|
      modifies this`receipts
      ensures receipts == AddReceipts(old(receipts), h, ModelEntries(id, run), stamps[..|ModelEntries(id, run)|])
      ensures ids == Ids(stamps[..|ModelEntries(id, run)|])
    {
      var loaded := |receipts|;
      ids := AddAnalyses(id, run.analyses, stamps);
      assert run.analyses[..|run.analyses|] == run.analyses;
      ghost var entries := AnalysisEntries(id, run.analyses);
      if run.synthesis.Some? {
        var e := Entry(ResearchSynthesis(run.synthesisModel), id);
        ghost var rs := receipts;
        AddReceipt(loaded, e.kind, id, stamps[|run.analyses|]);
        ids := ids + [stamps[|run.analyses|].id];
        OneMoreReceipt(old(receipts), h, entries, stamps, e, rs, receipts);
      } else {
        assert entries + [] == entries;
      }
    }

    /** A receipt for each model call and one for the run, then the record with all of them. */
    method AttachReceipts(id: string, after: Run, stamps: seq<Stamp>, now: int)
      requires |stamps| == |EndEntries(id, after)|
      modifies this`receipts, this`research
      ensures receipts == AddReceipts(old(receipts), h, EndEntries(id, after), stamps)
      ensures research == old(research)[id := Attached(after, Ids(stamps), now)]
    {
      var loaded := |receipts|;
      var ids := AddModelCalls(id, after, stamps);
      ghost var entries, rs := ModelEntries(id, after), receipts;
      var last := stamps[|stamps| - 1];
      var kind := ResearchEnded(after.status == IsCompleted, after.runSha);
      AddReceipt(loaded, kind, id, last);
      ids := ids + [last.id];
      OneMoreReceipt(old(receipts), h, entries, stamps, Entry(kind, id), rs, receipts);
      assert stamps[..|entries| + 1] == stamps;
      research := research[id := after.(receiptIds := after.receiptIds + ids, updatedAt := now)];
    }

    /** The end of the background task, however its run ended. */
    method FinishResearch(id: string, after: Run, stamps: seq<Stamp>, now: int)
      requires id in running && |stamps| == |EndEntries(id, after)|
      modifies this
      ensures State() == Perform(old(State()), EndResearch(id, after, now), h, stamps)
      ensures id in research && EndReceipted(old(receipts), receipts, id, after, research[id])
      ensures old(Valid() && Later(receipts, stamps) && Fits(State(), EndResearch(id, after, now), sha)) ==> Valid()
    {
      if Valid() && Later(receipts, stamps) && Fits(State(), EndResearch(id, after, now), sha) {
        StepKeeps(State(), EndResearch(id, after, now), h, stamps, sha);
      }
      AttachReceipts(id, after, stamps, now);
      EndIsReceipted(old(receipts), h, id, after, stamps, now);
      running := running - {id};
      assert State() == Perform(old(State()), EndResearch(id, after, now), h, stamps);
    }
  }

  /** The receipts of the first `i` analyses were added to `base`; `ids` are theirs. */
  predicate Receipted(base: seq<Receipt>, h: Hash, id: string, analyses: seq<Analysis>, i: nat, stamps: seq<Stamp>,
                      receipts: seq<Receipt>, ids: seq<string>) {
    && i <= |analyses| <= |stamps|
    && receipts == AddReceipts(base, h, AnalysisEntries(id, analyses[..i]), stamps[..i])
    && ids == Ids(stamps[..i])
  }

  lemma ReceiptedNext(base: seq<Receipt>, h: Hash, id: string, analyses: seq<Analysis>, i: nat, stamps: seq<Stamp>,
                      rs: seq<Receipt>, ids: seq<string>, rs': seq<Receipt>)
    requires i < |analyses| <= |stamps| && Receipted(base, h, id, analyses, i, stamps, rs, ids)
    requires rs' == rs + [StampedReceipt(rs, |base|, h, Entry(ResearchAnalysis(analyses[i].model), id), stamps[i])]
    ensures Receipted(base, h, id, analyses, i + 1, stamps, rs', ids + [stamps[i].id])
  {
    var entries := AnalysisEntries(id, analyses[..i]);
    assert analyses[..i + 1][..i] == analyses[..i];
    OneMoreReceipt(base, h, entries, stamps, Entry(ResearchAnalysis(analyses[i].model), id), rs, rs');
  }

  /** One more receipt, at the next stamp. */
  lemma OneMoreReceipt(base: seq<Receipt>, h: Hash, entries: seq<Entry>, stamps: seq<Stamp>, e: Entry,
                       rs: seq<Receipt>, rs': seq<Receipt>)
    requires |entries| < |stamps|
    requires rs == AddReceipts(base, h, entries, stamps[..|entries|])
    requires rs' == rs + [StampedReceipt(rs, |base|, h, e, stamps[|entries|])]
    ensures rs' == AddReceipts(base, h, entries + [e], stamps[..|entries| + 1])
    ensures Ids(stamps[..|entries| + 1]) == Ids(stamps[..|entries|]) + [stamps[|entries|].id]
  {
    var n := |entries|;
    NextStamp(stamps, n);
    AddReceiptsAppend(base, h, entries, stamps[..n], e, stamps[n]);
    IdsAppend(stamps[..n], stamps[n]);
  }

  lemma NextStamp(stamps: seq<Stamp>, n: nat)
    requires n < |stamps|
    ensures stamps[..n + 1] == stamps[..n] + [stamps[n]]
  {
  }

  lemma AddReceiptsAppend(base: seq<Receipt>, h: Hash, entries: seq<Entry>, stamps: seq<Stamp>, e: Entry, stamp: Stamp)
    requires |stamps| == |entries|
    ensures var rs := AddReceipts(base, h, entries, stamps);
            AddReceipts(base, h, entries + [e], stamps + [stamp]) ==
            rs + [StampedReceipt(rs, |base|, h, e, stamp)]
  {
    var n := |entries|;
    assert (entries + [e])[..n] == entries && (stamps + [stamp])[..n] == stamps;
  }

  lemma IdsAppend(stamps: seq<Stamp>, stamp: Stamp)
    ensures Ids(stamps + [stamp]) == Ids(stamps) + [stamp.id]
  {
    assert (stamps + [stamp])[..|stamps|] == stamps;
  }
}

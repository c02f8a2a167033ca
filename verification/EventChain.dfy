/** The event stream: rows chained by hash per run or chat. The evidence ledger has the same shape. */
module EventChain {
  import opened Text

  type Hash = string -> string

  /** What the hash of an event covers, and the partition it belongs to. `payload` is the digest of
      the payload. */
  datatype Emission = Emission(id: string, ts: string, tenant: string, run: Option<string>, chat: Option<string>,
                               payload: string)

  /** A row of event_stream. */
  datatype Row = Row(e: Emission, prev: Option<string>, sha: string)

  /** The rows that the query for a previous hash selects: those of the run, or without a run those
      of the chat, whatever their run. A row without a chat holds NULL and is never selected by chat. */
  predicate Selected(row: Row, tenant: string, run: Option<string>, chat: Option<string>) {
    row.e.tenant == tenant && if Given(run) then row.e.run == run else row.e.chat == ChatKey(chat)
  }

  predicate Given(run: Option<string>) {
    run.Some? && run.value != []
  }

  function ChatKey(chat: Option<string>): Option<string> {
    Some(if chat.Some? then chat.value else [])
  }

  function Select(rows: seq<Row>, tenant: string, run: Option<string>, chat: Option<string>): seq<Row> {
    if rows == [] then []
    else
      var last := rows[|rows| - 1];
      Select(rows[..|rows| - 1], tenant, run, chat) + (if Selected(last, tenant, run, chat) then [last] else [])
  }

  /** What `ORDER BY ts DESC LIMIT 1` may find: a row that no other is newer than. Of rows with one
      timestamp it may be any. */
  predicate NewestLink(own: seq<Row>, prev: Option<string>) {
    if own == [] then prev.None?
    else exists k :: 0 <= k < |own| && prev == Some(own[k].sha) && NoneNewer(own, own[k].e.ts)
  }

  predicate NoneNewer(own: seq<Row>, ts: string) {
    forall j :: 0 <= j < |own| ==> !TextLess(ts, own[j].e.ts)
  }

  /** One such choice: the first of the newest rows. */
  function Newest(rows: seq<Row>): Option<Row> {
    if rows == [] then None
    else
      var m, last := Newest(rows[..|rows| - 1]), rows[|rows| - 1];
      if m.None? || TextLess(m.value.e.ts, last.e.ts) then Some(last) else m
  }

  function ShaOf(row: Option<Row>): Option<string> {
    if row.None? then None else Some(row.value.sha)
  }

  /** `_event_prev_sha`. */
  function PrevSha(rows: seq<Row>, tenant: string, run: Option<string>, chat: Option<string>): Option<string> {
    ShaOf(Newest(Select(rows, tenant, run, chat)))
  }

  /** The text that is hashed. */
  function Input(prev: Option<string>, e: Emission): string {
    (if prev.Some? then prev.value else []) + ":" + (e.id + ":" + (e.ts + ":" + e.payload))
  }

  /** A table that emitting events one by one can lead to, however ties are broken. */
  predicate Emitted(rows: seq<Row>, h: Hash) {
    forall i :: 0 <= i < |rows| ==>
      var e := rows[i].e;
      && NewestLink(Select(rows[..i], e.tenant, e.run, e.chat), rows[i].prev)
      && rows[i].sha == h(Input(rows[i].prev, e))
  }

  predicate DistinctIds(rows: seq<Row>) {
    forall i, j :: 0 <= i < j < |rows| ==> rows[i].e.id != rows[j].e.id
  }

  /** The row that emitting an event appends when the first of the newest rows is found. */
  function Emit(rows: seq<Row>, e: Emission, h: Hash): Row {
    var prev := PrevSha(rows, e.tenant, e.run, e.chat);
    Row(e, prev, h(Input(prev, e)))
  }

  function EmitAll(es: seq<Emission>, h: Hash): (rows: seq<Row>)
    ensures |rows| == |es|
  {
    if es == [] then []
    else
      var rows := EmitAll(es[..|es| - 1], h);
      rows + [Emit(rows, es[|es| - 1], h)]
  }

  // ---------------------------------------------------------------- linear chains

  /** Every row names the hash of the row before it. */
  predicate Linear(rows: seq<Row>) {
    && (rows != [] ==> rows[0].prev.None?)
    && forall i :: 0 < i < |rows| ==> rows[i].prev == Some(rows[i - 1].sha)
  }

  /** Each timestamp sorts after the one before it. */
  predicate Rising(rows: seq<Row>) {
    forall i :: 0 < i < |rows| ==> TextLess(rows[i - 1].e.ts, rows[i].e.ts)
  }

  predicate DistinctShas(rows: seq<Row>) {
    forall i, j :: 0 <= i < j < |rows| ==> rows[i].sha != rows[j].sha
  }

  /** Every row names the newest of the rows before it. */
  predicate LinksToNewest(rows: seq<Row>) {
    forall i :: 0 <= i < |rows| ==> rows[i].prev == ShaOf(Newest(rows[..i]))
  }

  /** A partition that its own events read: a run, or a chat without events of runs. */
  predicate Whole(es: seq<Emission>, tenant: string, run: Option<string>, chat: Option<string>) {
    || Given(run)
    || forall i :: 0 <= i < |es| && es[i].tenant == tenant && es[i].chat == ChatKey(chat) ==> !Given(es[i].run)
  }

  /** An event of such a partition queries that partition. */
  lemma {:induction false} OwnQuery(rows: seq<Row>, e: Emission, tenant: string, run: Option<string>,
                                    chat: Option<string>)
    requires Selected(Row(e, None, []), tenant, run, chat) && (Given(run) || !Given(e.run))
    ensures Select(rows, e.tenant, e.run, e.chat) == Select(rows, tenant, run, chat)
  {
    if rows != [] {
      OwnQuery(rows[..|rows| - 1], e, tenant, run, chat);
    }
  }

  lemma {:induction false} PartitionLinksToNewest(es: seq<Emission>, h: Hash,
                                                  tenant: string, run: Option<string>, chat: Option<string>)
    requires Whole(es, tenant, run, chat)
    ensures LinksToNewest(Select(EmitAll(es, h), tenant, run, chat))
  {
    if es != [] {
      var n := |es| - 1;
      PartitionLinksToNewest(es[..n], h, tenant, run, chat);
      var rows := EmitAll(es[..n], h);
      var row := Emit(rows, es[n], h);
      var own := Select(rows, tenant, run, chat);
      SelectAppend(rows, row, tenant, run, chat);
      if Selected(row, tenant, run, chat) {
        OwnQuery(rows, es[n], tenant, run, chat);
        LinksAppend(own, row);
      } else {
        assert own + [] == own;
      }
    }
  }

  lemma SelectAppend(rows: seq<Row>, row: Row, tenant: string, run: Option<string>, chat: Option<string>)
    ensures Select(rows + [row], tenant, run, chat) ==
            Select(rows, tenant, run, chat) + (if Selected(row, tenant, run, chat) then [row] else [])
  {
    assert (rows + [row])[..|rows|] == rows;
  }

  lemma LinksAppend(rows: seq<Row>, row: Row)
    requires LinksToNewest(rows) && row.prev == ShaOf(Newest(rows))
    ensures LinksToNewest(rows + [row])
  {
    var all := rows + [row];
    forall i | 0 <= i < |all| ensures all[i].prev == ShaOf(Newest(all[..i])) {
      if i < |rows| {
        assert all[..i] == rows[..i];
      } else {
        assert all[..i] == rows;
      }
    }
  }

  lemma {:induction false} NewestIsOne(rows: seq<Row>)
    requires rows != []
    ensures Newest(rows).Some? && Newest(rows).value in rows
  {
    if |rows| > 1 {
      NewestIsOne(rows[..|rows| - 1]);
    }
  }

  lemma {:induction false} RisingNewestIsLast(rows: seq<Row>)
    requires rows != [] && Rising(rows)
    ensures Newest(rows) == Some(rows[|rows| - 1])
  {
    if |rows| > 1 {
      var rest := rows[..|rows| - 1];
      forall i | 0 < i < |rest| ensures TextLess(rest[i - 1].e.ts, rest[i].e.ts) {
        assert rest[i - 1] == rows[i - 1] && rest[i] == rows[i];
      }
      RisingNewestIsLast(rest);
    }
  }

  /** If the newest of a prefix is its last row, and that of a shorter one likewise, they rise. */
  lemma LastIsNewest(rows: seq<Row>, i: nat)
    requires 0 < i < |rows| && DistinctShas(rows) && ShaOf(Newest(rows[..i + 1])) == Some(rows[i].sha)
    ensures Newest(rows[..i]).Some? && TextLess(Newest(rows[..i]).value.e.ts, rows[i].e.ts)
  {
    assert rows[..i + 1][..i] == rows[..i];
    NewestIsOne(rows[..i]);
    var k :| 0 <= k < i && rows[k] == Newest(rows[..i]).value;
  }

  lemma NewestBySha(rows: seq<Row>, i: nat)
    requires 0 < i <= |rows| && DistinctShas(rows) && ShaOf(Newest(rows[..i])) == Some(rows[i - 1].sha)
    ensures Newest(rows[..i]) == Some(rows[i - 1])
  {
    NewestIsOne(rows[..i]);
    var k :| 0 <= k < i && rows[k] == Newest(rows[..i]).value;
  }

  /** Rows that name the newest before them form one chain without a fork if and only if their
      timestamps, but for the last one, rise in text order. */
  lemma LinearIffRising(rows: seq<Row>)
    requires LinksToNewest(rows) && DistinctShas(rows) && rows != []
    ensures Linear(rows) <==> Rising(rows[..|rows| - 1])
  {
    if Rising(rows[..|rows| - 1]) {
      forall i | 0 < i < |rows| ensures rows[i].prev == Some(rows[i - 1].sha) {
        RisingPrefix(rows, i);
        RisingNewestIsLast(rows[..i]);
      }
    }
    if Linear(rows) {
      forall i | 0 < i < |rows| - 1 ensures TextLess(rows[i - 1].e.ts, rows[i].e.ts) {
        assert rows[i].prev == Some(rows[i - 1].sha) && rows[i + 1].prev == Some(rows[i].sha);
        NewestBySha(rows, i);
        LastIsNewest(rows, i);
      }
    }
  }

  lemma RisingPrefix(rows: seq<Row>, i: nat)
    requires i < |rows| && Rising(rows[..|rows| - 1])
    ensures Rising(rows[..i])
  {
    forall k | 0 < k < i ensures TextLess(rows[..i][k - 1].e.ts, rows[..i][k].e.ts) {
      assert rows[..|rows| - 1][k - 1] == rows[k - 1] && rows[..|rows| - 1][k] == rows[k];
    }
  }

  /** Every row names one of the newest of the rows before it. */
  predicate LinksToSomeNewest(own: seq<Row>) {
    forall i :: 0 <= i < |own| ==> NewestLink(own[..i], own[i].prev)
  }

  lemma SomeLinksAppend(own: seq<Row>, row: Row)
    requires LinksToSomeNewest(own) && NewestLink(own, row.prev)
    ensures LinksToSomeNewest(own + [row])
  {
    var all := own + [row];
    forall i | 0 <= i < |all| ensures NewestLink(all[..i], all[i].prev) {
      assert all[..i] == if i < |own| then own[..i] else own;
    }
  }

  lemma {:induction false} PartitionLinksToSomeNewest(rows: seq<Row>, es: seq<Emission>, h: Hash,
                                                      tenant: string, run: Option<string>, chat: Option<string>)
    requires Of(rows, es) && Whole(es, tenant, run, chat) && Emitted(rows, h)
    ensures LinksToSomeNewest(Select(rows, tenant, run, chat))
  {
    if rows != [] {
      var n := |rows| - 1;
      var row, before := rows[n], rows[..n];
      EmittedPrefix(rows, h);
      PartitionLinksToSomeNewest(before, es[..n], h, tenant, run, chat);
      assert rows == before + [row];
      var own := Select(before, tenant, run, chat);
      if Selected(row, tenant, run, chat) {
        OwnQuery(before, row.e, tenant, run, chat);
        SomeLinksAppend(own, row);
      } else {
        assert own + [] == own;
      }
    }
  }

  lemma EmittedPrefix(rows: seq<Row>, h: Hash)
    requires rows != [] && Emitted(rows, h)
    ensures Emitted(rows[..|rows| - 1], h)
  {
    var n := |rows| - 1;
    forall i | 0 <= i < n
      ensures NewestLink(Select(rows[..n][..i], rows[i].e.tenant, rows[i].e.run, rows[i].e.chat), rows[i].prev)
    {
      assert rows[..n][..i] == rows[..i];
    }
  }

  /** Of rising rows the newest is the last one, however ties are broken. */
  lemma RisingLink(own: seq<Row>, prev: Option<string>)
    requires own != [] && Rising(own) && NewestLink(own, prev)
    ensures prev == Some(own[|own| - 1].sha)
  {
    forall k | 0 <= k < |own| - 1 ensures !NoneNewer(own, own[k].e.ts) {
      assert TextLess(own[k + 1 - 1].e.ts, own[k + 1].e.ts);
    }
    var k :| 0 <= k < |own| && prev == Some(own[k].sha) && NoneNewer(own, own[k].e.ts);
  }

  lemma RisingLinksAreLinear(own: seq<Row>)
    requires LinksToSomeNewest(own)
    requires own != [] && Rising(own[..|own| - 1])
    ensures Linear(own)
  {
    assert own[..0] == [] && NewestLink(own[..0], own[0].prev);
    forall i | 0 < i < |own| ensures own[i].prev == Some(own[i - 1].sha) {
      RisingPrefix(own, i);
      RisingLink(own[..i], own[i].prev);
    }
  }

  /** However ties were broken: a partition whose events rise, but for the last, is linear in a table
      of the same events. */
  lemma RisingIsLinear(es: seq<Emission>, all: seq<Row>, rows: seq<Row>, h: Hash,
                       tenant: string, run: Option<string>, chat: Option<string>, own: seq<Row>)
    requires Whole(es, tenant, run, chat) && Of(all, es) && Of(rows, es) && Emitted(rows, h)
    requires own == Select(all, tenant, run, chat) && own != [] && Rising(own[..|own| - 1])
    ensures Linear(Select(rows, tenant, run, chat))
  {
    var own' := Select(rows, tenant, run, chat);
    PartitionLinksToSomeNewest(rows, es, h, tenant, run, chat);
    SelectSameEvents(all, rows, tenant, run, chat);
    RisingSame(own, own');
    RisingLinksAreLinear(own');
  }

  /** The first of the newest rows is one of the newest, and so `EmitAll` is one way to go. */
  lemma {:induction false} FirstIsNewest(rows: seq<Row>)
    ensures NewestLink(rows, ShaOf(Newest(rows)))
    ensures rows != [] ==> Newest(rows).Some? && NoneNewer(rows, Newest(rows).value.e.ts)
  {
    if rows != [] {
      var n := |rows| - 1;
      FirstIsNewest(rows[..n]);
      NewestIsOne(rows);
      var m := Newest(rows).value;
      forall j | 0 <= j < |rows| ensures !TextLess(m.e.ts, rows[j].e.ts) {
        if n > 0 && j < n {
          assert rows[..n][j] == rows[j];
          if m != Newest(rows[..n]).value {
            LessIsTransitive(Newest(rows[..n]).value.e.ts, m.e.ts, rows[j].e.ts);
          }
        } else {
          LessIsIrreflexive(rows[n].e.ts, m.e.ts);
        }
      }
      var k :| 0 <= k < |rows| && rows[k] == m;
    }
  }

  lemma EmittedAppend(rows: seq<Row>, e: Emission, h: Hash)
    ensures Emitted(rows, h) ==> Emitted(rows + [Emit(rows, e, h)], h)
  {
    FirstIsNewest(Select(rows, e.tenant, e.run, e.chat));
    var all := rows + [Emit(rows, e, h)];
    if Emitted(rows, h) {
      forall i | 0 <= i < |all|
        ensures NewestLink(Select(all[..i], all[i].e.tenant, all[i].e.run, all[i].e.chat), all[i].prev)
        ensures all[i].sha == h(Input(all[i].prev, all[i].e))
      {
        assert all[..i] == if i < |rows| then rows[..i] else rows;
      }
    }
  }

  lemma {:induction false} EmitAllIsEmitted(es: seq<Emission>, h: Hash)
    ensures Emitted(EmitAll(es, h), h) && Of(EmitAll(es, h), es)
  {
    if es != [] {
      var n := |es| - 1;
      EmitAllIsEmitted(es[..n], h);
      EmittedAppend(EmitAll(es[..n], h), es[n], h);
    }
  }

  /** The events of a table. */
  predicate Of(rows: seq<Row>, es: seq<Emission>) {
    |rows| == |es| && forall i :: 0 <= i < |rows| ==> rows[i].e == es[i]
  }

  lemma {:induction false} SelectSameEvents(rows: seq<Row>, rows': seq<Row>, tenant: string, run: Option<string>,
                                            chat: Option<string>)
    requires |rows| == |rows'| && forall i :: 0 <= i < |rows| ==> rows[i].e == rows'[i].e
    ensures var own, own' := Select(rows, tenant, run, chat), Select(rows', tenant, run, chat);
            |own| == |own'| && forall i :: 0 <= i < |own| ==> own[i].e == own'[i].e
  {
    if rows != [] {
      SelectSameEvents(rows[..|rows| - 1], rows'[..|rows'| - 1], tenant, run, chat);
    }
  }

  lemma RisingSame(own: seq<Row>, own': seq<Row>)
    requires |own| == |own'| != 0 && Rising(own[..|own| - 1]) && forall i :: 0 <= i < |own| ==> own[i].e == own'[i].e
    ensures Rising(own'[..|own'| - 1])
  {
    var n := |own| - 1;
    forall i | 0 < i < n ensures TextLess(own'[..n][i - 1].e.ts, own'[..n][i].e.ts) {
      assert own[..n][i - 1] == own[i - 1] && own[..n][i] == own[i];
    }
  }

  /** Rows of distinct events that link back have distinct hashes, or show a collision. */
  lemma DistinctOrCollide(rows: seq<Row>, h: Hash)
    requires Digests(h) && Hashed(rows, h) && DistinctIds(rows) && !Collide(rows, rows, h)
    requires forall i :: 0 <= i < |rows| ==> LinksBack(rows, i)
    ensures DistinctShas(rows)
  {
    forall i, j | 0 <= i < j < |rows| ensures rows[i].sha != rows[j].sha {
      PrevIsDigest(rows, h, i);
      PrevIsDigest(rows, h, j);
      if Input(rows[i].prev, rows[i].e) == Input(rows[j].prev, rows[j].e) {
        InputIsInjective(rows[i].prev, rows[i].e, rows[j].prev, rows[j].e);
      }
    }
  }

  lemma PrevIsDigest(rows: seq<Row>, h: Hash, i: nat)
    requires Digests(h) && Hashed(rows, h) && i < |rows| && LinksBack(rows, i)
    ensures rows[i].prev.Some? ==> rows[i].prev.value != [] && ':' !in rows[i].prev.value
  {
    if rows[i].prev.Some? {
      var k :| 0 <= k < i && Some(rows[k].sha) == rows[i].prev;
      var input := Input(rows[k].prev, rows[k].e);
      assert h(input) != [] && ':' !in h(input);
    }
  }

  lemma EmittedDistinct(rows: seq<Row>, h: Hash)
    requires Digests(h) && Emitted(rows, h) && DistinctIds(rows) && !Collide(rows, rows, h)
    requires forall i :: 0 <= i < |rows| ==> Plain(rows[i].e)
    ensures DistinctShas(rows)
  {
    forall i | 0 <= i < |rows| ensures LinksBack(rows, i) {
      LinksAreWellFounded(rows, h, i);
    }
    DistinctOrCollide(rows, h);
  }

  lemma {:induction false} SelectDistinct(rows: seq<Row>, tenant: string, run: Option<string>, chat: Option<string>)
    requires DistinctShas(rows)
    ensures DistinctShas(Select(rows, tenant, run, chat))
  {
    if rows != [] {
      var n := |rows| - 1;
      SelectDistinct(rows[..n], tenant, run, chat);
      SelectTakes(rows[..n], tenant, run, chat);
      var own := Select(rows[..n], tenant, run, chat);
      forall i | 0 <= i < |own| ensures own[i].sha != rows[n].sha {
        assert own[i] in rows[..n];
      }
    }
  }

  /** Events with one id each, whose hashed texts do not collide when they are emitted. */
  ghost predicate Clean(es: seq<Emission>, h: Hash) {
    && Digests(h) && !Collide(EmitAll(es, h), EmitAll(es, h), h)
    && (forall i :: 0 <= i < |es| ==> Plain(es[i]))
    && (forall i, j :: 0 <= i < j < |es| ==> es[i].id != es[j].id)
  }

  lemma CleanIsDistinct(es: seq<Emission>, h: Hash, tenant: string, run: Option<string>, chat: Option<string>)
    requires Clean(es, h)
    ensures DistinctShas(Select(EmitAll(es, h), tenant, run, chat))
  {
    EmitAllIsEmitted(es, h);
    EmittedDistinct(EmitAll(es, h), h);
    SelectDistinct(EmitAll(es, h), tenant, run, chat);
  }

  /** Every table that emitting the events one by one can lead to holds the partition as one chain. */
  ghost predicate SurelyLinear(es: seq<Emission>, h: Hash, tenant: string, run: Option<string>, chat: Option<string>) {
    forall rows :: Of(rows, es) && Emitted(rows, h) ==> Linear(Select(rows, tenant, run, chat))
  }

  lemma PartitionIsLinearIff(es: seq<Emission>, h: Hash,
                             tenant: string, run: Option<string>, chat: Option<string>, own: seq<Row>)
    requires Whole(es, tenant, run, chat) && Clean(es, h)
    requires own == Select(EmitAll(es, h), tenant, run, chat) && own != []
    ensures SurelyLinear(es, h, tenant, run, chat) <==> Rising(own[..|own| - 1])
  {
    var all := EmitAll(es, h);
    EmitAllIsEmitted(es, h);
    assert Of(all, es);
    CleanIsDistinct(es, h, tenant, run, chat);
    PartitionLinksToNewest(es, h, tenant, run, chat);
    LinearIffRising(own);
    if Rising(own[..|own| - 1]) {
      forall rows | Of(rows, es) && Emitted(rows, h) ensures Linear(Select(rows, tenant, run, chat)) {
        RisingIsLinear(es, all, rows, h, tenant, run, chat, own);
      }
    }
  }

  /** Whatever is emitted, in any interleaving of whole emissions: the events of one run are sure to
      form one chain without a fork, however ties are broken, if and only if their timestamps, but
      for the last one, rise in text order; or two of the hashed texts collide. */
  lemma RunIsLinearIff(es: seq<Emission>, h: Hash, tenant: string, run: string, own: seq<Row>)
    requires run != [] && Clean(es, h)
    requires own == Select(EmitAll(es, h), tenant, Some(run), None) && own != []
    ensures SurelyLinear(es, h, tenant, Some(run), None) <==> Rising(own[..|own| - 1])
  {
    PartitionIsLinearIff(es, h, tenant, Some(run), None, own);
  }

  /** A chat none of whose events belongs to a run is a chain like a run. */
  lemma RunlessChatIsLinearIff(es: seq<Emission>, h: Hash, tenant: string, chat: string, own: seq<Row>)
    requires forall i :: 0 <= i < |es| && es[i].tenant == tenant && es[i].chat == Some(chat) ==> !WithRun(es[i])
    requires Clean(es, h)
    requires own == Select(EmitAll(es, h), tenant, None, Some(chat)) && own != []
    ensures SurelyLinear(es, h, tenant, None, Some(chat)) <==> Rising(own[..|own| - 1])
  {
    PartitionIsLinearIff(es, h, tenant, None, Some(chat), own);
  }

  predicate WithRun(e: Emission) {
    Given(e.run)
  }

  function LastRow(rows: seq<Row>): Option<Row> {
    if rows == [] then None else Some(rows[|rows| - 1])
  }

  predicate PairwiseRising(rows: seq<Row>) {
    forall i, j :: 0 <= i < j < |rows| ==> TextLess(rows[i].e.ts, rows[j].e.ts)
  }

  lemma {:induction false} RisingIsPairwise(rows: seq<Row>)
    requires Rising(rows)
    ensures PairwiseRising(rows)
  {
    if |rows| > 1 {
      var n := |rows| - 1;
      forall i | 0 < i < n ensures TextLess(rows[..n][i - 1].e.ts, rows[..n][i].e.ts) {
        assert TextLess(rows[i - 1].e.ts, rows[i].e.ts);
      }
      RisingIsPairwise(rows[..n]);
      assert TextLess(rows[n - 1].e.ts, rows[n].e.ts);
      forall i | 0 <= i < n ensures TextLess(rows[i].e.ts, rows[n].e.ts) {
        assert rows[..n][i] == rows[i];
        LessIsTransitive(rows[i].e.ts, rows[n - 1].e.ts, rows[n].e.ts);
      }
    }
  }

  lemma {:induction false} SelectRises(rows: seq<Row>, tenant: string, run: Option<string>, chat: Option<string>)
    requires PairwiseRising(rows)
    ensures PairwiseRising(Select(rows, tenant, run, chat))
  {
    if rows != [] {
      var n := |rows| - 1;
      SelectRises(rows[..n], tenant, run, chat);
      SelectTakes(rows[..n], tenant, run, chat);
      var own := Select(rows[..n], tenant, run, chat);
      forall i | 0 <= i < |own| ensures TextLess(own[i].e.ts, rows[n].e.ts) {
        assert own[i] in rows[..n];
      }
    }
  }

  /** With rising timestamps every row names the last one before it in its partition. */
  lemma RisingLinksToLast(rows: seq<Row>, h: Hash, i: nat)
    requires Emitted(rows, h) && PairwiseRising(rows) && i < |rows|
    ensures var e := rows[i].e; rows[i].prev == ShaOf(LastRow(Select(rows[..i], e.tenant, e.run, e.chat)))
  {
    var e := rows[i].e;
    var own := Select(rows[..i], e.tenant, e.run, e.chat);
    SelectRises(rows[..i], e.tenant, e.run, e.chat);
    if own != [] {
      RisingLink(own, rows[i].prev);
    }
  }

  /** Row `i`, if it is of the partition, names the one before it there. */
  predicate InChain(rows: seq<Row>, tenant: string, run: Option<string>, chat: Option<string>, i: nat)
    requires i < |rows|
  {
    Selected(rows[i], tenant, run, chat) ==> rows[i].prev == ShaOf(LastRow(Select(rows[..i], tenant, run, chat)))
  }

  lemma {:induction false} LinearByRow(rows: seq<Row>, tenant: string, run: Option<string>, chat: Option<string>)
    ensures Linear(Select(rows, tenant, run, chat)) <==>
            forall i :: 0 <= i < |rows| ==> InChain(rows, tenant, run, chat, i)
  {
    if rows != [] {
      var n := |rows| - 1;
      var before, row := rows[..n], rows[n];
      LinearByRow(before, tenant, run, chat);
      forall i | 0 <= i < n ensures InChain(before, tenant, run, chat, i) == InChain(rows, tenant, run, chat, i) {
        assert before[..i] == rows[..i];
      }
      var own := Select(before, tenant, run, chat);
      if Selected(row, tenant, run, chat) {
        LinearAppend(own, row);
      } else {
        assert own + [] == own;
        assert InChain(rows, tenant, run, chat, n);
      }
      assert (forall i :: 0 <= i < |rows| ==> InChain(rows, tenant, run, chat, i)) <==>
             (forall i :: 0 <= i < n ==> InChain(rows, tenant, run, chat, i)) && InChain(rows, tenant, run, chat, n);
    }
  }

  lemma LinearAppend(own: seq<Row>, row: Row)
    ensures Linear(own + [row]) <==> Linear(own) && row.prev == ShaOf(LastRow(own))
  {
    var all := own + [row];
    if Linear(all) {
      assert all[|own|] == row;
      if own != [] {
        assert all[0] == own[0] && all[|own|].prev == Some(all[|own| - 1].sha);
      }
      forall i | 0 < i < |own| ensures own[i].prev == Some(own[i - 1].sha) {
        assert all[i].prev == Some(all[i - 1].sha);
      }
    }
  }

  /** Before row `i`, the last event of its run is the last event of its chat. */
  predicate RunFollowsChat(rows: seq<Row>, i: nat)
    requires i < |rows|
  {
    var e := rows[i].e;
    LastRow(Select(rows[..i], e.tenant, e.run, None)) == LastRow(Select(rows[..i], e.tenant, None, e.chat))
  }

  lemma LastRowIsIn(rows: seq<Row>, tenant: string, run: Option<string>, chat: Option<string>)
    ensures var last := LastRow(Select(rows, tenant, run, chat)); last.Some? ==> last.value in rows
  {
    SelectTakes(rows, tenant, run, chat);
  }

  lemma InChainIff(rows: seq<Row>, h: Hash, tenant: string, chat: string, i: nat)
    requires Emitted(rows, h) && PairwiseRising(rows) && DistinctShas(rows) && i < |rows|
    requires Selected(rows[i], tenant, None, Some(chat))
    ensures InChain(rows, tenant, None, Some(chat), i) <==> (WithRun(rows[i].e) ==> RunFollowsChat(rows, i))
  {
    var e, before := rows[i].e, rows[..i];
    RisingLinksToLast(rows, h, i);
    if WithRun(e) {
      OwnQuery(before, e, tenant, e.run, None);
      LastRowIsIn(before, tenant, e.run, None);
      LastRowIsIn(before, tenant, None, Some(chat));
      var r, c := LastRow(Select(before, tenant, e.run, None)), LastRow(Select(before, tenant, None, Some(chat)));
      if ShaOf(r) == ShaOf(c) && r.Some? && c.Some? {
        var j :| 0 <= j < i && rows[j] == r.value;
        var k :| 0 <= k < i && rows[k] == c.value;
        assert j == k;
      }
    } else {
      OwnQuery(before, e, tenant, None, Some(chat));
    }
  }

  /** With rising timestamps, and unless two hashed texts collide: the events of a chat form one chain
      without a fork if and only if, before each of them that belongs to a run, the last event of
      that run is the last event of the chat (none of both, for the first). */
  lemma ChatIsLinearIff(rows: seq<Row>, h: Hash, tenant: string, chat: string)
    requires Emitted(rows, h) && Rising(rows) && DistinctIds(rows) && forall i :: 0 <= i < |rows| ==> Plain(rows[i].e)
    requires Digests(h) && !Collide(rows, rows, h)
    ensures Linear(Select(rows, tenant, None, Some(chat))) <==>
            forall i :: 0 <= i < |rows| && Selected(rows[i], tenant, None, Some(chat)) && WithRun(rows[i].e) ==>
              RunFollowsChat(rows, i)
  {
    RisingIsPairwise(rows);
    EmittedDistinct(rows, h);
    LinearByRow(rows, tenant, None, Some(chat));
    forall i | 0 <= i < |rows| && Selected(rows[i], tenant, None, Some(chat))
      ensures InChain(rows, tenant, None, Some(chat), i) <==> (WithRun(rows[i].e) ==> RunFollowsChat(rows, i))
    {
      InChainIff(rows, h, tenant, chat, i);
    }
  }

  /** A chat whose events belong to runs in part can fork even with rising timestamps: after an
      event of a run, a later one of the chat alone and one of the run name the same row. */
  lemma ChatOfRunForks(a: Emission, b: Emission, c: Emission, h: Hash)
    requires WithRun(a) && !WithRun(b) && c.run == a.run
    requires a.tenant == b.tenant == c.tenant && a.chat.Some? && a.chat == b.chat == c.chat
    ensures var rows := EmitAll([a] + [b] + [c], h);
            && Selected(rows[1], a.tenant, None, a.chat) && Selected(rows[2], a.tenant, None, a.chat)
            && rows[1].prev == rows[2].prev == Some(rows[0].sha)
  {
    var r0 := Emit([], a, h);
    var r1 := Emit([r0], b, h);
    EmitThree(a, b, c, h);
    NewestOfOne(r0, b);
    SelectAppend([r0], r1, c.tenant, c.run, c.chat);
    NewestOfOne(r0, c);
    assert [r0] + [] == [r0];
    assert PrevSha([r0], b.tenant, b.run, b.chat) == Some(r0.sha);
    assert PrevSha([r0] + [r1], c.tenant, c.run, c.chat) == Some(r0.sha);
  }

  lemma EmitThree(a: Emission, b: Emission, c: Emission, h: Hash)
    ensures var r0 := Emit([], a, h);
            var r1 := Emit([r0], b, h);
            EmitAll([a] + [b] + [c], h) == [r0] + [r1] + [Emit([r0] + [r1], c, h)]
  {
    var r0 := Emit([], a, h);
    assert [] + [a] == [a] && [] + [r0] == [r0];
    EmitAppend([], a, h);
    EmitAppend([a], b, h);
    EmitAppend([a] + [b], c, h);
  }

  lemma EmitAppend(es: seq<Emission>, e: Emission, h: Hash)
    ensures EmitAll(es + [e], h) == EmitAll(es, h) + [Emit(EmitAll(es, h), e, h)]
  {
    assert (es + [e])[..|es|] == es;
  }

  lemma NewestOfOne(row: Row, e: Emission)
    requires Selected(row, e.tenant, e.run, e.chat)
    ensures Select([row], e.tenant, e.run, e.chat) == [row] && Newest([row]) == Some(row)
  {
    SelectAppend([], row, e.tenant, e.run, e.chat);
    assert [] + [row] == [row];
  }

  /** `isoformat` leaves out a fraction of zero, so a whole second sorts after every later fraction
      of that second: time order is not text order. */
  lemma {:induction false} WholeSecondSortsLast(second: string, fraction: string)
    ensures TextLess(second + ("." + fraction), second + "Z")
  {
    if second == [] {
      assert second + ("." + fraction) == "." + fraction && second + "Z" == "Z";
    } else {
      WholeSecondSortsLast(second[1..], fraction);
      assert (second + ("." + fraction))[1..] == second[1..] + ("." + fraction);
      assert (second + "Z")[1..] == second[1..] + "Z";
    }
  }

  // ---------------------------------------------------------------- links into the past

  lemma {:induction false} SelectTakes(rows: seq<Row>, tenant: string, run: Option<string>, chat: Option<string>)
    ensures forall row | row in Select(rows, tenant, run, chat) :: row in rows && Selected(row, tenant, run, chat)
  {
    if rows != [] {
      SelectTakes(rows[..|rows| - 1], tenant, run, chat);
    }
  }

  /** The two events are of one tenant, and of one run; or if `e` has none, of one chat. */
  predicate OnePartition(e: Emission, of: Emission) {
    && e.tenant == of.tenant
    && (of.run.Some? && of.run.value != [] ==> e.run == of.run)
    && (of.run.None? || of.run.value == [] ==>
          e.chat.Some? && e.chat.value == if of.chat.Some? then of.chat.value else [])
  }

  /** The hash that row `i` names is that of a row before it in its partition. */
  predicate LinksBack(rows: seq<Row>, i: nat)
    requires i < |rows|
  {
    rows[i].prev.Some? ==>
      exists k :: 0 <= k < i && Some(rows[k].sha) == rows[i].prev && OnePartition(rows[k].e, rows[i].e)
  }

  /** Row `i` names no row only if there is none before it in its partition. */
  lemma FirstIffUnlinked(rows: seq<Row>, h: Hash, i: nat)
    requires Emitted(rows, h) && i < |rows|
    ensures rows[i].prev.None? <==> forall k :: 0 <= k < i ==> !OnePartition(rows[k].e, rows[i].e)
  {
    var e := rows[i].e;
    SelectedIff(rows[..i], e.tenant, e.run, e.chat);
    forall k | 0 <= k < i ensures OnePartition(rows[k].e, e) <==> Selected(rows[k], e.tenant, e.run, e.chat) {
    }
    var own := Select(rows[..i], e.tenant, e.run, e.chat);
    if own == [] {
      forall k | 0 <= k < i ensures !OnePartition(rows[k].e, e) {
        assert rows[k] in rows[..i] && rows[k] !in own;
      }
    } else {
      var last := own[|own| - 1];
      assert last in own;
      var k :| 0 <= k < i && rows[k] == last;
      assert OnePartition(rows[k].e, e);
    }
  }

  /** A partition's rows are exactly those, in the order of the table. */
  lemma {:induction false} SelectPlaces(rows: seq<Row>, tenant: string, run: Option<string>, chat: Option<string>)
      returns (at: seq<nat>)
    ensures var own := Select(rows, tenant, run, chat);
            && |at| == |own| && (forall i, j :: 0 <= i < j < |at| ==> at[i] < at[j])
            && (forall i :: 0 <= i < |at| ==> at[i] < |rows| && own[i] == rows[at[i]])
    ensures forall n: nat :: n in at <==> n < |rows| && Selected(rows[n], tenant, run, chat)
  {
    at := [];
    if rows != [] {
      var n := |rows| - 1;
      at := SelectPlaces(rows[..n], tenant, run, chat);
      if Selected(rows[n], tenant, run, chat) {
        at := at + [n];
      }
    }
  }

  lemma {:induction false} SelectedIff(rows: seq<Row>, tenant: string, run: Option<string>, chat: Option<string>)
    ensures forall row :: row in Select(rows, tenant, run, chat) <==> row in rows && Selected(row, tenant, run, chat)
  {
    if rows != [] {
      SelectedIff(rows[..|rows| - 1], tenant, run, chat);
      assert rows == rows[..|rows| - 1] + [rows[|rows| - 1]];
    }
  }

  /** Links are well-founded, for runs and for chats and however ties are broken: following them ends. */
  lemma LinksAreWellFounded(rows: seq<Row>, h: Hash, i: nat)
    requires Emitted(rows, h) && i < |rows|
    ensures LinksBack(rows, i)
  {
    var e := rows[i].e;
    assert NewestLink(Select(rows[..i], e.tenant, e.run, e.chat), rows[i].prev);
    if rows[i].prev.Some? {
      var k := LinkedRow(rows[..i], e, rows[i].prev);
      assert rows[..i][k] == rows[k];
    }
  }

  lemma LinkedRow(rows: seq<Row>, e: Emission, prev: Option<string>) returns (k: nat)
    requires prev.Some? && NewestLink(Select(rows, e.tenant, e.run, e.chat), prev)
    ensures k < |rows| && Some(rows[k].sha) == prev && OnePartition(rows[k].e, e)
  {
    var own := Select(rows, e.tenant, e.run, e.chat);
    var j :| 0 <= j < |own| && prev == Some(own[j].sha) && NoneNewer(own, own[j].e.ts);
    SelectTakes(rows, e.tenant, e.run, e.chat);
    assert own[j] in rows;
    k :| 0 <= k < |rows| && rows[k] == own[j];
  }

  // ---------------------------------------------------------------- emissions that overlap

  /** A table of emissions whose query and INSERT are two statements: the query for row `i` saw the
      first `seen[i]` rows. */
  predicate Interleaved(rows: seq<Row>, seen: seq<nat>, h: Hash) {
    |seen| == |rows| && forall i :: 0 <= i < |rows| ==>
      var e := rows[i].e;
      && seen[i] <= i
      && NewestLink(Select(rows[..seen[i]], e.tenant, e.run, e.chat), rows[i].prev)
      && rows[i].sha == h(Input(rows[i].prev, e))
  }

  /** Some event of the run was inserted between the query and the INSERT of row `i` of the run. */
  predicate Overlapped(rows: seq<Row>, seen: seq<nat>, tenant: string, run: Option<string>, i: nat)
    requires |seen| == |rows| && i < |rows|
  {
    Selected(rows[i], tenant, run, None)
    && exists j :: seen[i] <= j < i && Selected(rows[j], tenant, run, None)
  }

  lemma InterleavedLinksBack(rows: seq<Row>, seen: seq<nat>, h: Hash, i: nat)
    requires Interleaved(rows, seen, h) && i < |rows|
    ensures LinksBack(rows, i)
  {
    var e, m := rows[i].e, seen[i];
    assert m <= i && NewestLink(Select(rows[..m], e.tenant, e.run, e.chat), rows[i].prev);
    if rows[i].prev.Some? {
      var k := LinkedRow(rows[..m], e, rows[i].prev);
      assert rows[..m][k] == rows[k];
    }
  }

  lemma EarlierLastDiffers(rows: seq<Row>, m: nat, tenant: string, run: Option<string>, chat: Option<string>)
    requires m < |rows| && DistinctShas(rows)
    ensures ShaOf(LastRow(Select(rows[..m], tenant, run, chat))) != Some(rows[|rows| - 1].sha)
  {
    LastRowIsIn(rows[..m], tenant, run, chat);
    var last := LastRow(Select(rows[..m], tenant, run, chat));
    if last.Some? {
      var k :| 0 <= k < m && rows[k] == last.value;
    }
  }

  /** The last row of a partition among the first `m` rows and among more of them is the same one if
      and only if no later one is of the partition. */
  lemma {:induction false} LastStaysIff(rows: seq<Row>, m: nat, tenant: string, run: Option<string>,
                                        chat: Option<string>)
    requires m <= |rows| && DistinctShas(rows)
    ensures ShaOf(LastRow(Select(rows[..m], tenant, run, chat))) == ShaOf(LastRow(Select(rows, tenant, run, chat))) <==>
            forall j :: m <= j < |rows| ==> !Selected(rows[j], tenant, run, chat)
  {
    if m == |rows| {
      assert rows[..m] == rows;
    } else {
      var n := |rows| - 1;
      var own := Select(rows[..n], tenant, run, chat);
      if Selected(rows[n], tenant, run, chat) {
        assert Select(rows, tenant, run, chat) == own + [rows[n]];
        EarlierLastDiffers(rows, m, tenant, run, chat);
      } else {
        assert rows[..n][..m] == rows[..m];
        LastStaysIff(rows[..n], m, tenant, run, chat);
        assert own + [] == own;
      }
    }
  }

  /** A row that was read off the first `m` rows names the last of its run among them. */
  lemma ReadLinksToLast(rows: seq<Row>, m: nat, row: Row, tenant: string, run: string)
    requires m <= |rows| && NewestLink(Select(rows[..m], row.e.tenant, row.e.run, row.e.chat), row.prev)
    requires run != [] && Selected(row, tenant, Some(run), None) && Rising(Select(rows, tenant, Some(run), None))
    ensures row.prev == ShaOf(LastRow(Select(rows[..m], tenant, Some(run), None)))
  {
    var own := Select(rows[..m], tenant, Some(run), None);
    OwnQuery(rows[..m], row.e, tenant, Some(run), None);
    if own != [] {
      SelectPrefix(rows, m, tenant, Some(run), None);
      RisesToo(own, Select(rows, tenant, Some(run), None));
      RisingLink(own, row.prev);
    }
  }

  lemma RisesToo(own: seq<Row>, all: seq<Row>)
    requires own <= all && Rising(all)
    ensures Rising(own)
  {
    forall k | 0 < k < |own| ensures TextLess(own[k - 1].e.ts, own[k].e.ts) {
      assert own[k - 1] == all[k - 1] && own[k] == all[k];
    }
  }

  lemma {:induction false} SelectPrefix(rows: seq<Row>, m: nat, tenant: string, run: Option<string>,
                                        chat: Option<string>)
    requires m <= |rows|
    ensures Select(rows[..m], tenant, run, chat) <= Select(rows, tenant, run, chat)
  {
    if m < |rows| {
      SelectPrefix(rows[..|rows| - 1], m, tenant, run, chat);
      assert rows[..|rows| - 1][..m] == rows[..m];
    } else {
      assert rows[..m] == rows;
    }
  }

  /** If the timestamps of a run rise, and unless two hashed texts collide: its events form one chain
      without a fork if and only if no event of the run is inserted between the query and the INSERT
      of another. */
  lemma OverlapForksIff(rows: seq<Row>, seen: seq<nat>, h: Hash, tenant: string, run: string)
    requires run != [] && Interleaved(rows, seen, h) && DistinctIds(rows)
    requires Rising(Select(rows, tenant, Some(run), None))
    requires Digests(h) && !Collide(rows, rows, h) && forall i :: 0 <= i < |rows| ==> Plain(rows[i].e)
    ensures Linear(Select(rows, tenant, Some(run), None)) <==>
            forall i :: 0 <= i < |rows| ==> !Overlapped(rows, seen, tenant, Some(run), i)
  {
    forall i | 0 <= i < |rows| ensures LinksBack(rows, i) {
      InterleavedLinksBack(rows, seen, h, i);
    }
    DistinctOrCollide(rows, h);
    LinearByRow(rows, tenant, Some(run), None);
    forall i | 0 <= i < |rows|
      ensures InChain(rows, tenant, Some(run), None, i) <==> !Overlapped(rows, seen, tenant, Some(run), i)
    {
      InChainUnlessOverlapped(rows, seen, h, tenant, run, i);
    }
  }

  lemma InChainUnlessOverlapped(rows: seq<Row>, seen: seq<nat>, h: Hash, tenant: string, run: string, i: nat)
    requires run != [] && Interleaved(rows, seen, h) && i < |rows|
    requires Rising(Select(rows, tenant, Some(run), None)) && DistinctShas(rows)
    ensures InChain(rows, tenant, Some(run), None, i) <==> !Overlapped(rows, seen, tenant, Some(run), i)
  {
    var m := seen[i];
    assert m <= i;
    if Selected(rows[i], tenant, Some(run), None) {
      ReadLinksToLast(rows, m, rows[i], tenant, run);
      LastStaysAmong(rows, m, i, tenant, run);
    }
  }

  lemma LastStaysAmong(rows: seq<Row>, m: nat, n: nat, tenant: string, run: string)
    requires m <= n <= |rows| && DistinctShas(rows)
    ensures ShaOf(LastRow(Select(rows[..m], tenant, Some(run), None))) ==
            ShaOf(LastRow(Select(rows[..n], tenant, Some(run), None))) <==>
            forall j :: m <= j < n ==> !Selected(rows[j], tenant, Some(run), None)
  {
    assert rows[..n][..m] == rows[..m];
    LastStaysIff(rows[..n], m, tenant, Some(run), None);
  }

  // ---------------------------------------------------------------- what a last hash fixes

  /** A digest is never empty and holds no colon. */
  ghost predicate Digests(h: Hash) {
    forall s :: h(s) != [] && ':' !in h(s)
  }

  /** Ids are UUIDs and payload digests hexadecimal; a timestamp may hold colons. */
  predicate Plain(e: Emission) {
    ':' !in e.id && ':' !in e.payload
  }

  predicate Hashed(rows: seq<Row>, h: Hash) {
    forall i :: 0 <= i < |rows| ==> Plain(rows[i].e) && rows[i].sha == h(Input(rows[i].prev, rows[i].e))
  }

  predicate SameEvent(e: Emission, e': Emission) {
    e.id == e'.id && e.ts == e'.ts && e.payload == e'.payload
  }

  /** The hashed text is cut in one way only, although timestamps hold colons. */
  lemma InputIsInjective(prev: Option<string>, e: Emission, prev': Option<string>, e': Emission)
    requires Plain(e) && Plain(e') && Input(prev, e) == Input(prev', e')
    requires (prev.Some? ==> ':' !in prev.value) && (prev'.Some? ==> ':' !in prev'.value)
    ensures (if prev.Some? then prev.value else []) == (if prev'.Some? then prev'.value else [])
    ensures SameEvent(e, e')
  {
    var p, p' := if prev.Some? then prev.value else [], if prev'.Some? then prev'.value else [];
    FirstColon(p, e.id + ":" + (e.ts + ":" + e.payload), p', e'.id + ":" + (e'.ts + ":" + e'.payload));
    FirstColon(e.id, e.ts + ":" + e.payload, e'.id, e'.ts + ":" + e'.payload);
    LastColon(e.ts, e.payload, e'.ts, e'.payload);
  }

  /** Two different texts among those hashed for the rows, with one hash. */
  predicate Collide(rows: seq<Row>, rows': seq<Row>, h: Hash) {
    exists i, j :: 0 <= i < |rows| && 0 <= j < |rows'|
      && Input(rows[i].prev, rows[i].e) != Input(rows'[j].prev, rows'[j].e)
      && h(Input(rows[i].prev, rows[i].e)) == h(Input(rows'[j].prev, rows'[j].e))
  }

  /** Two chains with one last hash have the same events in the same order, or show a collision of
      the hash. */
  lemma {:induction false} LastHashFixesEvents(rows: seq<Row>, rows': seq<Row>, h: Hash)
    requires Digests(h) && Hashed(rows, h) && Hashed(rows', h) && Linear(rows) && Linear(rows')
    requires rows != [] && rows' != [] && rows[|rows| - 1].sha == rows'[|rows'| - 1].sha
    requires !Collide(rows, rows', h)
    ensures |rows| == |rows'| && forall i :: 0 <= i < |rows| ==> SameEvent(rows[i].e, rows'[i].e)
  {
    var m, n := |rows| - 1, |rows'| - 1;
    assert Input(rows[m].prev, rows[m].e) == Input(rows'[n].prev, rows'[n].e);
    PrevHasNoColon(rows, h, m);
    PrevHasNoColon(rows', h, n);
    InputIsInjective(rows[m].prev, rows[m].e, rows'[n].prev, rows'[n].e);
    if m > 0 && n > 0 {
      assert rows[m].prev == Some(rows[m - 1].sha) && rows'[n].prev == Some(rows'[n - 1].sha);
      if Collide(rows[..m], rows'[..n], h) {
        PrefixesCollide(rows, rows', h, m, n);
      }
      LinearPrefix(rows, h, m);
      LinearPrefix(rows', h, n);
      LastHashFixesEvents(rows[..m], rows'[..n], h);
    }
  }

  lemma PrefixesCollide(rows: seq<Row>, rows': seq<Row>, h: Hash, m: nat, n: nat)
    requires m <= |rows| && n <= |rows'| && Collide(rows[..m], rows'[..n], h)
    ensures Collide(rows, rows', h)
  {
  }

  lemma LinearPrefix(rows: seq<Row>, h: Hash, m: nat)
    requires m <= |rows| && Hashed(rows, h) && Linear(rows)
    ensures Hashed(rows[..m], h) && Linear(rows[..m])
  {
    forall i | 0 < i < m ensures rows[..m][i].prev == Some(rows[..m][i - 1].sha) {
      assert rows[i].prev == Some(rows[i - 1].sha);
    }
  }

  lemma PrevHasNoColon(rows: seq<Row>, h: Hash, i: nat)
    requires Digests(h) && Hashed(rows, h) && Linear(rows) && i < |rows|
    ensures i > 0 ==> rows[i].prev.Some? && rows[i].prev.value != [] && ':' !in rows[i].prev.value
    ensures i == 0 ==> rows[i].prev.None?
  {
    if i > 0 {
      assert rows[i].prev == Some(rows[i - 1].sha);
      var input := Input(rows[i - 1].prev, rows[i - 1].e);
      assert rows[i - 1].sha == h(input);
      assert h(input) != [] && ':' !in h(input);
    }
  }

  // ---------------------------------------------------------------- the table

  class EventStream {
    var rows: seq<Row>
    const h: Hash

    constructor (h: Hash)
      ensures rows == [] && this.h == h
    {
      this.rows, this.h := [], h;
    }

    /** `_emit_event_conn`: one row more, hashed, and linked to a newest row of its run or chat; a
        taken event id makes the INSERT raise. */
    method EmitEvent(e: Emission) returns (ok: bool)
      modifies this`rows
      ensures ok <==> forall i :: 0 <= i < |old(rows)| ==> old(rows)[i].e.id != e.id
      ensures !ok ==> rows == old(rows)
      ensures ok ==> |rows| == |old(rows)| + 1 && old(rows) <= rows && rows[|old(rows)|].e == e
      ensures ok ==> var prev := rows[|old(rows)|].prev;
                     rows[|old(rows)|].sha ==
                     h((if prev.Some? then prev.value else []) + ":" + (e.id + ":" + (e.ts + ":" + e.payload)))
      ensures Emitted(old(rows), h) && DistinctIds(old(rows)) ==> Emitted(rows, h) && DistinctIds(rows)
    {
      var prev := PrevSha(rows, e.tenant, e.run, e.chat);
      var chainInput := (if prev.Some? then prev.value else []) + ":" + (e.id + ":" + (e.ts + ":" + e.payload));
      ok := forall i :: 0 <= i < |rows| ==> rows[i].e.id != e.id;
      if ok {
        EmittedAppend(rows, e, h);
        rows := rows + [Row(e, prev, h(chainInput))];
      }
    }
  }
}

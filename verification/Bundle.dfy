/** Replay bundles: JSONL files under a hash chain. A record is the text of its canonical JSON, and a
    digest stands for its hexadecimal spelling as well. */
module Bundle {
  import opened Text

  type Hash = string -> string

  /** The files of a bundle directory; None for a file that is missing. */
  datatype Files = Files(
    metadata: Option<string>,
    transcript: Option<string>,
    approvals: Option<string>,
    prompts: Option<string>,
    hashes: Option<seq<string>>)

  // ---------------------------------------------------------------- lines

  /** Each record on a line. */
  function Frame(records: seq<string>): string {
    if records == [] then [] else records[0] + ("\n" + Frame(records[1..]))
  }

  /** Reading a file as text turns every carriage return, alone or before a line feed, into a line feed. */
  function Universal(s: string): string {
    if s == [] then []
    else if s[0] == '\r' then ['\n'] + Universal(if |s| > 1 && s[1] == '\n' then s[2..] else s[1..])
    else [s[0]] + Universal(s[1..])
  }

  /** `split("\n")` of the text, when `line` was read in part. */
  function Split(line: string, text: string): seq<string>
    decreases |text|
  {
    if text == [] then [line]
    else if text[0] == '\n' then [line] + Split([], text[1..])
    else Split(line + [text[0]], text[1..])
  }

  function NonEmpty(lines: seq<string>): seq<string> {
    if lines == [] then [] else (if lines[0] == [] then [] else [lines[0]]) + NonEmpty(lines[1..])
  }

  /** The lines of a file that are not empty, as every reader takes them. */
  function Lines(text: string): seq<string> {
    NonEmpty(Split([], Strip(Universal(text))))
  }

  /** A record that keeps its line: not empty, and without a line break. */
  predicate IsRecord(r: string) {
    r != [] && '\n' !in r && '\r' !in r
  }

  /** The records that one file gives back. */
  predicate Framed(records: seq<string>) {
    && (forall i :: 0 <= i < |records| ==> IsRecord(records[i]))
    && (records != [] ==> !IsSpace(records[0][0]) && !IsSpace(LastOf(records[|records| - 1])))
  }

  function LastOf(s: string): char
    requires s != []
  {
    s[|s| - 1]
  }

  lemma {:induction false} UniversalIsIdentity(s: string)
    requires '\r' !in s
    ensures Universal(s) == s
  {
    if s != [] {
      UniversalIsIdentity(s[1..]);
    }
  }

  lemma {:induction false} UniversalHasNoReturn(s: string)
    ensures '\r' !in Universal(s)
    decreases |s|
  {
    if s != [] {
      UniversalHasNoReturn(if s[0] == '\r' && |s| > 1 && s[1] == '\n' then s[2..] else s[1..]);
    }
  }

  lemma {:induction false} SplitFirst(before: string, line: string, rest: string)
    requires '\n' !in line
    ensures Split(before, line + ("\n" + rest)) == [before + line] + Split([], rest)
    decreases |line|
  {
    var text := line + ("\n" + rest);
    if line == [] {
      assert text == "\n" + rest && text[1..] == rest && before + line == before;
    } else {
      assert text[1..] == line[1..] + ("\n" + rest);
      SplitFirst(before + [line[0]], line[1..], rest);
      assert before + [line[0]] + line[1..] == before + line;
    }
  }

  lemma {:induction false} SplitLast(before: string, line: string)
    requires '\n' !in line
    ensures Split(before, line) == [before + line]
    decreases |line|
  {
    if line == [] {
      assert before + line == before;
    } else {
      SplitLast(before + [line[0]], line[1..]);
      assert before + [line[0]] + line[1..] == before + line;
    }
  }

  lemma {:induction false} JoinSplits(records: seq<string>)
    requires records != [] && forall i :: 0 <= i < |records| ==> IsRecord(records[i])
    ensures Split([], Join("\n", records)) == records && NonEmpty(records) == records
  {
    var r := records[0];
    assert [] + r == r;
    if |records| == 1 {
      SplitLast([], r);
    } else {
      JoinSplits(records[1..]);
      Assoc(r, "\n", Join("\n", records[1..]));
      SplitFirst([], r, Join("\n", records[1..]));
    }
  }

  lemma {:induction false} FrameIsJoin(records: seq<string>)
    requires records != []
    ensures Frame(records) == Join("\n", records) + "\n"
  {
    if |records| == 1 {
      assert Frame(records[1..]) == [];
      assert "\n" + [] == "\n";
    } else {
      FrameIsJoin(records[1..]);
      Assoc(records[0], "\n", Join("\n", records[1..]));
      Assoc(records[0] + "\n", Join("\n", records[1..]), "\n");
      Assoc(records[0], "\n", Join("\n", records[1..]) + "\n");
    }
  }

  lemma {:induction false} FrameHasNoReturn(records: seq<string>)
    requires forall i :: 0 <= i < |records| ==> IsRecord(records[i])
    ensures '\r' !in Frame(records)
  {
    if records != [] {
      FrameHasNoReturn(records[1..]);
    }
  }

  lemma {:induction false} JoinEnds(records: seq<string>)
    requires records != [] && forall i :: 0 <= i < |records| ==> IsRecord(records[i])
    ensures var s := Join("\n", records);
            && IsRecord(records[0]) && IsRecord(records[|records| - 1])
            && s != [] && s[0] == records[0][0] && LastOf(s) == LastOf(records[|records| - 1])
  {
    if |records| > 1 {
      JoinEnds(records[1..]);
    }
  }

  lemma StripsNewline(s: string)
    requires s != [] && !IsSpace(s[0]) && !IsSpace(LastOf(s))
    ensures Strip(s + "\n") == s
  {
    var t := s + "\n";
    assert t[..|t| - 1] == s && t[|t| - 1] == '\n' && t[0] == s[0];
    assert StripLeft(t) == t && StripRight(t) == StripRight(s);
  }

  lemma FramedReads(records: seq<string>)
    requires Framed(records)
    ensures Lines(Frame(records)) == records
  {
    FrameHasNoReturn(records);
    UniversalIsIdentity(Frame(records));
    if records != [] {
      FrameIsJoin(records);
      JoinEnds(records);
      StripsNewline(Join("\n", records));
      JoinSplits(records);
    }
  }

  // ---------------------------------------------------------------- what can be read at all

  predicate LinesOk(lines: seq<string>) {
    forall i :: 0 <= i < |lines| ==> '\n' !in lines[i] && '\r' !in lines[i]
  }

  lemma {:induction false} SplitTakes(line: string, text: string)
    requires '\r' !in text && '\r' !in line && '\n' !in line
    ensures LinesOk(Split(line, text))
    decreases |text|
  {
    if text != [] {
      SplitTakes(if text[0] == '\n' then [] else line + [text[0]], text[1..]);
    }
  }

  lemma {:induction false} NonEmptyTakes(lines: seq<string>)
    requires LinesOk(lines)
    ensures forall i :: 0 <= i < |NonEmpty(lines)| ==> IsRecord(NonEmpty(lines)[i])
  {
    if lines != [] {
      NonEmptyTakes(lines[1..]);
    }
  }

  /** The first piece starts as the text does. */
  lemma {:induction false} SplitHead(line: string, text: string)
    requires line + text != [] && (line == [] ==> text[0] != '\n')
    ensures Split(line, text) != [] && Split(line, text)[0] != [] && Split(line, text)[0][0] == (line + text)[0]
    decreases |text|
  {
    if text == [] {
    } else if text[0] == '\n' {
    } else {
      SplitHead(line + [text[0]], text[1..]);
      assert line + [text[0]] + text[1..] == line + text;
    }
  }

  /** The last piece ends as the text does. */
  lemma {:induction false} SplitTail(line: string, text: string)
    requires text != [] && LastOf(text) != '\n'
    ensures Split(line, text) != []
    ensures var last := Split(line, text)[|Split(line, text)| - 1]; last != [] && LastOf(last) == LastOf(text)
    decreases |text|
  {
    if |text| == 1 {
      assert text[1..] == [];
    } else {
      assert LastOf(text[1..]) == LastOf(text);
      SplitTail(if text[0] == '\n' then [] else line + [text[0]], text[1..]);
    }
  }

  lemma {:induction false} NonEmptyEnds(lines: seq<string>)
    requires lines != [] && lines[0] != [] && lines[|lines| - 1] != []
    ensures var kept := NonEmpty(lines);
            kept != [] && kept[0] == lines[0] && kept[|kept| - 1] == lines[|lines| - 1]
  {
    if |lines| > 1 {
      NonEmptyLast(lines[1..]);
    }
  }

  lemma {:induction false} NonEmptyLast(lines: seq<string>)
    requires lines != [] && lines[|lines| - 1] != []
    ensures var kept := NonEmpty(lines); kept != [] && kept[|kept| - 1] == lines[|lines| - 1]
  {
    if |lines| > 1 {
      NonEmptyLast(lines[1..]);
    }
  }

  /** Whatever a file holds, what is read from it could have been written record by record. */
  lemma ReadIsFramed(text: string)
    ensures Framed(Lines(text))
  {
    UniversalHasNoReturn(text);
    StripTakes(Universal(text));
    StripIsStripped(Universal(text));
    StrippedIsFramed(Strip(Universal(text)));
  }

  lemma StrippedIsFramed(s: string)
    requires '\r' !in s && Stripped(s)
    ensures Framed(NonEmpty(Split([], s)))
  {
    var pieces := Split([], s);
    SplitTakes([], s);
    NonEmptyTakes(pieces);
    if s != [] {
      assert [] + s == s;
      SplitHead([], s);
      SplitTail([], s);
      NonEmptyEnds(pieces);
    }
  }

  /** A file gives back the records that were written, in order, if and only if no record is empty
      or holds a line break, the first does not start with whitespace and the last does not end so. */
  lemma FrameReadsIff(records: seq<string>)
    ensures Lines(Frame(records)) == records <==> Framed(records)
  {
    if Framed(records) {
      FramedReads(records);
    }
    ReadIsFramed(Frame(records));
  }

  // ---------------------------------------------------------------- the hash chain

  /** H(n) = hash of H(n-1) followed by the record. */
  function Chain(h: Hash, prev: string, records: seq<string>): seq<string>
    decreases |records|
  {
    if records == [] then [] else
      var d := h(prev + records[0]);
      [d] + Chain(h, d, records[1..])
  }

  function TextOf(file: Option<string>): string {
    if file.None? then [] else file.value
  }

  /** All records, in the order of the files. */
  function Records(b: Files): seq<string> {
    Lines(TextOf(b.transcript)) + Lines(TextOf(b.approvals)) + Lines(TextOf(b.prompts))
  }

  predicate Complete(b: Files) {
    b.metadata.Some? && b.transcript.Some? && b.approvals.Some? && b.prompts.Some? && b.hashes.Some?
  }

  /** What an accepted bundle is: the stored chain is the chain of the records. */
  predicate Accepted(b: Files, h: Hash) {
    Complete(b) && b.hashes.value == Chain(h, [], Records(b))
  }

  /** `build_bundle`, from the metadata and the canonical text of every record. */
  function Build(h: Hash, metadata: string, messages: seq<string>, approvals: seq<string>, prompt: string): Files {
    Files(Some(metadata), Some(Frame(messages)), Some(Frame(approvals)), Some(Frame([prompt])),
          Some(Chain(h, [], messages + approvals + [prompt])))
  }

  /** `replay_read_only`: messages, then approvals. */
  datatype Shown = Message(record: string) | Approval(record: string)

  function AsMessages(records: seq<string>): seq<Shown> {
    if records == [] then [] else [Message(records[0])] + AsMessages(records[1..])
  }

  function AsApprovals(records: seq<string>): seq<Shown> {
    if records == [] then [] else [Approval(records[0])] + AsApprovals(records[1..])
  }

  function Replay(b: Files): seq<Shown> {
    if b.metadata.None? then []
    else AsMessages(Lines(TextOf(b.transcript))) + AsApprovals(Lines(TextOf(b.approvals)))
  }

  /** Every bundle that is built is accepted, and replays its messages and approvals. */
  lemma BuiltIsAccepted(h: Hash, metadata: string, messages: seq<string>, approvals: seq<string>, prompt: string)
    requires Framed(messages) && Framed(approvals) && Framed([prompt])
    ensures var b := Build(h, metadata, messages, approvals, prompt);
            Accepted(b, h) && Replay(b) == AsMessages(messages) + AsApprovals(approvals)
  {
    FramedReads(messages);
    FramedReads(approvals);
    FramedReads([prompt]);
  }

  /** Two different texts hashed for the two chains, with one digest. */
  predicate Collide(h: Hash, prev: string, a: seq<string>, b: seq<string>)
    decreases |a|
  {
    a != [] && b != [] &&
    var x, y := prev + a[0], prev + b[0];
    (x != y && h(x) == h(y)) || (h(x) == h(y) && Collide(h, h(x), a[1..], b[1..]))
  }

  lemma {:induction false} ChainFixesRecords(h: Hash, prev: string, a: seq<string>, b: seq<string>)
    requires Chain(h, prev, a) == Chain(h, prev, b)
    ensures a == b || Collide(h, prev, a, b)
    decreases |a|
  {
    if a != [] && b != [] {
      var x, y := prev + a[0], prev + b[0];
      assert Chain(h, prev, a)[0] == h(x) && Chain(h, prev, b)[0] == h(y);
      if x == y {
        assert a[0] == x[|prev|..] && b[0] == y[|prev|..];
        assert Chain(h, h(x), a[1..]) == Chain(h, prev, a)[1..] == Chain(h, prev, b)[1..] == Chain(h, h(x), b[1..]);
        ChainFixesRecords(h, h(x), a[1..], b[1..]);
        assert a == [a[0]] + a[1..] && b == [b[0]] + b[1..];
      }
    }
  }

  /** Two accepted bundles with one chain hold the same records in the same order, or show a
      collision of the hash. */
  lemma AcceptedWithOneChain(a: Files, b: Files, h: Hash)
    requires Accepted(a, h) && Accepted(b, h) && a.hashes == b.hashes
    ensures Records(a) == Records(b) || Collide(h, [], Records(a), Records(b))
  {
    ChainFixesRecords(h, [], Records(a), Records(b));
  }

  /** The chain does not fix in which file a record is: with the last message moved to the front of
      the approvals, the bundle is accepted with the same chain. */
  lemma MovedRecordIsAccepted(h: Hash, metadata: string, messages: seq<string>, moved: string, approvals: seq<string>,
                              prompt: string)
    requires Framed(messages + [moved]) && Framed(messages) && Framed([moved] + approvals)
    requires Framed(approvals) && Framed([prompt])
    ensures var a := Build(h, metadata, messages + [moved], approvals, prompt);
            var b := Build(h, metadata, messages, [moved] + approvals, prompt);
            Accepted(a, h) && Accepted(b, h) && a.hashes == b.hashes && Replay(a) != Replay(b)
  {
    BuiltIsAccepted(h, metadata, messages + [moved], approvals, prompt);
    BuiltIsAccepted(h, metadata, messages, [moved] + approvals, prompt);
    Assoc(messages, [moved], approvals);
    MovedReplaysApart(messages, moved, approvals);
  }

  lemma MovedReplaysApart(messages: seq<string>, moved: string, approvals: seq<string>)
    ensures AsMessages(messages + [moved]) + AsApprovals(approvals) !=
            AsMessages(messages) + AsApprovals([moved] + approvals)
  {
    AsMessagesAt(messages + [moved], |messages|);
    MessagesLength(messages);
    var n := |messages|;
    assert (AsMessages(messages + [moved]) + AsApprovals(approvals))[n] == Message(moved);
    assert (AsMessages(messages) + AsApprovals([moved] + approvals))[n] == Approval(moved);
  }

  lemma {:induction false} AsApprovalsAt(records: seq<string>, i: nat)
    requires i < |records|
    ensures |AsApprovals(records)| == |records| && AsApprovals(records)[i] == Approval(records[i])
  {
    if i > 0 {
      AsApprovalsAt(records[1..], i - 1);
    } else if |records| > 1 {
      AsApprovalsAt(records[1..], 0);
    }
  }

  /** A timeline tells where its messages end. */
  lemma TimelinesDiffer(ms: seq<string>, aps: seq<string>, ms': seq<string>, aps': seq<string>)
    requires |ms| > |ms'|
    ensures AsMessages(ms) + AsApprovals(aps) != AsMessages(ms') + AsApprovals(aps')
  {
    MessagesLength(ms);
    MessagesLength(ms');
    var t, t', n := AsMessages(ms) + AsApprovals(aps), AsMessages(ms') + AsApprovals(aps'), |ms'|;
    if aps' == [] {
      assert |t| > |t'|;
    } else {
      AsMessagesAt(ms, n);
      AsApprovalsAt(aps', 0);
      assert t[n].Message? && t'[n].Approval?;
    }
  }

  lemma ApprovalsLength(records: seq<string>)
    ensures |AsApprovals(records)| == |records|
  {
    if records != [] {
      AsApprovalsAt(records, 0);
    }
  }

  /** Two accepted bundles with one chain replay alike if and only if they have as many messages and
      as many approvals, two numbers that the metadata hold and validation does not look at; or
      they show a collision of the hash. */
  lemma ReplayAlikeIff(a: Files, b: Files, h: Hash)
    requires Accepted(a, h) && Accepted(b, h) && a.hashes == b.hashes
    requires !Collide(h, [], Records(a), Records(b))
    ensures Replay(a) == Replay(b) <==>
            && |Lines(TextOf(a.transcript))| == |Lines(TextOf(b.transcript))|
            && |Lines(TextOf(a.approvals))| == |Lines(TextOf(b.approvals))|
  {
    AcceptedWithOneChain(a, b, h);
    var ms, aps, ps := Lines(TextOf(a.transcript)), Lines(TextOf(a.approvals)), Lines(TextOf(a.prompts));
    var ms', aps', ps' := Lines(TextOf(b.transcript)), Lines(TextOf(b.approvals)), Lines(TextOf(b.prompts));
    if |ms| == |ms'| && |aps| == |aps'| {
      assert ms == Records(a)[..|ms|] && ms' == Records(b)[..|ms|];
      assert aps == Records(a)[|ms|..|ms| + |aps|] && aps' == Records(b)[|ms|..|ms| + |aps|];
    }
    if |ms| > |ms'| {
      TimelinesDiffer(ms, aps, ms', aps');
    } else if |ms'| > |ms| {
      TimelinesDiffer(ms', aps', ms, aps);
    } else {
      MessagesLength(ms);
      MessagesLength(ms');
      ApprovalsLength(aps);
      ApprovalsLength(aps');
    }
  }

  lemma {:induction false} AsMessagesAt(records: seq<string>, i: nat)
    requires i < |records|
    ensures |AsMessages(records)| == |records| && AsMessages(records)[i] == Message(records[i])
  {
    if i > 0 {
      AsMessagesAt(records[1..], i - 1);
    } else {
      MessagesLength(records[1..]);
    }
  }

  lemma {:induction false} MessagesLength(records: seq<string>)
    ensures |AsMessages(records)| == |records|
  {
    if records != [] {
      MessagesLength(records[1..]);
    }
  }

  // ---------------------------------------------------------------- validation

  lemma {:induction false} ChainAt(h: Hash, prev: string, records: seq<string>, i: nat)
    requires i < |records|
    ensures |Chain(h, prev, records)| == |records|
    ensures Chain(h, prev, records)[i] == h((if i == 0 then prev else Chain(h, prev, records)[i - 1]) + records[i])
    decreases |records|
  {
    var d := h(prev + records[0]);
    if i > 0 {
      ChainAt(h, d, records[1..], i - 1);
    } else if |records| > 1 {
      ChainAt(h, d, records[1..], 0);
    }
  }

  datatype Fault = Missing | Mismatch(record: nat) | Length

  /** Record `i` is the first whose digest is not the stored one. */
  predicate FirstMismatch(stored: seq<string>, chain: seq<string>, i: nat) {
    && i < |chain| && (i < |stored| ==> stored[i] != chain[i])
    && i <= |stored| && forall k :: 0 <= k < i ==> stored[k] == chain[k]
  }

  /** The errors name the first record that does not match, and the length if it is wrong. */
  ghost predicate Names(errors: seq<Fault>, stored: seq<string>, chain: seq<string>) {
    && Missing !in errors && (Length in errors <==> |stored| != |chain|)
    && forall i: nat :: Mismatch(i) in errors <==> FirstMismatch(stored, chain, i)
  }

  /** The loop over the records, left at the first mismatch, and the test of the length after it. */
  method CheckChain(stored: seq<string>, records: seq<string>, h: Hash) returns (errors: seq<Fault>)
    ensures errors == [] <==> stored == Chain(h, [], records)
    ensures Names(errors, stored, Chain(h, [], records))
  {
    errors := [];
    ghost var chain := Chain(h, [], records);
    var prev := [];
    assert |chain| == |records| by {
      if |records| > 0 {
        ChainAt(h, [], records, 0);
      }
    }
    for i := 0 to |records|
      invariant errors == []
      invariant prev == if i == 0 then [] else chain[i - 1]
      invariant i <= |stored| && forall k :: 0 <= k < i ==> stored[k] == chain[k]
    {
      var digest := h(prev + records[i]);
      ChainAt(h, [], records, i);
      if i >= |stored| || stored[i] != digest {
        errors := errors + [Mismatch(i)];
        break;
      }
      prev := digest;
    }
    if |records| != |stored| {
      errors := errors + [Length];
    }
  }

  /** `validate_bundle`. */
  method ValidateBundle(b: Files, h: Hash) returns (ok: bool, errors: seq<Fault>)
    ensures ok == Accepted(b, h) == (errors == [])
    ensures if Complete(b) then Names(errors, b.hashes.value, Chain(h, [], Records(b))) else errors == [Missing]
  {
    if b.metadata.None? || b.transcript.None? || b.approvals.None? || b.prompts.None? || b.hashes.None? {
      return false, [Missing];
    }
    var records := Lines(b.transcript.value) + Lines(b.approvals.value) + Lines(b.prompts.value);
    errors := CheckChain(b.hashes.value, records, h);
    ok := |errors| == 0;
  }

  // ---------------------------------------------------------------- differences

  datatype Kind = OfMessage | OfApproval

  datatype Diff = Differs(kind: Kind, index: nat) | Counts(kind: Kind, a: nat, b: nat)

  /** Two lists of records that say the same, record by record; `norm` is the sorted JSON of a record. */
  predicate SaySame(a: seq<string>, b: seq<string>, norm: string -> string) {
    |a| == |b| && forall i :: 0 <= i < |a| ==> norm(a[i]) == norm(b[i])
  }

  /** The differences of kind `kind` are those of the two lists: the positions that both have and at
      which they differ, and the two lengths if they differ. */
  ghost predicate Tells(diffs: seq<Diff>, kind: Kind, a: seq<string>, b: seq<string>, norm: string -> string) {
    && (forall i: nat :: Differs(kind, i) in diffs <==> i < |a| && i < |b| && norm(a[i]) != norm(b[i]))
    && (forall m: nat, n: nat :: Counts(kind, m, n) in diffs <==> m == |a| && n == |b| && m != n)
  }

  /** The part of `diff_bundles` for one file: the pairs that differ, and the lengths when they do. */
  method DiffRecords(kind: Kind, a: seq<string>, b: seq<string>, norm: string -> string) returns (diffs: seq<Diff>)
    ensures diffs == [] <==> SaySame(a, b, norm)
    ensures Tells(diffs, kind, a, b, norm) && forall d :: d in diffs ==> d.kind == kind
  {
    diffs := [];
    var shorter := if |a| < |b| then |a| else |b|;
    for i := 0 to shorter
      invariant diffs == [] <==> forall k :: 0 <= k < i ==> norm(a[k]) == norm(b[k])
      invariant forall k: nat :: Differs(kind, k) in diffs <==> k < i && norm(a[k]) != norm(b[k])
      invariant forall d :: d in diffs ==> d.Differs? && d.kind == kind
    {
      if norm(a[i]) != norm(b[i]) {
        diffs := diffs + [Differs(kind, i)];
      }
    }
    if |a| != |b| {
      diffs := diffs + [Counts(kind, |a|, |b|)];
    }
  }

  lemma TellsBoth(messages: seq<Diff>, approvals: seq<Diff>, a: seq<string>, b: seq<string>, a': seq<string>,
                  b': seq<string>, norm: string -> string)
    requires Tells(messages, OfMessage, a, b, norm) && forall d :: d in messages ==> d.kind == OfMessage
    requires Tells(approvals, OfApproval, a', b', norm) && forall d :: d in approvals ==> d.kind == OfApproval
    ensures Tells(messages + approvals, OfMessage, a, b, norm) && Tells(messages + approvals, OfApproval, a', b', norm)
  {
    forall d ensures d in messages + approvals <==> d in messages || d in approvals {
    }
  }

  /** `diff_bundles`: the differences of the messages and those of the approvals; nothing is reported
      exactly when both files say the same. */
  method DiffBundles(a: Files, b: Files, norm: string -> string) returns (diffs: seq<Diff>)
    ensures diffs == [] <==>
      && SaySame(Lines(TextOf(a.transcript)), Lines(TextOf(b.transcript)), norm)
      && SaySame(Lines(TextOf(a.approvals)), Lines(TextOf(b.approvals)), norm)
    ensures Tells(diffs, OfMessage, Lines(TextOf(a.transcript)), Lines(TextOf(b.transcript)), norm)
    ensures Tells(diffs, OfApproval, Lines(TextOf(a.approvals)), Lines(TextOf(b.approvals)), norm)
  {
    var messagesA, messagesB := Lines(TextOf(a.transcript)), Lines(TextOf(b.transcript));
    var messages := DiffRecords(OfMessage, messagesA, messagesB, norm);
    var approvalsA, approvalsB := Lines(TextOf(a.approvals)), Lines(TextOf(b.approvals));
    var approvals := DiffRecords(OfApproval, approvalsA, approvalsB, norm);
    TellsBoth(messages, approvals, messagesA, messagesB, approvalsA, approvalsB, norm);
    diffs := messages + approvals;
  }
}

/** Monitoring rules: the condition evaluator, and the cooldown between firings. */
module Rules {
  import opened Text

  datatype Op = Ge | Gt | Le | Lt | Eq | Ne | Unknown

  /** A condition. What is no dictionary, is empty, or lacks its list, operator or key is malformed;
      a value that is no number is None. */
  datatype Condition =
    | And(subs: seq<Condition>)
    | Or(subs: seq<Condition>)
    | Compare(op: Op, key: string, value: Option<real>)
    | Malformed

  type Features = map<string, real>

  const TOLERANCE := 0.000000001

  function Abs(x: real): real {
    if x < 0.0 then -x else x
  }

  predicate Holds(op: Op, x: real, y: real) {
    match op
    case Ge => x >= y
    case Gt => x > y
    case Le => x <= y
    case Lt => x < y
    case Eq => Abs(x - y) < TOLERANCE
    case Ne => Abs(x - y) >= TOLERANCE
    case Unknown => false
  }

  /** `evaluate_condition`. */
  predicate Evaluate(c: Condition, f: Features) {
    match c
    case And(subs) => forall i :: 0 <= i < |subs| ==> Evaluate(subs[i], f)
    case Or(subs) => exists i :: 0 <= i < |subs| && Evaluate(subs[i], f)
    case Compare(op, key, value) => key in f && value.Some? && Holds(op, f[key], value.value)
    case Malformed => false
  }

  // ---------------------------------------------------------------- single comparisons

  /** At the threshold, the comparisons that allow equality hold. */
  lemma AtThreshold(op: Op, key: string, value: real, f: Features)
    requires key in f && f[key] == value
    ensures Evaluate(Compare(op, key, Some(value)), f) <==> op == Ge || op == Le || op == Eq
  {
  }

  /** Away from it, by at least the tolerance of equality: those of the feature's side. */
  lemma AwayFromThreshold(op: Op, key: string, value: real, distance: real, f: Features)
    requires key in f && distance >= TOLERANCE
    ensures f[key] == value + distance ==>
              (Evaluate(Compare(op, key, Some(value)), f) <==> op == Ge || op == Gt || op == Ne)
    ensures f[key] == value - distance ==>
              (Evaluate(Compare(op, key, Some(value)), f) <==> op == Le || op == Lt || op == Ne)
  {
  }

  /** Closer than the tolerance, a feature counts as equal, and as greater or less all the same. */
  lemma WithinTolerance(op: Op, key: string, value: real, distance: real, f: Features)
    requires key in f && 0.0 < distance < TOLERANCE
    ensures f[key] == value + distance ==>
              (Evaluate(Compare(op, key, Some(value)), f) <==> op == Ge || op == Gt || op == Eq)
    ensures f[key] == value - distance ==>
              (Evaluate(Compare(op, key, Some(value)), f) <==> op == Le || op == Lt || op == Eq)
  {
  }

  // ---------------------------------------------------------------- monotone conditions

  /** Any nesting of `and` and `or` over lower bounds. */
  predicate LowerBounds(c: Condition) {
    match c
    case And(subs) => forall i :: 0 <= i < |subs| ==> LowerBounds(subs[i])
    case Or(subs) => forall i :: 0 <= i < |subs| ==> LowerBounds(subs[i])
    case Compare(op, _, _) => op == Ge || op == Gt
    case Malformed => true
  }

  /** Features only came or rose. */
  predicate Below(f: Features, g: Features) {
    forall k :: k in f ==> k in g && f[k] <= g[k]
  }

  /** Raising or adding features never makes such a condition false. */
  lemma {:induction false} Monotone(c: Condition, f: Features, g: Features)
    requires LowerBounds(c) && Below(f, g) && Evaluate(c, f)
    ensures Evaluate(c, g)
  {
    match c {
      case And(subs) =>
        forall i | 0 <= i < |subs| ensures Evaluate(subs[i], g) {
          Monotone(subs[i], f, g);
        }
      case Or(subs) =>
        var i :| 0 <= i < |subs| && Evaluate(subs[i], f);
        Monotone(subs[i], f, g);
      case Compare(_, _, _) =>
    }
  }

  // ---------------------------------------------------------------- the keys that matter

  predicate Mentions(c: Condition, key: string) {
    match c
    case And(subs) => exists i :: 0 <= i < |subs| && Mentions(subs[i], key)
    case Or(subs) => exists i :: 0 <= i < |subs| && Mentions(subs[i], key)
    case Compare(_, k, _) => k == key
    case Malformed => false
  }

  predicate SameAt(f: Features, g: Features, key: string) {
    (key in f <==> key in g) && (key in f && key in g ==> f[key] == g[key])
  }

  /** The result depends on the mentioned keys only. */
  lemma {:induction false} DependsOnMentioned(c: Condition, f: Features, g: Features)
    requires forall key :: Mentions(c, key) ==> SameAt(f, g, key)
    ensures Evaluate(c, f) == Evaluate(c, g)
  {
    match c {
      case And(subs) =>
        forall i | 0 <= i < |subs| ensures Evaluate(subs[i], f) == Evaluate(subs[i], g) {
          forall key | Mentions(subs[i], key) ensures SameAt(f, g, key) {
            assert Mentions(c, key);
          }
          DependsOnMentioned(subs[i], f, g);
        }
      case Or(subs) =>
        forall i | 0 <= i < |subs| ensures Evaluate(subs[i], f) == Evaluate(subs[i], g) {
          forall key | Mentions(subs[i], key) ensures SameAt(f, g, key) {
            assert Mentions(c, key);
          }
          DependsOnMentioned(subs[i], f, g);
        }
      case Compare(_, key, _) =>
        assert Mentions(c, key);
      case Malformed =>
    }
  }

  // ---------------------------------------------------------------- negation

  function Complement(op: Op): Op {
    match op
    case Ge => Lt
    case Lt => Ge
    case Gt => Le
    case Le => Gt
    case Eq => Ne
    case Ne => Eq
    case Unknown => Unknown
  }

  /** `and` and `or` swapped, and every operator complemented. */
  function Dual(c: Condition): Condition {
    match c
    case And(subs) => Or(Duals(subs))
    case Or(subs) => And(Duals(subs))
    case Compare(op, key, value) => Compare(Complement(op), key, value)
    case Malformed => Malformed
  }

  function Duals(cs: seq<Condition>): (r: seq<Condition>)
    ensures |r| == |cs|
  {
    if cs == [] then [] else [Dual(cs[0])] + Duals(cs[1..])
  }

  lemma {:induction false} DualAt(cs: seq<Condition>, i: nat)
    requires i < |cs|
    ensures Duals(cs)[i] == Dual(cs[i])
  {
    if i > 0 {
      DualAt(cs[1..], i - 1);
    }
  }

  /** What is known of a condition when malformed comparisons and missing features are left open. */
  datatype Truth = Yes | No | Open

  /** Evaluation in strong Kleene logic. */
  function Kleene(c: Condition, f: Features): Truth {
    match c
    case And(subs) =>
      if exists i :: 0 <= i < |subs| && Kleene(subs[i], f) == No then No
      else if exists i :: 0 <= i < |subs| && Kleene(subs[i], f) == Open then Open
      else Yes
    case Or(subs) =>
      if exists i :: 0 <= i < |subs| && Kleene(subs[i], f) == Yes then Yes
      else if exists i :: 0 <= i < |subs| && Kleene(subs[i], f) == Open then Open
      else No
    case Compare(op, key, value) =>
      if op == Unknown || value.None? || key !in f then Open
      else if Holds(op, f[key], value.value) then Yes
      else No
    case Malformed => Open
  }

  /** The evaluator answers true for a condition that is known to hold, and the evaluator of the dual
      for one that is known not to hold; both answer false for one that is open. */
  lemma {:induction false} EvaluatesTheKnown(c: Condition, f: Features)
    ensures Evaluate(c, f) <==> Kleene(c, f) == Yes
    ensures Evaluate(Dual(c), f) <==> Kleene(c, f) == No
    decreases c, 1
  {
    match c {
      case And(subs) =>
        SubsKnown(subs, f, c);
        assert Dual(c) == Or(Duals(subs));
      case Or(subs) =>
        SubsKnown(subs, f, c);
        assert Dual(c) == And(Duals(subs));
      case Compare(_, _, _) =>
      case Malformed =>
    }
  }

  lemma {:induction false} SubsKnown(subs: seq<Condition>, f: Features, c: Condition)
    requires c == And(subs) || c == Or(subs)
    ensures forall i :: 0 <= i < |subs| ==>
      && (Evaluate(subs[i], f) <==> Kleene(subs[i], f) == Yes)
      && (Evaluate(Duals(subs)[i], f) <==> Kleene(subs[i], f) == No)
    decreases c, 0
  {
    forall i | 0 <= i < |subs|
      ensures Evaluate(subs[i], f) <==> Kleene(subs[i], f) == Yes
      ensures Evaluate(Duals(subs)[i], f) <==> Kleene(subs[i], f) == No
    {
      DualAt(subs, i);
      EvaluatesTheKnown(subs[i], f);
    }
  }

  /** The dual condition is the negation if and only if the condition is not open. */
  lemma DualIsNegationIff(c: Condition, f: Features)
    ensures Evaluate(Dual(c), f) == !Evaluate(c, f) <==> Kleene(c, f) != Open
  {
    EvaluatesTheKnown(c, f);
  }

  /** Every comparison is well-formed, and its feature is there. */
  predicate Decided(c: Condition, f: Features) {
    match c
    case And(subs) => forall i :: 0 <= i < |subs| ==> Decided(subs[i], f)
    case Or(subs) => forall i :: 0 <= i < |subs| ==> Decided(subs[i], f)
    case Compare(op, key, value) => op != Unknown && value.Some? && key in f
    case Malformed => false
  }

  lemma {:induction false} DecidedIsKnown(c: Condition, f: Features)
    requires Decided(c, f)
    ensures Kleene(c, f) != Open
  {
    if c.And? || c.Or? {
      forall i | 0 <= i < |c.subs| ensures Kleene(c.subs[i], f) != Open {
        DecidedIsKnown(c.subs[i], f);
      }
    }
  }

  /** So it is when every comparison is well-formed and has its feature. */
  lemma DualIsNegation(c: Condition, f: Features)
    requires Decided(c, f)
    ensures Evaluate(Dual(c), f) == !Evaluate(c, f)
  {
    DecidedIsKnown(c, f);
    DualIsNegationIff(c, f);
  }

  // ---------------------------------------------------------------- cooldown

  /** A rule for one tenant and chat. */
  datatype Key = Key(rule: string, tenant: string, chat: string)

  /** Microseconds in a second; clock readings are in microseconds. */
  const SECOND := 1_000_000

  /** One look at one rule: whether its action is a known one, its cooldown in seconds, whether its
      condition holds, and the clock when the cooldown is checked and when a firing is recorded. */
  datatype Attempt = Attempt(key: Key, known: bool, cooldown: int, holds: bool, check: int, record: int)

  type Triggered = map<Key, int>

  /** `is_rule_in_cooldown`. */
  predicate InCooldown(last: Triggered, key: Key, cooldown: int, now: int) {
    cooldown > 0 && key in last && now - last[key] < cooldown * SECOND
  }

  predicate Fires(last: Triggered, a: Attempt) {
    a.known && !InCooldown(last, a.key, a.cooldown, a.check) && a.holds
  }

  /** The trigger times after the attempts. */
  function After(attempts: seq<Attempt>): Triggered {
    if attempts == [] then map[]
    else
      var last, a := After(attempts[..|attempts| - 1]), attempts[|attempts| - 1];
      if Fires(last, a) then last[a.key := a.record] else last
  }

  /** The attempts at which `key` fired, in order. */
  function Firings(attempts: seq<Attempt>, key: Key): seq<Attempt> {
    if attempts == [] then []
    else
      var before, a := attempts[..|attempts| - 1], attempts[|attempts| - 1];
      Firings(before, key) + (if a.key == key && Fires(After(before), a) then [a] else [])
  }

  /** One evaluator at a time, on a clock that does not run backwards. */
  predicate Sequential(attempts: seq<Attempt>) {
    && (forall i :: 0 <= i < |attempts| ==> attempts[i].check <= attempts[i].record)
    && (forall i :: 0 < i < |attempts| ==> attempts[i - 1].record <= attempts[i].check)
  }

  /** Each firing is at least its own cooldown after the one before it, and never before it. */
  predicate Spaced(fs: seq<Attempt>) {
    forall i :: 0 < i < |fs| ==>
      && fs[i].record >= fs[i - 1].record
      && (fs[i].cooldown > 0 ==> fs[i].record - fs[i - 1].record >= fs[i].cooldown * SECOND)
  }

  lemma SequentialPrefix(attempts: seq<Attempt>)
    requires Sequential(attempts) && attempts != []
    ensures Sequential(attempts[..|attempts| - 1])
  {
    var n := |attempts| - 1;
    forall i | 0 < i < n ensures attempts[..n][i - 1].record <= attempts[..n][i].check {
      assert attempts[i - 1].record <= attempts[i].check;
    }
  }

  /** The stored trigger time of a key is that of its last firing, and in the past. */
  lemma {:induction false} StoredIsLastFiring(attempts: seq<Attempt>, key: Key)
    requires Sequential(attempts)
    ensures var fs := Firings(attempts, key);
            && (key in After(attempts) <==> fs != [])
            && (fs != [] ==> After(attempts)[key] == fs[|fs| - 1].record <= attempts[|attempts| - 1].record)
  {
    if attempts != [] {
      var n := |attempts| - 1;
      SequentialPrefix(attempts);
      StoredIsLastFiring(attempts[..n], key);
      if n > 0 {
        assert attempts[n - 1].record <= attempts[n].check;
      }
    }
  }

  /** Whether attempt `i` fires. */
  predicate FiresAt(attempts: seq<Attempt>, i: nat)
    requires i < |attempts|
  {
    Fires(After(attempts[..i]), attempts[i])
  }

  /** Attempt `j` is the last before `i` at which the key of `i` fired. */
  predicate LastBefore(attempts: seq<Attempt>, j: nat, i: nat)
    requires j < i < |attempts|
  {
    && attempts[j].key == attempts[i].key && FiresAt(attempts, j)
    && forall k :: j < k < i && attempts[k].key == attempts[i].key ==> !FiresAt(attempts, k)
  }

  /** The stored time of a key, from the attempts alone. */
  lemma {:induction false} StoredIsLast(attempts: seq<Attempt>, key: Key)
    ensures key in After(attempts) ==> exists j :: 0 <= j < |attempts| && IsLast(attempts, key, j)
    ensures forall j :: 0 <= j < |attempts| && IsLast(attempts, key, j) ==>
              key in After(attempts) && After(attempts)[key] == attempts[j].record
  {
    if attempts != [] {
      var n := |attempts| - 1;
      var before := attempts[..n];
      StoredIsLast(before, key);
      FiresBefore(attempts);
      var fires := attempts[n].key == key && FiresAt(attempts, n);
      forall j | 0 <= j < n ensures IsLast(attempts, key, j) <==> IsLast(before, key, j) && !fires {
        assert before[j] == attempts[j] && FiresAt(before, j) == FiresAt(attempts, j);
        if IsLast(attempts, key, j) {
          forall k | j < k < n && before[k].key == key ensures !FiresAt(before, k) {
            assert attempts[k].key == key;
          }
        }
      }
      if fires {
        assert IsLast(attempts, key, n);
      }
    }
  }

  /** Attempt `j` is the last at which the key fired. */
  predicate IsLast(attempts: seq<Attempt>, key: Key, j: nat)
    requires j < |attempts|
  {
    && attempts[j].key == key && FiresAt(attempts, j)
    && forall k :: j < k < |attempts| && attempts[k].key == key ==> !FiresAt(attempts, k)
  }

  lemma FiresBefore(attempts: seq<Attempt>)
    requires attempts != []
    ensures forall k :: 0 <= k < |attempts| - 1 ==> FiresAt(attempts[..|attempts| - 1], k) == FiresAt(attempts, k)
  {
    forall k | 0 <= k < |attempts| - 1 ensures FiresAt(attempts[..|attempts| - 1], k) == FiresAt(attempts, k) {
      assert attempts[..|attempts| - 1][..k] == attempts[..k];
    }
  }

  /** An attempt fires if and only if its action is a known one, its condition holds, and its cooldown
      is not positive, or its key has not fired before, or the cooldown has passed between the record
      of the key's last firing and this check. */
  lemma FiresIff(attempts: seq<Attempt>, i: nat)
    requires i < |attempts|
    ensures var a := attempts[i];
            FiresAt(attempts, i) <==>
            && a.known && a.holds
            && (a.cooldown > 0 ==> forall j :: 0 <= j < i && LastBefore(attempts, j, i) ==>
                  a.check - attempts[j].record >= a.cooldown * SECOND)
  {
    var before, a := attempts[..i], attempts[i];
    StoredIsLast(before, a.key);
    forall j | 0 <= j < i ensures LastBefore(attempts, j, i) <==> IsLast(before, a.key, j) {
      forall k | 0 <= k < i ensures FiresAt(before, k) == FiresAt(attempts, k) {
        assert before[..k] == attempts[..k];
      }
      if LastBefore(attempts, j, i) {
        forall k | j < k < i && before[k].key == a.key ensures !FiresAt(before, k) {
          assert attempts[k].key == a.key;
        }
      }
      if IsLast(before, a.key, j) {
        forall k | j < k < i && attempts[k].key == a.key ensures !FiresAt(attempts, k) {
          assert before[k].key == a.key;
        }
      }
    }
  }

  lemma SpacedAppend(fs: seq<Attempt>, a: Attempt)
    requires Spaced(fs)
    requires fs != [] ==> a.record >= fs[|fs| - 1].record
                          && (a.cooldown > 0 ==> a.record - fs[|fs| - 1].record >= a.cooldown * SECOND)
    ensures Spaced(fs + [a])
  {
    var all := fs + [a];
    forall i | 0 < i < |all|
      ensures all[i].record >= all[i - 1].record
      ensures all[i].cooldown > 0 ==> all[i].record - all[i - 1].record >= all[i].cooldown * SECOND
    {
      if i < |fs| {
        assert fs[i].record >= fs[i - 1].record;
      }
    }
  }

  /** Over any run of evaluations, of any rules, tenants and chats: two firings in a row of one rule
      for one tenant and chat are at least the cooldown then in force apart. */
  lemma {:induction false} FiringsAreSpaced(attempts: seq<Attempt>, key: Key)
    requires Sequential(attempts)
    ensures Spaced(Firings(attempts, key))
  {
    if attempts != [] {
      var n := |attempts| - 1;
      var a, before := attempts[n], attempts[..n];
      SequentialPrefix(attempts);
      FiringsAreSpaced(before, key);
      StoredIsLastFiring(before, key);
      var fs := Firings(before, key);
      if a.key == key && Fires(After(before), a) {
        if n > 0 {
          assert attempts[n - 1].record <= a.check;
          assert before[n - 1] == attempts[n - 1];
        }
        SpacedAppend(fs, a);
      } else {
        assert fs + [] == fs;
      }
    }
  }

  lemma {:induction false} SpacedSpan(fs: seq<Attempt>, c: int, i: nat, j: nat)
    requires Spaced(fs) && i <= j < |fs| && c > 0
    requires forall k :: 0 <= k < |fs| ==> fs[k].cooldown == c
    ensures fs[j].record - fs[i].record >= (j - i) * (c * SECOND)
  {
    if i < j {
      SpacedSpan(fs, c, i, j - 1);
      assert fs[j].record - fs[j - 1].record >= fs[j].cooldown * SECOND;
      assert (j - i) * (c * SECOND) == (j - 1 - i) * (c * SECOND) + c * SECOND;
    }
  }

  /** With one cooldown of c seconds throughout, at most floor(w / c) + 1 firings fall in any window
      of w seconds: no more than that many in a row are within w of each other. */
  lemma FiringsInWindow(attempts: seq<Attempt>, key: Key, c: int, w: nat, i: nat, j: nat)
    requires Sequential(attempts) && c > 0
    requires forall k :: 0 <= k < |attempts| && attempts[k].key == key ==> attempts[k].cooldown == c
    requires i <= j < |Firings(attempts, key)|
    requires Firings(attempts, key)[j].record - Firings(attempts, key)[i].record <= w * SECOND
    ensures j - i + 1 <= w / c + 1
  {
    var fs := Firings(attempts, key);
    FiringsAreSpaced(attempts, key);
    FiringsTake(attempts, key);
    forall k | 0 <= k < |fs| ensures fs[k].cooldown == c {
      assert fs[k] in attempts;
    }
    SpacedSpan(fs, c, i, j);
    QuotientBound(j - i, c, w);
  }

  lemma CancelFactor(m: int, n: int, c: int)
    requires c > 0 && m * c < n * c
    ensures m < n
  {
    assert (n - m) * c > 0;
  }

  lemma QuotientBound(n: nat, c: int, w: nat)
    requires c > 0 && n * (c * SECOND) <= w * SECOND
    ensures n <= w / c
  {
    var q := w / c;
    assert n * (c * SECOND) == (n * c) * SECOND;
    assert n * c < (q + 1) * c by {
      assert w == q * c + w % c;
      assert (q + 1) * c == q * c + c;
    }
    CancelFactor(n, q + 1, c);
  }

  lemma {:induction false} FiringsTake(attempts: seq<Attempt>, key: Key)
    ensures forall a | a in Firings(attempts, key) :: a in attempts && a.key == key
  {
    if attempts != [] {
      FiringsTake(attempts[..|attempts| - 1], key);
    }
  }

  // ---------------------------------------------------------------- an evaluation

  datatype Action = Warn | RequireApproval | Quarantine | Pause

  /** A rule as it is listed; None for an action that is not a known one. */
  datatype Rule = Rule(id: string, condition: Condition, action: Option<Action>, cooldown: int)

  datatype Fired = Fired(rule: string, action: Action)

  function AttemptAt(rule: Rule, f: Features, tenant: string, chat: string, at: (int, int)): Attempt {
    Attempt(Key(rule.id, tenant, chat), rule.action.Some?, rule.cooldown, Evaluate(rule.condition, f), at.0, at.1)
  }

  /** Looking at each rule, with a clock reading for the check and one for the record. */
  function Attempts(rules: seq<Rule>, f: Features, tenant: string, chat: string,
                    clock: seq<(int, int)>): (r: seq<Attempt>)
    requires |clock| == |rules|
    ensures |r| == |rules|
  {
    if rules == [] then []
    else
      var n := |rules| - 1;
      Attempts(rules[..n], f, tenant, chat, clock[..n]) + [AttemptAt(rules[n], f, tenant, chat, clock[n])]
  }

  /** What one evaluation reports: the rules whose attempts fire, given all attempts before them. */
  function FiredBy(before: seq<Attempt>, rules: seq<Rule>, f: Features, tenant: string, chat: string,
                   clock: seq<(int, int)>): seq<Fired>
    requires |clock| == |rules|
  {
    if rules == [] then []
    else
      var n := |rules| - 1;
      var so := Attempts(rules[..n], f, tenant, chat, clock[..n]);
      FiredBy(before, rules[..n], f, tenant, chat, clock[..n])
      + (if Fires(After(before + so), AttemptAt(rules[n], f, tenant, chat, clock[n]))
         then [Fired(rules[n].id, rules[n].action.value)] else [])
  }

  /** What `history` holds from `base` on is one look at each rule, in order. */
  predicate LooksAt(rules: seq<Rule>, f: Features, tenant: string, chat: string, clock: seq<(int, int)>,
                    history: seq<Attempt>, base: nat)
    requires |clock| == |rules|
  {
    |history| == base + |rules| && forall n :: 0 <= n < |rules| ==>
      var a, rule := history[base + n], rules[n];
      && a.key == Key(rule.id, tenant, chat) && a.cooldown == rule.cooldown
      && (a.known <==> rule.action.Some?) && (a.holds <==> Evaluate(rule.condition, f))
      && a.check == clock[n].0 && a.record == clock[n].1
  }

  /** The report names the rules at the places `at`, in order: exactly those that fired. */
  ghost predicate ReportsAt(fired: seq<Fired>, rules: seq<Rule>, history: seq<Attempt>, base: nat, at: seq<nat>)
    requires |history| == base + |rules|
  {
    && |at| == |fired|
    && (forall i, j :: 0 <= i < j < |at| ==> at[i] < at[j])
    && (forall n: nat :: n in at <==> n < |rules| && FiresAt(history, base + n))
    && (forall i :: 0 <= i < |at| ==> at[i] < |rules| && rules[at[i]].action == Some(fired[i].action)
                                      && rules[at[i]].id == fired[i].rule)
  }

  ghost predicate Reports(fired: seq<Fired>, rules: seq<Rule>, history: seq<Attempt>, base: nat)
    requires |history| == base + |rules|
  {
    exists at: seq<nat> :: ReportsAt(fired, rules, history, base, at)
  }

  lemma {:induction false} AttemptsLook(before: seq<Attempt>, rules: seq<Rule>, f: Features, tenant: string,
                                        chat: string, clock: seq<(int, int)>)
    requires |clock| == |rules|
    ensures LooksAt(rules, f, tenant, chat, clock, before + Attempts(rules, f, tenant, chat, clock), |before|)
  {
    if rules != [] {
      var n := |rules| - 1;
      AttemptsLook(before, rules[..n], f, tenant, chat, clock[..n]);
      var so := before + Attempts(rules[..n], f, tenant, chat, clock[..n]);
      var all := before + Attempts(rules, f, tenant, chat, clock);
      assert all == so + [AttemptAt(rules[n], f, tenant, chat, clock[n])];
    }
  }

  lemma FiresAtAppend(history: seq<Attempt>, a: Attempt)
    ensures forall k :: 0 <= k < |history| ==> FiresAt(history + [a], k) == FiresAt(history, k)
    ensures FiresAt(history + [a], |history|) == Fires(After(history), a)
  {
    forall k | 0 <= k < |history| ensures FiresAt(history + [a], k) == FiresAt(history, k) {
      assert (history + [a])[..k] == history[..k];
    }
    assert (history + [a])[..|history|] == history;
  }

  lemma MoreReports(fired: seq<Fired>, rules: seq<Rule>, history: seq<Attempt>, base: nat, rule: Rule, a: Attempt)
    requires |history| == base + |rules| && Reports(fired, rules, history, base)
    requires a.known <==> rule.action.Some?
    ensures Reports(fired + (if Fires(After(history), a) then [Fired(rule.id, rule.action.value)] else []),
                    rules + [rule], history + [a], base)
  {
    var at: seq<nat> :| ReportsAt(fired, rules, history, base, at);
    FiresAtAppend(history, a);
    if Fires(After(history), a) {
      PlaceReported(fired, rules, history, base, at, rule, a);
    } else {
      assert fired + [] == fired;
      assert ReportsAt(fired, rules + [rule], history + [a], base, at);
    }
  }

  lemma PlaceReported(fired: seq<Fired>, rules: seq<Rule>, history: seq<Attempt>, base: nat, at: seq<nat>, rule: Rule,
                      a: Attempt)
    requires |history| == base + |rules| && ReportsAt(fired, rules, history, base, at)
    requires rule.action.Some? && Fires(After(history), a)
    ensures ReportsAt(fired + [Fired(rule.id, rule.action.value)], rules + [rule], history + [a], base, at + [|rules|])
  {
    FiresAtAppend(history, a);
    forall i | 0 <= i < |at| ensures at[i] < |rules| {
      assert at[i] in at;
    }
    forall n: nat ensures n in at + [|rules|] <==> n < |rules| + 1 && FiresAt(history + [a], base + n) {
      assert n in at + [|rules|] <==> n in at || n == |rules|;
    }
  }

  lemma {:induction false} FiredByReports(before: seq<Attempt>, rules: seq<Rule>, f: Features, tenant: string,
                                          chat: string, clock: seq<(int, int)>)
    requires |clock| == |rules|
    ensures Reports(FiredBy(before, rules, f, tenant, chat, clock), rules,
                    before + Attempts(rules, f, tenant, chat, clock), |before|)
  {
    if rules == [] {
      assert ReportsAt([], rules, before + [], |before|, []);
    } else {
      var n := |rules| - 1;
      FiredByReports(before, rules[..n], f, tenant, chat, clock[..n]);
      var so, a := Attempts(rules[..n], f, tenant, chat, clock[..n]), AttemptAt(rules[n], f, tenant, chat, clock[n]);
      var fired := FiredBy(before, rules[..n], f, tenant, chat, clock[..n]);
      MoreReports(fired, rules[..n], before + so, |before|, rules[n], a);
      assert rules[..n] + [rules[n]] == rules;
      Assoc(before, so, [a]);
    }
  }

  class RuleStore {
    var last: Triggered
    ghost var history: seq<Attempt>

    ghost predicate Valid()
      reads this
    {
      last == After(history)
    }

    constructor ()
      ensures Valid() && history == []
    {
      last, history := map[], [];
    }

    /** One turn of the loop. */
    method LookAt(rule: Rule, f: Features, tenant: string, chat: string, check: int, record: int)
        returns (fired: seq<Fired>)
      requires Valid()
      modifies this
      ensures Valid()
      ensures history == old(history) + [AttemptAt(rule, f, tenant, chat, (check, record))]
      ensures fired == if Fires(old(last), AttemptAt(rule, f, tenant, chat, (check, record)))
                       then [Fired(rule.id, rule.action.value)] else []
    {
      fired := [];
      var key := Key(rule.id, tenant, chat);
      ghost var a := AttemptAt(rule, f, tenant, chat, (check, record));
      assert (history + [a])[..|history|] == history;
      history := history + [a];
      if rule.action.None? {
        return;
      }
      if InCooldown(last, key, rule.cooldown, check) {
        return;
      }
      if !Evaluate(rule.condition, f) {
        return;
      }
      last := last[key := record];
      fired := [Fired(rule.id, rule.action.value)];
    }

    /** `evaluate_rules_after_turn` on the features found for the chat: every rule is looked at, and
        exactly those that fire are reported, in order. */
    method EvaluateRules(rules: seq<Rule>, f: Features, tenant: string, chat: string, clock: seq<(int, int)>)
        returns (fired: seq<Fired>)
      requires Valid() && |clock| == |rules|
      modifies this
      ensures Valid()
      ensures f == map[] ==> history == old(history) && fired == []
      ensures f != map[] ==> old(history) <= history
      ensures f != map[] ==> LooksAt(rules, f, tenant, chat, clock, history, |old(history)|)
      ensures f != map[] ==> Reports(fired, rules, history, |old(history)|)
    {
      fired := [];
      if f == map[] {
        return;
      }
      for n := 0 to |rules|
        invariant Valid()
        invariant history == old(history) + Attempts(rules[..n], f, tenant, chat, clock[..n])
        invariant fired == FiredBy(old(history), rules[..n], f, tenant, chat, clock[..n])
      {
        assert rules[..n + 1] == rules[..n] + [rules[n]] && clock[..n + 1] == clock[..n] + [clock[n]];
        AttemptsAppend(old(history), rules[..n], rules[n], f, tenant, chat, clock[..n], clock[n]);
        var now := LookAt(rules[n], f, tenant, chat, clock[n].0, clock[n].1);
        fired := fired + now;
      }
      assert rules[..|rules|] == rules && clock[..|rules|] == clock;
      AttemptsLook(old(history), rules, f, tenant, chat, clock);
      FiredByReports(old(history), rules, f, tenant, chat, clock);
    }
  }

  lemma AttemptsAppend(before: seq<Attempt>, rules: seq<Rule>, rule: Rule, f: Features, tenant: string, chat: string,
                       clock: seq<(int, int)>, at: (int, int))
    requires |clock| == |rules|
    ensures var so, a := Attempts(rules, f, tenant, chat, clock), AttemptAt(rule, f, tenant, chat, at);
            && before + Attempts(rules + [rule], f, tenant, chat, clock + [at]) == before + so + [a]
            && FiredBy(before, rules + [rule], f, tenant, chat, clock + [at]) ==
               FiredBy(before, rules, f, tenant, chat, clock)
               + (if Fires(After(before + so), a) then [Fired(rule.id, rule.action.value)] else [])
  {
    assert (rules + [rule])[..|rules|] == rules && (clock + [at])[..|clock|] == clock;
    Assoc(before, Attempts(rules, f, tenant, chat, clock), [AttemptAt(rule, f, tenant, chat, at)]);
  }
}

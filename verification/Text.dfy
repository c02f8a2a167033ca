/** Python string primitives that several components rely on. */
module Text {

  datatype Option<+T> = None | Some(value: T)

  /** The characters that `str.strip` removes and that `\s` matches. */
  predicate IsSpace(c: char) {
    || '\t' <= c <= '\r'
    || '\U{1C}' <= c <= ' '
    || c == '\U{85}' || c == '\U{A0}' || c == '\U{1680}'
    || '\U{2000}' <= c <= '\U{200A}'
    || c == '\U{2028}' || c == '\U{2029}' || c == '\U{202F}' || c == '\U{205F}' || c == '\U{3000}'
  }

  function StripLeft(s: string): (r: string)
    ensures |r| <= |s|
  {
    if s != [] && IsSpace(s[0]) then StripLeft(s[1..]) else s
  }

  function StripRight(s: string): (r: string)
    ensures |r| <= |s|
  {
    if s != [] && IsSpace(s[|s| - 1]) then StripRight(s[..|s| - 1]) else s
  }

  /** `str.strip`. */
  function Strip(s: string): string {
    StripRight(StripLeft(s))
  }

  /** No whitespace at either end. */
  predicate Stripped(s: string) {
    s == [] || (!IsSpace(s[0]) && !IsSpace(s[|s| - 1]))
  }

  /** Stripping is the identity exactly on text without whitespace at its ends. */
  lemma StripIsIdentityIff(s: string)
    ensures Strip(s) == s <==> Stripped(s)
  {
  }

  lemma {:induction false} StripRightKeepsHead(s: string)
    requires s != [] && !IsSpace(s[0])
    ensures StripRight(s) != [] && StripRight(s)[0] == s[0]
  {
    if IsSpace(s[|s| - 1]) {
      StripRightKeepsHead(s[..|s| - 1]);
    }
  }

  lemma {:induction false} StripRightTail(s: string)
    ensures StripRight(s) == [] || !IsSpace(StripRight(s)[|StripRight(s)| - 1])
  {
    if s != [] && IsSpace(s[|s| - 1]) {
      StripRightTail(s[..|s| - 1]);
    }
  }

  lemma {:induction false} StripLeftHead(s: string)
    ensures StripLeft(s) == [] || !IsSpace(StripLeft(s)[0])
  {
    if s != [] && IsSpace(s[0]) {
      StripLeftHead(s[1..]);
    }
  }

  lemma StripIsStripped(s: string)
    ensures Stripped(Strip(s))
  {
    StripLeftHead(s);
    StripRightTail(StripLeft(s));
    if StripLeft(s) != [] {
      StripRightKeepsHead(StripLeft(s));
    }
  }

  lemma {:induction false} StripLeftTakes(s: string)
    ensures forall c | c in StripLeft(s) :: c in s
  {
    if s != [] && IsSpace(s[0]) {
      StripLeftTakes(s[1..]);
    }
  }

  lemma {:induction false} StripRightTakes(s: string)
    ensures forall c | c in StripRight(s) :: c in s
  {
    if s != [] && IsSpace(s[|s| - 1]) {
      StripRightTakes(s[..|s| - 1]);
    }
  }

  lemma StripTakes(s: string)
    ensures forall c | c in Strip(s) :: c in s
  {
    StripLeftTakes(s);
    StripRightTakes(StripLeft(s));
  }

  lemma Assoc<T>(a: seq<T>, b: seq<T>, c: seq<T>)
    ensures (a + b) + c == a + (b + c)
  {
  }

  /** Replacing `a + b` by the equal `c + d` in front of `rest`. */
  lemma Splice<T>(a: seq<T>, b: seq<T>, c: seq<T>, d: seq<T>, rest: seq<T>)
    requires a + b == c + d
    ensures a + (b + rest) == c + (d + rest)
  {
    Assoc(a, b, rest);
    Assoc(c, d, rest);
  }

  lemma FirstAndRest<T>(s: seq<T>, i: nat, n: nat)
    requires i + 1 + n <= |s|
    ensures s[i..] == [s[i]] + s[i + 1..]
    ensures s[i + 1..][n..] == s[i + 1 + n..]
  {
  }

  /** `sep.join(parts)`. */
  function Join(sep: string, parts: seq<string>): string {
    if |parts| == 0 then []
    else if |parts| == 1 then parts[0]
    else parts[0] + sep + Join(sep, parts[1..])
  }

  /** Text is cut in one way only at its last colon. */
  lemma LastColon(x: string, y: string, x': string, y': string)
    requires ':' !in y && ':' !in y' && x + ":" + y == x' + ":" + y'
    ensures x == x' && y == y'
  {
    var s := x + ":" + y;
    assert forall i :: |x| < i < |s| ==> s[i] == y[i - |x| - 1];
    assert forall i :: |x'| < i < |s| ==> s[i] == y'[i - |x'| - 1];
    assert s[|x|] == ':' && s[|x'|] == ':';
    assert |x| == |x'|;
    assert x == s[..|x|] && y == s[|x| + 1..];
    assert x' == s[..|x'|] && y' == s[|x'| + 1..];
  }

  /** Text is cut in one way only at its first colon. */
  lemma FirstColon(x: string, y: string, x': string, y': string)
    requires ':' !in x && ':' !in x' && x + ":" + y == x' + ":" + y'
    ensures x == x' && y == y'
  {
    var s := x + ":" + y;
    assert forall i :: 0 <= i < |x| ==> s[i] == x[i];
    assert forall i :: 0 <= i < |x'| ==> s[i] == x'[i];
    assert s[|x|] == ':' && s[|x'|] == ':';
    assert |x| == |x'|;
    assert x == s[..|x|] && y == s[|x| + 1..];
    assert x' == s[..|x'|] && y' == s[|x'| + 1..];
  }

  /** `str(n)`. */
  function Decimal(n: nat): (s: string)
    ensures s != []
  {
    if n < 10 then [Digit(n)] else Decimal(n / 10) + [Digit(n % 10)]
  }

  function Digit(n: nat): char
    requires n < 10
  {
    ('0' as int + n) as char
  }

  lemma {:induction false} DecimalHasDigits(n: nat)
    ensures forall i :: 0 <= i < |Decimal(n)| ==> '0' <= Decimal(n)[i] <= '9'
  {
    if n >= 10 {
      DecimalHasDigits(n / 10);
    }
  }

  lemma {:induction false} DecimalIsInjective(m: nat, n: nat)
    requires Decimal(m) == Decimal(n)
    ensures m == n
  {
    var s := Decimal(m);
    assert s[|s| - 1] == Digit(m % 10) == Digit(n % 10);
    if m >= 10 && n >= 10 {
      assert Decimal(m / 10) == s[..|s| - 1] == Decimal(n / 10);
      DecimalIsInjective(m / 10, n / 10);
    }
  }

  // ---------------------------------------------------------------- padding

  predicate AllSpace(s: string) {
    forall i :: 0 <= i < |s| ==> IsSpace(s[i])
  }

  lemma {:induction false} StripLeftPadding(p: string, s: string)
    requires AllSpace(p)
    ensures StripLeft(p + s) == StripLeft(s)
  {
    if p == [] {
      assert p + s == s;
    } else {
      assert (p + s)[1..] == p[1..] + s;
      StripLeftPadding(p[1..], s);
    }
  }

  lemma {:induction false} StripRightPadding(s: string, p: string)
    requires AllSpace(p)
    ensures StripRight(s + p) == StripRight(s)
  {
    if p == [] {
      assert s + p == s;
    } else {
      assert (s + p)[..|s + p| - 1] == s + p[..|p| - 1];
      StripRightPadding(s, p[..|p| - 1]);
    }
  }

  lemma StripPadding(p: string, s: string, q: string)
    requires AllSpace(p) && AllSpace(q) && Stripped(s)
    ensures Strip(p + (s + q)) == s
  {
    StripLeftPadding(p, s + q);
    if s == [] {
      assert s + q == q && q + [] == q;
      StripLeftPadding(q, []);
    } else {
      StripRightPadding(s, q);
    }
  }

  // ---------------------------------------------------------------- text order

  /** The order of SQL text and of JSON keys. */
  predicate TextLess(a: string, b: string) {
    if b == [] then false
    else if a == [] then true
    else a[0] < b[0] || (a[0] == b[0] && TextLess(a[1..], b[1..]))
  }

  lemma {:induction false} LessIsTransitive(a: string, b: string, c: string)
    ensures TextLess(a, b) && TextLess(b, c) ==> TextLess(a, c)
    decreases |a|
  {
    if a != [] && b != [] && c != [] {
      LessIsTransitive(a[1..], b[1..], c[1..]);
    }
  }

  /** No text is less than itself, nor both less and greater than another. */
  lemma {:induction false} LessIsIrreflexive(a: string, b: string)
    ensures !(TextLess(a, b) && TextLess(b, a))
    ensures !TextLess(a, a)
    decreases |a|
  {
    if a != [] {
      LessIsIrreflexive(a[1..], if b == [] then [] else b[1..]);
    }
  }

  lemma {:induction false} LessIsTotal(a: string, b: string)
    ensures a == b || TextLess(a, b) || TextLess(b, a)
    decreases |a|
  {
    if a != [] && b != [] && a[0] == b[0] {
      LessIsTotal(a[1..], b[1..]);
      assert a == [a[0]] + a[1..] && b == [b[0]] + b[1..];
    }
  }
}

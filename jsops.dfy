/**
 * The JavaScript built-ins the controllers lean on, with the semantics the
 * language gives them: `Math.ceil` of a quotient, `Array.prototype.slice`,
 * `indexOf`, `splice(k, 1)`, `String.prototype.trim`, `toLowerCase` and the
 * decimal rendering of a non-negative integer (`Number.prototype.toString`).
 */
module JsOps {

  /* ---------------------------------------------------------------- */
  /* Arithmetic                                                         */
  /* ---------------------------------------------------------------- */

  /** `Math.ceil(a / b)` for integers with `b != 0`: the least integer that is not below a/b. */
  function CeilDiv(a: int, b: int): (r: int)
    requires b != 0
    ensures b > 0 ==> (r - 1) * b < a <= r * b
    ensures b < 0 ==> r * b <= a < (r - 1) * b
  {
    if b > 0 then
      var q := (-a) / b;
      assert -a == q * b + (-a) % b;
      -q
    else
      var q := a / (-b);
      assert a == q * (-b) + a % (-b);
      -q
  }

  /** ceil(a/b) is 0 exactly when a is 0, for a non-negative a and a positive b. */
  lemma CeilDivZero(a: nat, b: int)
    requires b > 0
    ensures CeilDiv(a, b) == 0 <==> a == 0
  {
    var r := CeilDiv(a, b);
    ProductSign(r, b);
    ProductSign(r - 1, b);
  }

  lemma MulMonotone(x: int, y: int, k: int)
    requires x <= y && k >= 0
    ensures x * k <= y * k
  {
  }

  /** Multiplying by a positive number keeps the sign. */
  lemma ProductSign(x: int, b: int)
    requires b > 0
    decreases if x > 0 then x else -x
    ensures x > 0 <==> x * b > 0
    ensures x < 0 <==> x * b < 0
  {
    if x > 0 {
      assert x * b == (x - 1) * b + b;
      ProductSign(x - 1, b);
    } else if x < 0 {
      assert x * b == (x + 1) * b - b;
      ProductSign(x + 1, b);
    }
  }

  /* ---------------------------------------------------------------- */
  /* Arrays                                                             */
  /* ---------------------------------------------------------------- */

  /** ECMAScript's relative index: a negative position counts back from the end, and the result is clamped to [0, len]. */
  function RelativeIndex(k: int, len: nat): nat
  {
    if k < 0 then (if len + k < 0 then 0 else len + k)
    else if k < len then k else len
  }

  /** `s.slice(start, end)`. */
  function Slice<T>(s: seq<T>, start: int, end: int): (r: seq<T>)
    ensures |r| <= |s|
    ensures 0 <= start <= |s| && start <= end ==> r == s[start..if end < |s| then end else |s|]
    ensures 0 <= start <= end ==> |r| <= end - start
    ensures 0 <= start && |s| <= start ==> r == []
  {
    var from := RelativeIndex(start, |s|);
    var to := RelativeIndex(end, |s|);
    if from < to then s[from..to] else []
  }

  /** A negative bound of `slice` counts back from the end of the array, and one reaching past the start stands for 0. */
  lemma SliceNegative<T>(s: seq<T>, k: int, other: int)
    requires 0 < k
    ensures k <= |s| ==> Slice(s, -k, other) == Slice(s, |s| - k, other) && Slice(s, other, -k) == Slice(s, other, |s| - k)
    ensures |s| < k ==> Slice(s, -k, other) == Slice(s, 0, other) && Slice(s, other, -k) == []
  {
  }

  /** `s.indexOf(x)`: the first position holding x, or -1. */
  function IndexOf<T(==)>(s: seq<T>, x: T): (r: int)
    ensures -1 <= r < |s|
    ensures r == -1 <==> x !in s
    ensures 0 <= r ==> s[r] == x && x !in s[..r]
  {
    if |s| == 0 then -1
    else if s[0] == x then 0
    else
      var k := IndexOf(s[1..], x);
      assert s[1..][..k + 1] == s[1..k + 2] by { if k >= 0 { assert s[1..][..k] == s[1..k + 1]; } }
      if k == -1 then -1 else k + 1
  }

  /** The array left behind by `s.splice(k, 1)`: one element removed at the relative position k, if there is one. */
  function SpliceOne<T>(s: seq<T>, k: int): (r: seq<T>)
    ensures 0 <= k < |s| ==> r == s[..k] + s[k + 1..]
    ensures k >= |s| ==> r == s
    ensures k == -1 && |s| > 0 ==> r == s[..|s| - 1]
    ensures |s| == 0 ==> r == []
  {
    var at := RelativeIndex(k, |s|);
    if at < |s| then s[..at] + s[at + 1..] else s
  }

  /** The same elements in the opposite order (`reverse`, or a sort that reads a sorted array backwards). */
  function Reverse<T>(s: seq<T>): (r: seq<T>)
    ensures |r| == |s| && forall i :: 0 <= i < |s| ==> r[i] == s[|s| - 1 - i]
  {
    if s == [] then [] else Reverse(s[1..]) + [s[0]]
  }

  /** Where `indexOf` finds y once x is pushed: where it did before, else at the new last position if y is x. */
  lemma {:induction false} IndexOfPush<T>(s: seq<T>, x: T, y: T)
    ensures IndexOf(s + [x], y) == if y in s then IndexOf(s, y) else if y == x then |s| else -1
  {
    if s != [] && s[0] != y {
      assert (s + [x])[1..] == s[1..] + [x];
      IndexOfPush(s[1..], x, y);
    }
  }

  /**
   * `[...new Set(s)]`: the distinct elements of s, each once, in the order
   * of their first appearance.
   */
  function DistinctInOrder(s: seq<string>): (r: seq<string>)
    ensures forall x :: x in r <==> x in s
    ensures forall i, j :: 0 <= i < j < |r| ==> r[i] != r[j]
    ensures forall i, j :: 0 <= i < j < |r| ==> IndexOf(s, r[i]) < IndexOf(s, r[j])
  {
    if s == [] then []
    else
      var init := s[..|s| - 1];
      var x := s[|s| - 1];
      var d := DistinctInOrder(init);
      assert s == init + [x];
      forall y ensures IndexOf(s, y) == if y in init then IndexOf(init, y) else if y == x then |init| else -1 {
        IndexOfPush(init, x, y);
      }
      if x in d then d else d + [x]
  }

  /** Number of occurrences of x in s. */
  function Count<T(==)>(s: seq<T>, x: T): nat
  {
    if s == [] then 0 else (if s[0] == x then 1 else 0) + Count(s[1..], x)
  }

  lemma {:induction false} CountZero<T>(s: seq<T>, x: T)
    ensures Count(s, x) == 0 <==> x !in s
  {
    if s != [] { CountZero(s[1..], x); }
  }

  lemma {:induction false} CountAppend<T>(a: seq<T>, b: seq<T>, x: T)
    ensures Count(a + b, x) == Count(a, x) + Count(b, x)
  {
    if a == [] {
      assert a + b == b;
    } else {
      assert (a + b)[1..] == a[1..] + b;
      CountAppend(a[1..], b, x);
    }
  }

  /* ---------------------------------------------------------------- */
  /* Strings                                                            */
  /* ---------------------------------------------------------------- */

  /** The characters `String.prototype.trim` strips: ECMAScript WhiteSpace and LineTerminator. */
  predicate IsJsSpace(c: char)
  {
    c == '\t' || c == '\n' || c == '\U{B}' || c == '\U{C}' || c == '\r' || c == ' '
    || c == '\U{A0}' || c == '\U{1680}' || ('\U{2000}' <= c <= '\U{200A}')
    || c == '\U{2028}' || c == '\U{2029}' || c == '\U{202F}' || c == '\U{205F}'
    || c == '\U{3000}' || c == '\U{FEFF}'
  }

  predicate AllSpaces(s: string)
  {
    forall i :: 0 <= i < |s| ==> IsJsSpace(s[i])
  }

  function TrimStart(s: string): (r: string)
    ensures |r| <= |s| && r == s[|s| - |r|..]
    ensures r == [] || !IsJsSpace(r[0])
    ensures AllSpaces(s[..|s| - |r|])
  {
    if s == [] || !IsJsSpace(s[0]) then s
    else
      var r := TrimStart(s[1..]);
      assert s[..|s| - |r|] == [s[0]] + s[1..][..|s| - 1 - |r|];
      r
  }

  function TrimEnd(s: string): (r: string)
    ensures |r| <= |s| && r == s[..|r|]
    ensures r == [] || !IsJsSpace(r[|r| - 1])
    ensures AllSpaces(s[|r|..])
  {
    if s == [] || !IsJsSpace(s[|s| - 1]) then s
    else
      var r := TrimEnd(s[..|s| - 1]);
      assert s[|r|..] == s[..|s| - 1][|r|..] + [s[|s| - 1]];
      r
  }

  /** s has no white space at either end. */
  predicate Trimmed(s: string)
  {
    s == [] || (!IsJsSpace(s[0]) && !IsJsSpace(s[|s| - 1]))
  }

  /** `s.trim()`: the longest infix with no white space at either end, once the spaces around it are dropped. */
  function Trim(s: string): (r: string)
    ensures Trimmed(r)
    ensures |r| <= |s|
  {
    TrimEnd(TrimStart(s))
  }

  /** The strings `trim` leaves alone are exactly those with no white space at either end. */
  lemma TrimFixes(s: string)
    ensures Trim(s) == s <==> Trimmed(s)
  {
    if Trimmed(s) {
      assert [] + s + [] == s;
      assert AllSpaces([]);
      TrimExact([], s, []);
    }
  }

  /** A string with no white space at either end, surrounded only by white space, trims to itself. */
  lemma {:induction false} TrimExact(pre: string, core: string, post: string)
    requires AllSpaces(pre) && AllSpaces(post)
    requires Trimmed(core)
    ensures Trim(pre + core + post) == core
  {
    var s := pre + core + post;
    if core == [] {
      assert AllSpaces(s);
      assert TrimStart(s) == [];
    } else {
      assert s == pre + (core + post);
      TrimStartSpaces(pre, core + post);
      TrimEndSpaces(core, post);
    }
  }

  lemma {:induction false} TrimStartSpaces(pre: string, rest: string)
    requires AllSpaces(pre)
    requires rest == [] || !IsJsSpace(rest[0])
    ensures TrimStart(pre + rest) == rest
  {
    if pre == [] {
      assert pre + rest == rest;
    } else {
      assert (pre + rest)[1..] == pre[1..] + rest;
      TrimStartSpaces(pre[1..], rest);
    }
  }

  lemma {:induction false} TrimEndSpaces(core: string, post: string)
    requires AllSpaces(post)
    requires core == [] || !IsJsSpace(core[|core| - 1])
    ensures TrimEnd(core + post) == core
  {
    if post == [] {
      assert core + post == core;
    } else {
      assert (core + post)[..|core + post| - 1] == core + post[..|post| - 1];
      TrimEndSpaces(core, post[..|post| - 1]);
    }
  }

  /** Trimming twice is trimming once. */
  lemma TrimIdempotent(s: string)
    ensures Trim(Trim(s)) == Trim(s)
  {
    var t := Trim(s);
    assert [] + t + [] == t;
    assert AllSpaces([]);
    TrimExact([], t, []);
  }

  /** `toLowerCase` on one character; only the ASCII letters A-Z are folded here. */
  function LowerChar(c: char): char
  {
    if 'A' <= c <= 'Z' then (c as int - 'A' as int + 'a' as int) as char else c
  }

  function Lower(s: string): string
  {
    seq(|s|, i requires 0 <= i < |s| => LowerChar(s[i]))
  }

  /* ---------------------------------------------------------------- */
  /* Decimal rendering of non-negative integers                         */
  /* ---------------------------------------------------------------- */

  predicate IsDigit(c: char)
  {
    '0' <= c <= '9'
  }

  predicate AllDigits(s: string)
  {
    forall i :: 0 <= i < |s| ==> IsDigit(s[i])
  }

  function DigitChar(d: nat): (c: char)
    requires d < 10
    ensures IsDigit(c) && c as int - '0' as int == d
  {
    ('0' as int + d) as char
  }

  /** `n.toString()` for a non-negative integer: decimal digits, most significant first, no leading zero. */
  function DecimalString(n: nat): (r: string)
    ensures |r| >= 1 && AllDigits(r)
    ensures n >= 10 ==> r[0] != '0'
  {
    if n < 10 then [DigitChar(n)] else DecimalString(n / 10) + [DigitChar(n % 10)]
  }

  /** Reads a string of decimal digits back as a number. */
  function ParseDecimal(s: string): nat
    requires AllDigits(s)
  {
    if s == [] then 0 else ParseDecimal(s[..|s| - 1]) * 10 + (s[|s| - 1] as int - '0' as int)
  }

  /** Rendering then reading a number gives the number back. */
  lemma {:induction false} DecimalRoundTrip(n: nat)
    ensures ParseDecimal(DecimalString(n)) == n
  {
    if n >= 10 {
      DecimalRoundTrip(n / 10);
      var s := DecimalString(n);
      assert s[..|s| - 1] == DecimalString(n / 10);
    }
  }

  /** Distinct numbers render as distinct strings. */
  lemma DecimalInjective(m: nat, n: nat)
    requires DecimalString(m) == DecimalString(n)
    ensures m == n
  {
    DecimalRoundTrip(m);
    DecimalRoundTrip(n);
  }

  /** A number of d digits renders as exactly d characters. */
  lemma {:induction false} DecimalLength(n: nat, d: nat)
    requires d >= 1 && Pow10(d - 1) <= n < Pow10(d)
    ensures |DecimalString(n)| == d
  {
    if n >= 10 {
      DecimalLength(n / 10, d - 1);
    }
  }

  function Pow10(k: nat): (r: nat)
    ensures r >= 1
  {
    if k == 0 then 1 else 10 * Pow10(k - 1)
  }

}

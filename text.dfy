/**
 * The JavaScript string built-ins the registry relies on, restricted to ASCII:
 * `toLowerCase`, `trim`, `split(/\s+/)`, `join(' ')`,
 * `includes`, and `String(n)` for integers; `SplitOnSpace` is not one of
 * them, only a device for stating facts about space-separated tokens.
 */
module Text {

  /** An ASCII upper-case letter. */
  predicate IsUpper(c: char) {
    'A' <= c <= 'Z'
  }

  /** The whitespace set of `trim` and `\s`, restricted to ASCII: space, tab, LF, VT, FF, CR. */
  predicate IsSpace(c: char) {
    c == ' ' || '\t' <= c <= '\r'
  }

  function LowerChar(c: char): (r: char)
    ensures !IsUpper(r)
    ensures !IsUpper(c) ==> r == c
    ensures IsSpace(r) <==> IsSpace(c)
  {
    if IsUpper(c) then (c as int + 32) as char else c
  }

  /** `s.toLowerCase()` on ASCII letters; every other character is kept. */
  function Lower(s: string): (r: string)
    ensures |r| == |s|
    ensures forall i :: 0 <= i < |s| ==> r[i] == LowerChar(s[i])
    ensures forall c :: c in r ==> !IsUpper(c)
  {
    seq(|s|, i requires 0 <= i < |s| => LowerChar(s[i]))
  }

  lemma LowerIdempotent(s: string)
    ensures Lower(Lower(s)) == Lower(s)
  {
  }

  /** Drops leading whitespace. */
  function TrimStart(s: string): (r: string)
    ensures |r| <= |s| && r == s[|s| - |r|..]
    ensures forall k :: 0 <= k < |s| - |r| ==> IsSpace(s[k])
    ensures r == [] || !IsSpace(r[0])
    decreases |s|
  {
    if s != [] && IsSpace(s[0]) then TrimStart(s[1..]) else s
  }

  /** Drops trailing whitespace. */
  function TrimEnd(s: string): (r: string)
    ensures |r| <= |s| && r == s[..|r|]
    ensures forall k :: |r| <= k < |s| ==> IsSpace(s[k])
    ensures r == [] || !IsSpace(r[|r| - 1])
    decreases |s|
  {
    if s != [] && IsSpace(s[|s| - 1]) then TrimEnd(s[..|s| - 1]) else s
  }

  /** `r` is `s[i..j]`, and everything of `s` before `i` and from `j` on is whitespace. */
  predicate TrimmedAt(s: string, r: string, i: int, j: int) {
    0 <= i <= j <= |s| && r == s[i..j]
    && (forall k :: 0 <= k < i ==> IsSpace(s[k]))
    && (forall k :: j <= k < |s| ==> IsSpace(s[k]))
  }

  /**
   * `s.trim()`: a slice of `s` that only leading and trailing whitespace
   * surrounds, and that neither starts nor ends with whitespace itself.
   */
  function Trim(s: string): (r: string)
    ensures exists i, j :: TrimmedAt(s, r, i, j)
    ensures r == [] || (!IsSpace(r[0]) && !IsSpace(r[|r| - 1]))
  {
    var front := TrimStart(s);
    var r := TrimEnd(front);
    var i := |s| - |front|;
    assert r == s[i..i + |r|];
    assert TrimmedAt(s, r, i, i + |r|);
    r
  }

  /** The trimmed string is empty exactly when the input is all whitespace. */
  lemma TrimEmptyIff(s: string)
    ensures Trim(s) == [] <==> forall k :: 0 <= k < |s| ==> IsSpace(s[k])
  {
    var front := TrimStart(s);
    if front != [] {
      assert front[0] == s[|s| - |front|];
    }
  }

  /**
   * `s.split(/\s+/)`: the pieces of `s` between maximal runs of whitespace.
   * A leading (trailing) run yields an empty first (last) piece, and the empty
   * string yields one empty piece.
   */
  function Split(s: string): (r: seq<string>)
    ensures |r| >= 1
    ensures forall t, c :: t in r && c in t ==> c in s && !IsSpace(c)
    ensures forall k :: 0 < k < |r| - 1 ==> r[k] != []
    ensures s != [] && !IsSpace(s[0]) ==> r[0] != []
    decreases |s|
  {
    if s == [] then [[]]
    else
      var rest := Split(s[1..]);
      if IsSpace(s[0]) then
        if |s| > 1 && IsSpace(s[1]) then rest else [[]] + rest
      else
        assert forall t :: t in rest[1..] ==> t in rest;
        [[s[0]] + rest[0]] + rest[1..]
  }

  /** `ts.join(' ')`. */
  function Join(ts: seq<string>): (r: string)
    ensures |ts| == 0 ==> r == []
    ensures |ts| == 1 ==> r == ts[0]
    ensures |ts| >= 1 ==> |ts[0]| <= |r| && r[..|ts[0]|] == ts[0]
  {
    if |ts| == 0 then []
    else if |ts| == 1 then ts[0]
    else ts[0] + " " + Join(ts[1..])
  }

  /**
   * Every maximal run of whitespace in `s` replaced by one space: a
   * whitespace character is dropped when the next one is whitespace too, and
   * otherwise becomes a space.
   */
  function Collapse(s: string): (r: string)
    ensures |r| <= |s|
    ensures forall c :: c in r ==> c == ' ' || (c in s && !IsSpace(c))
  {
    if s == [] then []
    else if IsSpace(s[0]) then
      if |s| > 1 && IsSpace(s[1]) then Collapse(s[1..]) else " " + Collapse(s[1..])
    else [s[0]] + Collapse(s[1..])
  }

  /** Joining pieces after extending the first one by a character in front. */
  lemma JoinConsChar(c: char, t: string, ts: seq<string>)
    ensures Join([[c] + t] + ts) == [c] + Join([t] + ts)
  {
    if ts != [] {
      assert ([[c] + t] + ts)[1..] == ts;
      assert ([t] + ts)[1..] == ts;
    }
  }

  /** Joining the pieces of `split(/\s+/)` with single spaces collapses the whitespace runs. */
  lemma {:induction false} JoinSplit(s: string)
    ensures Join(Split(s)) == Collapse(s)
    decreases |s|
  {
    if s != [] {
      var rest := Split(s[1..]);
      JoinSplit(s[1..]);
      if IsSpace(s[0]) {
        if !(|s| > 1 && IsSpace(s[1])) {
          assert ([[]] + rest)[1..] == rest;
        }
      } else {
        assert rest == [rest[0]] + rest[1..];
        JoinConsChar(s[0], rest[0], rest[1..]);
      }
    }
  }

  /**
   * `s.split(/\s+/)` is `split(' ')` of the string with each whitespace run
   * collapsed to one space: the pieces are the maximal non-whitespace runs
   * of `s`, in order, with an empty piece for a leading or trailing run.
   */
  lemma SplitIsCollapsedSplitOnSpace(s: string)
    ensures Split(s) == SplitOnSpace(Collapse(s))
  {
    var ts := Split(s);
    forall t | t in ts ensures ' ' !in t {
    }
    JoinSplit(s);
    SplitOnSpaceJoin(ts);
  }

  /** `s.split(' ')`: the pieces of `s` between single spaces. */
  function SplitOnSpace(s: string): (r: seq<string>)
    ensures |r| >= 1
  {
    if s == [] then [[]]
    else
      var rest := SplitOnSpace(s[1..]);
      if s[0] == ' ' then [[]] + rest else [[s[0]] + rest[0]] + rest[1..]
  }

  lemma {:induction false} SplitOnSpaceNoSpace(t: string)
    requires ' ' !in t
    ensures SplitOnSpace(t) == [t]
  {
    if t != [] {
      SplitOnSpaceNoSpace(t[1..]);
      assert [t[0]] + t[1..] == t;
    }
  }

  lemma {:induction false} SplitOnSpaceAfterToken(t: string, u: string)
    requires ' ' !in t
    ensures SplitOnSpace(t + " " + u) == [t] + SplitOnSpace(u)
  {
    if t == [] {
      assert (t + " " + u)[1..] == u;
    } else {
      assert (t + " " + u)[1..] == t[1..] + " " + u;
      SplitOnSpaceAfterToken(t[1..], u);
      assert [t[0]] + t[1..] == t;
    }
  }

  /** Splitting a join on the separator gives back the pieces, when no piece holds a space. */
  lemma {:induction false} SplitOnSpaceJoin(ts: seq<string>)
    requires ts != []
    requires forall t :: t in ts ==> ' ' !in t
    ensures SplitOnSpace(Join(ts)) == ts
  {
    if |ts| == 1 {
      SplitOnSpaceNoSpace(ts[0]);
    } else {
      SplitOnSpaceJoin(ts[1..]);
      SplitOnSpaceAfterToken(ts[0], Join(ts[1..]));
    }
  }

  /** `t` occurs in `s` starting at index `i`. */
  predicate OccursAt(s: string, t: string, i: int) {
    0 <= i <= |s| - |t| && s[i..i + |t|] == t
  }

  /** `s.includes(t)`. */
  predicate Contains(s: string, t: string)
    ensures Contains(s, t) ==> |t| <= |s|
  {
    exists i :: 0 <= i <= |s| - |t| && OccursAt(s, t, i)
  }

  lemma ContainsEmpty(s: string)
    ensures Contains(s, [])
  {
    assert OccursAt(s, [], 0);
  }

  lemma ContainsMiddle(a: string, t: string, b: string)
    ensures Contains(a + t + b, t)
  {
    assert OccursAt(a + t + b, t, |a|);
  }

  predicate StartsWith(s: string, p: string) {
    |p| <= |s| && s[..|p|] == p
  }

  /** A prefix stays a prefix when the string is extended. */
  lemma StartsWithExtend(s: string, p: string, t: string)
    requires StartsWith(s, p)
    ensures StartsWith(s + t, p)
  {
    assert (s + t)[..|p|] == s[..|p|];
  }

  predicate EndsWith(s: string, p: string) {
    |p| <= |s| && s[|s| - |p|..] == p
  }

  /** `a` occurs in `b` with its elements in the same order (not necessarily adjacent). */
  predicate Subseq<T(==)>(a: seq<T>, b: seq<T>)
    decreases |b|
  {
    if a == [] then true
    else if b == [] then false
    else if a[0] == b[0] then Subseq(a[1..], b[1..])
    else Subseq(a, b[1..])
  }

  /** `xs.filter(keep)`: the elements `keep` accepts, in order, each as often as in `xs`. */
  function Filter<T(==,!new)>(xs: seq<T>, keep: T -> bool): (r: seq<T>)
    ensures Subseq(r, xs)
    ensures forall x :: multiset(r)[x] == if keep(x) then multiset(xs)[x] else 0
    ensures forall x :: x in r <==> x in xs && keep(x)
  {
    if xs == [] then []
    else
      var rest := Filter(xs[1..], keep);
      assert rest != [] ==> rest[0] in rest;
      HeadTail(xs);
      if keep(xs[0]) then [xs[0]] + rest else rest
  }

  /** A non-empty sequence is its head followed by its tail, in count and in membership. */
  lemma HeadTail<T>(s: seq<T>)
    requires s != []
    ensures multiset(s) == multiset{s[0]} + multiset(s[1..])
    ensures forall x :: x in s <==> x == s[0] || x in s[1..]
  {
    assert s == [s[0]] + s[1..];
  }

  function DigitChar(d: nat): (c: char)
    requires d < 10
    ensures '0' <= c <= '9'
  {
    ('0' as int + d) as char
  }

  predicate IsDigits(s: string) {
    forall k :: 0 <= k < |s| ==> '0' <= s[k] <= '9'
  }

  /** The value of a string of decimal digits. */
  function DigitsValue(s: string): nat
    requires IsDigits(s)
  {
    if s == [] then 0
    else DigitsValue(s[..|s| - 1]) * 10 + (s[|s| - 1] as int - '0' as int)
  }

  /**
   * Decimal digits of a natural number, as `String(n)` prints it: no leading
   * zero except for the number 0 itself, which prints as `"0"`.
   */
  function NatToString(n: nat): (r: string)
    ensures |r| >= 1
    ensures IsDigits(r)
    ensures r[0] == '0' <==> n == 0
    ensures n == 0 ==> r == "0"
  {
    if n < 10 then [DigitChar(n)] else NatToString(n / 10) + [DigitChar(n % 10)]
  }

  /** Reading the printed digits back gives the number. */
  lemma {:induction false} NatToStringRoundTrip(n: nat)
    ensures DigitsValue(NatToString(n)) == n
  {
    if n >= 10 {
      NatToStringRoundTrip(n / 10);
      var r := NatToString(n);
      assert r[..|r| - 1] == NatToString(n / 10);
    }
  }

  /** Different numbers print differently. */
  lemma NatToStringInjective(m: nat, n: nat)
    ensures NatToString(m) == NatToString(n) ==> m == n
  {
    NatToStringRoundTrip(m);
    NatToStringRoundTrip(n);
  }

  /** `String(n)` for an integer `n`: a minus sign exactly for negative numbers. */
  function IntToString(n: int): (r: string)
    ensures |r| >= 1
    ensures r[0] == '-' <==> n < 0
  {
    if n < 0 then "-" + NatToString(-n)
    else
      var d := NatToString(n);
      assert d[0] in d;
      d
  }

  /** Different integers print differently. */
  lemma IntToStringInjective(m: int, n: int)
    ensures IntToString(m) == IntToString(n) ==> m == n
  {
    if IntToString(m) == IntToString(n) {
      if m < 0 {
        assert IntToString(m)[1..] == NatToString(-m) && IntToString(n)[1..] == NatToString(-n);
        NatToStringInjective(-m, -n);
      } else {
        NatToStringInjective(m, n);
      }
    }
  }
}

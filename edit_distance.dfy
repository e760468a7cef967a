/**
 * `levenshteinDistance` of the chat search: the edit distance of the two
 * lower-cased strings, computed row by row in one rolling `costs` array.
 */
module EditDistance {
  import opened Text

  function Min(x: int, y: int): int {
    if x <= y then x else y
  }

  function Max(x: int, y: int): int {
    if x <= y then y else x
  }

  function Min3(x: nat, y: nat, z: nat): nat {
    Min(Min(x, y), z)
  }

  /**
   * The distance between the first `i` characters of `a` and the first `j`
   * characters of `b`, by the recurrence the source's loop follows: equal last
   * characters cost nothing and take the diagonal; otherwise one edit is added
   * to the cheapest of substitution, deletion and insertion.
   */
  function D(a: string, b: string, i: nat, j: nat): nat
    requires i <= |a| && j <= |b|
    decreases i + j
  {
    if i == 0 then j
    else if j == 0 then i
    else if a[i - 1] == b[j - 1] then D(a, b, i - 1, j - 1)
    else Min3(D(a, b, i - 1, j - 1), D(a, b, i - 1, j), D(a, b, i, j - 1)) + 1
  }

  /** Substituting a character by itself is free; any other substitution costs one edit. */
  function SubstitutionCost(x: char, y: char): nat {
    if x == y then 0 else 1
  }

  /** The textbook Wagner-Fischer recurrence, where a matching diagonal competes with the other two moves. */
  function Classic(a: string, b: string, i: nat, j: nat): nat
    requires i <= |a| && j <= |b|
    decreases i + j
  {
    if i == 0 then j
    else if j == 0 then i
    else
      Min3(Classic(a, b, i - 1, j - 1) + SubstitutionCost(a[i - 1], b[j - 1]),
           Classic(a, b, i - 1, j) + 1,
           Classic(a, b, i, j - 1) + 1)
  }

  /**
   * `levenshteinDistance(s1, s2)`: both strings are lower-cased first. The
   * distance is at least the difference of the lengths, at most the larger
   * length, and 0 exactly when the strings agree up to case.
   */
  function Levenshtein(s1: string, s2: string): (r: nat)
    ensures |s1| - |s2| <= r && |s2| - |s1| <= r
    ensures r <= Max(|s1|, |s2|)
    ensures r == 0 <==> Lower(s1) == Lower(s2)
  {
    var a := Lower(s1);
    var b := Lower(s2);
    DistanceLowerBound(a, b, |a|, |b|);
    DistanceUpperBound(a, b, |a|, |b|);
    DistanceZeroIff(a, b, |a|, |b|);
    assert a[..|a|] == a && b[..|b|] == b;
    D(a, b, |a|, |b|)
  }

  /** One cell of the table from its three neighbours, as the loop body computes it. */
  lemma Cell(a: string, b: string, i: nat, j: nat, diagonal: int, up: int, left: int)
    requires 0 < i <= |a| && 0 < j <= |b|
    requires diagonal == D(a, b, i - 1, j - 1) && up == D(a, b, i - 1, j) && left == D(a, b, i, j - 1)
    ensures D(a, b, i, j) == if a[i - 1] != b[j - 1] then Min(Min(diagonal, left), up) + 1 else diagonal
  {
  }

  /** `levenshteinDistance`: lower-case both strings, then run the table loop. */
  method LevenshteinDistance(s1: string, s2: string) returns (d: int)
    ensures d == Levenshtein(s1, s2)
  {
    var a := Lower(s1);
    var b := Lower(s2);
    d := TableDistance(a, b);
  }

  /**
   * The source's loop: `costs` holds the previous row of the table, and is
   * overwritten cell by cell with the current row while `lastValue` carries
   * the cell to the left. The result is the recursive distance.
   */
  method TableDistance(a: string, b: string) returns (d: int)
    ensures d == D(a, b, |a|, |b|)
  {
    var n := |b|;
    var costs := new int[n + 1];
    var i := 0;
    while i <= |a|
      invariant 0 <= i <= |a| + 1
      invariant i > 0 ==> forall k {:trigger costs[k]} :: 0 <= k <= n ==> costs[k] == D(a, b, i - 1, k)
    {
      var lastValue := i;
      var j := 0;
      while j <= n
        invariant 0 <= j <= n + 1
        invariant i == 0 ==> forall k {:trigger costs[k]} :: 0 <= k < j ==> costs[k] == D(a, b, 0, k)
        invariant i > 0 && j == 0 ==> lastValue == D(a, b, i, 0)
        invariant i > 0 && j == 0 ==> forall k {:trigger costs[k]} :: 0 <= k <= n ==> costs[k] == D(a, b, i - 1, k)
        invariant i > 0 && j > 0 ==> lastValue == D(a, b, i, j - 1)
        invariant i > 0 && j > 0 ==> forall k {:trigger costs[k]} :: 0 <= k < j - 1 ==> costs[k] == D(a, b, i, k)
        invariant i > 0 && j > 0 ==> forall k {:trigger costs[k]} :: j - 1 <= k <= n ==> costs[k] == D(a, b, i - 1, k)
      {
        if i == 0 {
          costs[j] := j;
        } else if j > 0 {
          var newValue := costs[j - 1];
          Cell(a, b, i, j, costs[j - 1], costs[j], lastValue);
          if a[i - 1] != b[j - 1] {
            newValue := Min(Min(newValue, lastValue), costs[j]) + 1;
          }
          costs[j - 1] := lastValue;
          lastValue := newValue;
        }
        j := j + 1;
      }
      if i > 0 {
        costs[n] := lastValue;
      }
      i := i + 1;
    }
    d := costs[n];
  }

  /** A string is at distance zero from itself. */
  lemma {:induction false} DistanceToSelf(a: string, i: nat)
    requires i <= |a|
    ensures D(a, a, i, i) == 0
  {
    if i > 0 {
      DistanceToSelf(a, i - 1);
    }
  }

  /** The distance is symmetric. */
  lemma {:induction false} DistanceSymmetric(a: string, b: string, i: nat, j: nat)
    requires i <= |a| && j <= |b|
    ensures D(a, b, i, j) == D(b, a, j, i)
    decreases i + j
  {
    if i > 0 && j > 0 {
      DistanceSymmetric(a, b, i - 1, j - 1);
      DistanceSymmetric(a, b, i - 1, j);
      DistanceSymmetric(a, b, i, j - 1);
    }
  }

  /** The distance is at least the difference of the lengths. */
  lemma {:induction false} DistanceLowerBound(a: string, b: string, i: nat, j: nat)
    requires i <= |a| && j <= |b|
    ensures i - j <= D(a, b, i, j) && j - i <= D(a, b, i, j)
    decreases i + j
  {
    if i > 0 && j > 0 {
      DistanceLowerBound(a, b, i - 1, j - 1);
      if a[i - 1] != b[j - 1] {
        DistanceLowerBound(a, b, i - 1, j);
        DistanceLowerBound(a, b, i, j - 1);
      }
    }
  }

  /** The distance is at most the larger length. */
  lemma {:induction false} DistanceUpperBound(a: string, b: string, i: nat, j: nat)
    requires i <= |a| && j <= |b|
    ensures D(a, b, i, j) <= Max(i, j)
    decreases i + j
  {
    if i > 0 && j > 0 {
      DistanceUpperBound(a, b, i - 1, j - 1);
    }
  }

  /** The distance is zero exactly when the two prefixes are equal. */
  lemma {:induction false} DistanceZeroIff(a: string, b: string, i: nat, j: nat)
    requires i <= |a| && j <= |b|
    ensures D(a, b, i, j) == 0 <==> a[..i] == b[..j]
    decreases i + j
  {
    if i > 0 && j > 0 {
      DistanceZeroIff(a, b, i - 1, j - 1);
      assert a[..i] == a[..i - 1] + [a[i - 1]];
      assert b[..j] == b[..j - 1] + [b[j - 1]];
      if a[..i] == b[..j] {
        assert a[i - 1] == a[..i][i - 1];
        assert a[..i - 1] == a[..i][..i - 1];
      }
    } else if i > 0 {
      assert |a[..i]| != |b[..j]|;
    } else if j > 0 {
      assert |a[..i]| != |b[..j]|;
    }
  }

  /** Neighbouring cells of the table differ by at most one, in both directions. */
  lemma {:induction false} Adjacent(a: string, b: string, i: nat, j: nat)
    requires i <= |a| && j <= |b|
    ensures i > 0 ==> D(a, b, i, j) <= D(a, b, i - 1, j) + 1 && D(a, b, i - 1, j) <= D(a, b, i, j) + 1
    ensures j > 0 ==> D(a, b, i, j) <= D(a, b, i, j - 1) + 1 && D(a, b, i, j - 1) <= D(a, b, i, j) + 1
    decreases i + j
  {
    if i > 0 && j > 0 {
      Adjacent(a, b, i - 1, j);
      Adjacent(a, b, i, j - 1);
    }
  }

  lemma MinOfLeast(x: nat, y: nat, z: nat)
    requires x <= y && x <= z
    ensures Min3(x, y, z) == x
  {
  }

  lemma MinShift(x: nat, y: nat, z: nat)
    ensures Min3(x + 1, y + 1, z + 1) == Min3(x, y, z) + 1
  {
  }

  /** One cell: if the neighbours agree with the textbook recurrence, so does the cell. */
  lemma AgreeStep(a: string, b: string, i: nat, j: nat)
    requires 0 < i <= |a| && 0 < j <= |b|
    requires D(a, b, i - 1, j - 1) == Classic(a, b, i - 1, j - 1)
    requires D(a, b, i - 1, j) == Classic(a, b, i - 1, j)
    requires D(a, b, i, j - 1) == Classic(a, b, i, j - 1)
    ensures D(a, b, i, j) == Classic(a, b, i, j)
  {
    var x, y, z := D(a, b, i - 1, j - 1), D(a, b, i - 1, j), D(a, b, i, j - 1);
    if a[i - 1] == b[j - 1] {
      MatchingCell(a, b, i, j);
      assert Classic(a, b, i, j) == Min3(x, y + 1, z + 1);
    } else {
      MinShift(x, y, z);
    }
  }

  /** On equal last characters the diagonal is no worse than the other two moves. */
  lemma MatchingCell(a: string, b: string, i: nat, j: nat)
    requires 0 < i <= |a| && 0 < j <= |b| && a[i - 1] == b[j - 1]
    ensures Min3(D(a, b, i - 1, j - 1), D(a, b, i - 1, j) + 1, D(a, b, i, j - 1) + 1) == D(a, b, i - 1, j - 1)
  {
    DiagonalBelowUp(a, b, i, j);
    DiagonalBelowLeft(a, b, i, j);
    MinOfLeast(D(a, b, i - 1, j - 1), D(a, b, i - 1, j) + 1, D(a, b, i, j - 1) + 1);
  }

  lemma DiagonalBelowUp(a: string, b: string, i: nat, j: nat)
    requires 0 < i <= |a| && 0 < j <= |b|
    ensures D(a, b, i - 1, j - 1) <= D(a, b, i - 1, j) + 1
  {
    Adjacent(a, b, i - 1, j);
  }

  lemma DiagonalBelowLeft(a: string, b: string, i: nat, j: nat)
    requires 0 < i <= |a| && 0 < j <= |b|
    ensures D(a, b, i - 1, j - 1) <= D(a, b, i, j - 1) + 1
  {
    Adjacent(a, b, i, j - 1);
  }

  /** The source's recurrence computes the textbook edit distance. */
  lemma {:induction false} AgreesWithClassic(a: string, b: string, i: nat, j: nat)
    requires i <= |a| && j <= |b|
    ensures D(a, b, i, j) == Classic(a, b, i, j)
    decreases i + j
  {
    if i > 0 && j > 0 {
      AgreesWithClassic(a, b, i - 1, j - 1);
      AgreesWithClassic(a, b, i - 1, j);
      AgreesWithClassic(a, b, i, j - 1);
      AgreeStep(a, b, i, j);
    }
  }

  /** `levenshteinDistance` does not depend on the order of its arguments. */
  lemma LevenshteinSymmetric(s1: string, s2: string)
    ensures Levenshtein(s1, s2) == Levenshtein(s2, s1)
  {
    DistanceSymmetric(Lower(s1), Lower(s2), |s1|, |s2|);
  }
}

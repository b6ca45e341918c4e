/** The weighted edit distance the country search ranks by: deletion and
    substitution cost 1, insertion costs 0.01 in the last column of the table
    and 0.5 elsewhere. All costs are exact rationals, so `real` is exact here. */
module EditDistance {

  /** Cost of an insertion that fills column `j` of a table whose last column is `n`. */
  function InsertionCost(j: nat, n: nat): (c: real)
    ensures 0.01 <= c <= 0.5
    ensures c == 0.01 <==> j == n
    ensures j != n ==> c == 0.5
  {
    if j == n then 0.01 else 0.5
  }

  /** `Math.min` of three numbers. */
  function Min3(x: real, y: real, z: real): (m: real)
    ensures m <= x && m <= y && m <= z
    ensures m == x || m == y || m == z
  {
    if x <= y && x <= z then x else if y <= z then y else z
  }

  function Max(i: nat, j: nat): nat
  {
    if i <= j then j else i
  }

  /** Cell (i, j) of the distance table between `a` and `b`, exactly as the
      source fills it: row 0 and column 0 hold their index, and when the two
      characters agree the cell copies its diagonal neighbour without
      comparing it against the other two moves. */
  function Cell(a: string, b: string, i: nat, j: nat): (d: real)
    requires i <= |a| && j <= |b|
    ensures 0.0 <= d
    decreases i + j
  {
    if i == 0 then j as real
    else if j == 0 then i as real
    else if a[i - 1] == b[j - 1] then Cell(a, b, i - 1, j - 1)
    else
      Min3(Cell(a, b, i - 1, j) + 1.0,
           Cell(a, b, i - 1, j - 1) + 1.0,
           Cell(a, b, i, j - 1) + InsertionCost(j, |b|))
  }

  /** A cell never exceeds the longer of the two prefix lengths (substitute
      along the diagonal, then insert or delete the rest), and never undercuts
      the number of characters of `a` left over after matching all of `b`. */
  lemma {:induction false} CellBounds(a: string, b: string, i: nat, j: nat)
    requires i <= |a| && j <= |b|
    ensures Cell(a, b, i, j) <= Max(i, j) as real
    ensures (i - j) as real <= Cell(a, b, i, j)
    decreases i + j
  {
    if i > 0 && j > 0 {
      CellBounds(a, b, i - 1, j - 1);
      if a[i - 1] != b[j - 1] {
        CellBounds(a, b, i - 1, j);
        CellBounds(a, b, i, j - 1);
      }
    }
  }

  /** A cell is 0 exactly when the two prefixes it compares are equal. */
  lemma {:induction false} CellZeroIff(a: string, b: string, i: nat, j: nat)
    requires i <= |a| && j <= |b|
    ensures Cell(a, b, i, j) == 0.0 <==> a[..i] == b[..j]
    decreases i + j
  {
    if i == 0 || j == 0 {
    } else if a[i - 1] == b[j - 1] {
      CellZeroIff(a, b, i - 1, j - 1);
      assert a[..i] == a[..i - 1] + [a[i - 1]];
      assert b[..j] == b[..j - 1] + [b[j - 1]];
      if a[..i] == b[..j] {
        assert a[..i - 1] == a[..i][..i - 1];
        assert b[..j - 1] == b[..j][..j - 1];
      }
    }
  }

  /** `levenshteinDistance(a, b)`: the bottom-right cell of the table. */
  function Distance(a: string, b: string): (d: real)
    ensures 0.0 <= d <= Max(|a|, |b|) as real
    ensures d == 0.0 <==> a == b
    ensures |a| == 0 ==> d == |b| as real
    ensures |b| == 0 ==> d == |a| as real
  {
    CellZeroIff(a, b, |a|, |b|);
    CellBounds(a, b, |a|, |b|);
    assert a[..|a|] == a && b[..|b|] == b;
    Cell(a, b, |a|, |b|)
  }

  /** Equal strings are at distance 0. */
  lemma DistanceToSelf(s: string)
    ensures Distance(s, s) == 0.0
  {
  }

  /** The distance is not symmetric: adding a character to the end of the
      query's target costs 0.01, removing it costs 1. */
  lemma DistanceAsymmetric()
    ensures Distance("a", "ab") == 0.01
    ensures Distance("ab", "a") == 1.0
  {
    assert Cell("a", "ab", 1, 1) == 0.0;
    assert Cell("a", "ab", 0, 1) == 1.0;
    assert Cell("a", "ab", 0, 2) == 2.0;
    assert Cell("ab", "a", 1, 1) == 0.0;
    assert Cell("ab", "a", 2, 0) == 2.0;
  }

  /** The table-filling loops of the source, over a two-dimensional array. */
  method LevenshteinDistance(str1: string, str2: string) returns (r: real)
    ensures r == Distance(str1, str2)
  {
    var len1 := |str1|;
    var len2 := |str2|;
    var matrix := new real[len1 + 1, len2 + 1];
    for i := 0 to len1 + 1
      invariant forall p :: 0 <= p < i ==> matrix[p, 0] == p as real
    {
      matrix[i, 0] := i as real;
    }
    for j := 0 to len2 + 1
      invariant forall p :: 0 <= p <= len1 ==> matrix[p, 0] == p as real
      invariant forall q :: 0 <= q < j ==> matrix[0, q] == q as real
    {
      matrix[0, j] := j as real;
    }
    for i := 1 to len1 + 1
      invariant forall p, q {:trigger matrix[p, q]} :: 0 <= p < i && 0 <= q <= len2 ==> matrix[p, q] == Cell(str1, str2, p, q)
      invariant forall p :: i <= p <= len1 ==> matrix[p, 0] == p as real
    {
      FillRow(str1, str2, matrix, i);
    }
    r := matrix[len1, len2];
  }

  /** The inner loop of the source: fills row `i` from row `i - 1` and the
      first cell of row `i`, touching nothing outside row `i`. */
  method FillRow(str1: string, str2: string, matrix: array2<real>, i: nat)
    requires matrix.Length0 == |str1| + 1 && matrix.Length1 == |str2| + 1
    requires 1 <= i <= |str1|
    requires forall p, q {:trigger matrix[p, q]} :: 0 <= p < i && 0 <= q <= |str2| ==> matrix[p, q] == Cell(str1, str2, p, q)
    requires matrix[i, 0] == i as real
    modifies matrix
    ensures forall p, q {:trigger matrix[p, q]} :: 0 <= p <= i && 0 <= q <= |str2| ==> matrix[p, q] == Cell(str1, str2, p, q)
    ensures forall p, q :: 0 <= p < matrix.Length0 && p != i && 0 <= q < matrix.Length1 ==>
              matrix[p, q] == old(matrix[p, q])
  {
    var len2 := |str2|;
    for j := 1 to len2 + 1
      invariant forall q {:trigger matrix[i, q]} :: 0 <= q < j ==> matrix[i, q] == Cell(str1, str2, i, q)
      invariant forall p, q :: 0 <= p < matrix.Length0 && p != i && 0 <= q < matrix.Length1 ==>
                  matrix[p, q] == old(matrix[p, q])
    {
      assert matrix[i - 1, j - 1] == Cell(str1, str2, i - 1, j - 1);
      assert matrix[i - 1, j] == Cell(str1, str2, i - 1, j);
      assert matrix[i, j - 1] == Cell(str1, str2, i, j - 1);
      var value;
      if str1[i - 1] == str2[j - 1] {
        value := matrix[i - 1, j - 1];
      } else {
        var deletionCost := matrix[i - 1, j] + 1.0;
        var replacementCost := matrix[i - 1, j - 1] + 1.0;
        var insertionCost;
        if j == len2 {
          insertionCost := matrix[i, j - 1] + 0.01;
        } else {
          insertionCost := matrix[i, j - 1] + 0.5;
        }
        value := Min3(deletionCost, replacementCost, insertionCost);
      }
      assert value == Cell(str1, str2, i, j);
      matrix[i, j] := value;
    }
  }

  /** The standard weighted edit-distance recurrence with the same costs:
      the diagonal move is kept as one candidate of the minimum even when
      the characters agree. */
  function CorrectedCell(a: string, b: string, i: nat, j: nat): (d: real)
    requires i <= |a| && j <= |b|
    ensures 0.0 <= d
    ensures i != j ==> 0.01 <= d
    decreases i + j
  {
    if i == 0 then j as real
    else if j == 0 then i as real
    else
      Min3(CorrectedCell(a, b, i - 1, j) + 1.0,
           CorrectedCell(a, b, i - 1, j - 1) + (if a[i - 1] == b[j - 1] then 0.0 else 1.0),
           CorrectedCell(a, b, i, j - 1) + InsertionCost(j, |b|))
  }

  /** The corrected distance between `a` and `b`. */
  function CorrectedDistance(a: string, b: string): (d: real)
    ensures 0.0 <= d
    ensures |a| != |b| ==> 0.01 <= d
  {
    CorrectedCell(a, b, |a|, |b|)
  }

  /** Along the diagonal of two strings that agree up to `i`, the corrected cell is 0. */
  lemma {:induction false} CorrectedDiagonalZero(a: string, b: string, i: nat)
    requires i <= |a| && i <= |b| && a[..i] == b[..i]
    ensures CorrectedCell(a, b, i, i) == 0.0
  {
    if i > 0 {
      assert a[..i - 1] == a[..i][..i - 1] && b[..i - 1] == b[..i][..i - 1];
      assert a[i - 1] == a[..i][i - 1] && b[i - 1] == b[..i][i - 1];
      CorrectedDiagonalZero(a, b, i - 1);
    }
  }

  /** The corrected recurrence never scores worse than the source's. */
  lemma {:induction false} CorrectedNeverWorse(a: string, b: string, i: nat, j: nat)
    requires i <= |a| && j <= |b|
    ensures CorrectedCell(a, b, i, j) <= Cell(a, b, i, j)
    decreases i + j
  {
    if i > 0 && j > 0 {
      CorrectedNeverWorse(a, b, i - 1, j - 1);
      CorrectedNeverWorse(a, b, i - 1, j);
      CorrectedNeverWorse(a, b, i, j - 1);
      CorrectedNeverWorseStep(a, b, i, j);
    } else {
      assert CorrectedCell(a, b, i, j) == Cell(a, b, i, j);
    }
  }

  /** One step of the induction: if the three neighbouring cells are no
      worse, neither is this one. */
  lemma CorrectedNeverWorseStep(a: string, b: string, i: nat, j: nat)
    requires 0 < i <= |a| && 0 < j <= |b|
    requires CorrectedCell(a, b, i - 1, j - 1) <= Cell(a, b, i - 1, j - 1)
    requires CorrectedCell(a, b, i - 1, j) <= Cell(a, b, i - 1, j)
    requires CorrectedCell(a, b, i, j - 1) <= Cell(a, b, i, j - 1)
    ensures CorrectedCell(a, b, i, j) <= Cell(a, b, i, j)
  {
    if a[i - 1] != b[j - 1] {
      var ins := InsertionCost(j, |b|);
      Min3Monotone(CorrectedCell(a, b, i - 1, j) + 1.0, CorrectedCell(a, b, i - 1, j - 1) + 1.0, CorrectedCell(a, b, i, j - 1) + ins,
                   Cell(a, b, i - 1, j) + 1.0, Cell(a, b, i - 1, j - 1) + 1.0, Cell(a, b, i, j - 1) + ins);
    }
  }

  /** `Math.min` of three numbers is monotone in each of them. */
  lemma Min3Monotone(x1: real, x2: real, x3: real, y1: real, y2: real, y3: real)
    requires x1 <= y1 && x2 <= y2 && x3 <= y3
    ensures Min3(x1, x2, x3) <= Min3(y1, y2, y3)
  {
  }

  /** With the correction, appending any one character to a non-empty string
      costs exactly the last-column insertion. */
  lemma AppendCostsLastInsertion(s: string, c: char)
    requires |s| >= 1
    ensures CorrectedDistance(s, s + [c]) == 0.01
  {
    var b := s + [c];
    assert s[..|s|] == b[..|s|];
    CorrectedDiagonalZero(s, b, |s|);
  }

  /** As written, appending a character that repeats the last one is charged
      as a full edit, while appending a different one costs 0.01; the
      corrected recurrence charges 0.01 for both. */
  lemma AppendRepeatedCharacter()
    ensures Distance("a", "aa") == 1.0
    ensures Distance("a", "ab") == 0.01
    ensures CorrectedDistance("a", "aa") == 0.01
  {
    assert Cell("a", "aa", 0, 1) == 1.0;
    DistanceAsymmetric();
    AppendCostsLastInsertion("a", 'a');
    assert "a" + ['a'] == "aa";
  }
}

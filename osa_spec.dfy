/**
 * The optimal-string-alignment (restricted Damerau-Levenshtein) distance,
 * defined by its recurrence over prefix lengths, and the facts about it that
 * the dynamic-programming kernels rely on.
 */
module OsaSpec {

  function Min(x: nat, y: nat): (r: nat)
    ensures r <= x && r <= y && (r == x || r == y)
  {
    if x <= y then x else y
  }

  function Max(x: nat, y: nat): (r: nat)
    ensures r >= x && r >= y && (r == x || r == y)
  {
    if x >= y then x else y
  }

  function Diff(x: nat, y: nat): nat {
    if x >= y then x - y else y - x
  }

  /** Adjacent characters at the ends of a[..i] and b[..j] are swapped. */
  predicate Swapped(a: seq<char>, b: seq<char>, i: nat, j: nat)
    requires i <= |a| && j <= |b|
  {
    i >= 2 && j >= 2 && a[i - 1] == b[j - 2] && a[i - 2] == b[j - 1]
  }

  /**
   * Distance between a[..i] and b[..j]: the fewest insertions, deletions,
   * substitutions and adjacent transpositions, no substring edited twice.
   */
  function Table(a: seq<char>, b: seq<char>, i: nat, j: nat): nat
    requires i <= |a| && j <= |b|
    decreases i + j, 1
  {
    if i == 0 then j
    else if j == 0 then i
    else Step(a, b, i, j)
  }

  function Step(a: seq<char>, b: seq<char>, i: nat, j: nat): nat
    requires 1 <= i <= |a| && 1 <= j <= |b|
    decreases i + j, 0
  {
    Best(Table(a, b, i - 1, j - 1) + Cost(a[i - 1], b[j - 1]), Table(a, b, i - 1, j) + 1, Table(a, b, i, j - 1) + 1,
         Swapped(a, b, i, j), if i >= 2 && j >= 2 then Table(a, b, i - 2, j - 2) + 1 else 0)
  }

  /** Table under a name that is not recursive: proofs bring in the recurrence with Unfold. */
  function D(a: seq<char>, b: seq<char>, i: nat, j: nat): nat
    requires i <= |a| && j <= |b|
  {
    Table(a, b, i, j)
  }

  function Cost(x: char, y: char): nat {
    if x == y then 0 else 1
  }

  /** The cheapest of substitution, deletion, insertion and (when allowed) transposition. */
  function Best(sub: nat, del: nat, ins: nat, swapped: bool, trans: nat): nat {
    var m := Min(sub, Min(del, ins));
    if swapped then Min(m, trans) else m
  }

  /** Best is the least of its options, and it is one of them. */
  lemma BestOf(sub: nat, del: nat, ins: nat, swapped: bool, trans: nat)
    ensures var r := Best(sub, del, ins, swapped, trans);
            r <= sub && r <= del && r <= ins && (swapped ==> r <= trans) &&
            (r == sub || r == del || r == ins || (swapped && r == trans))
  {
  }

  /** Deletion and insertion play symmetric parts in Best. */
  lemma BestSymmetric(sub: nat, del: nat, ins: nat, swapped: bool, trans: nat)
    ensures Best(sub, del, ins, swapped, trans) == Best(sub, ins, del, swapped, trans)
  {
  }

  /** The bounds of the distance carry over from the options to their cheapest. */
  lemma BoundsStep(i: nat, j: nat, sub: nat, del: nat, ins: nat, swapped: bool, trans: nat, cost: nat)
    requires 1 <= i && 1 <= j && cost <= 1
    requires Diff(i - 1, j - 1) <= sub <= Max(i - 1, j - 1)
    requires Diff(i - 1, j) <= del <= Max(i - 1, j) && Diff(i, j - 1) <= ins <= Max(i, j - 1)
    requires swapped ==> i >= 2 && j >= 2 && Diff(i - 2, j - 2) <= trans <= Max(i - 2, j - 2)
    ensures var r := Best(sub + cost, del + 1, ins + 1, swapped, if i >= 2 && j >= 2 then trans + 1 else 0);
            Diff(i, j) <= r <= Max(i, j)
  {
  }

  function Osa(a: seq<char>, b: seq<char>): nat {
    D(a, b, |a|, |b|)
  }

  /** The recurrence, for a cell away from the first row and column. */
  lemma Unfold(a: seq<char>, b: seq<char>, i: nat, j: nat)
    requires 1 <= i <= |a| && 1 <= j <= |b|
    ensures D(a, b, i, j) == Best(D(a, b, i - 1, j - 1) + Cost(a[i - 1], b[j - 1]), D(a, b, i - 1, j) + 1,
                                  D(a, b, i, j - 1) + 1, Swapped(a, b, i, j),
                                  if i >= 2 && j >= 2 then D(a, b, i - 2, j - 2) + 1 else 0)
  {
    assert Table(a, b, i, j) == Step(a, b, i, j);
  }

  /** Each of the options of the recurrence bounds the distance from above, and one of them is the distance. */
  lemma Options(a: seq<char>, b: seq<char>, i: nat, j: nat)
    requires 1 <= i <= |a| && 1 <= j <= |b|
    ensures D(a, b, i, j) <= D(a, b, i - 1, j - 1) + (if a[i - 1] == b[j - 1] then 0 else 1)
    ensures D(a, b, i, j) <= D(a, b, i - 1, j) + 1
    ensures D(a, b, i, j) <= D(a, b, i, j - 1) + 1
    ensures Swapped(a, b, i, j) ==> D(a, b, i, j) <= D(a, b, i - 2, j - 2) + 1
    ensures D(a, b, i, j) == D(a, b, i - 1, j - 1) + (if a[i - 1] == b[j - 1] then 0 else 1) ||
            D(a, b, i, j) == D(a, b, i - 1, j) + 1 || D(a, b, i, j) == D(a, b, i, j - 1) + 1 ||
            (Swapped(a, b, i, j) && D(a, b, i, j) == D(a, b, i - 2, j - 2) + 1)
  {
    Unfold(a, b, i, j);
    BestOf(D(a, b, i - 1, j - 1) + Cost(a[i - 1], b[j - 1]), D(a, b, i - 1, j) + 1, D(a, b, i, j - 1) + 1,
           Swapped(a, b, i, j), if i >= 2 && j >= 2 then D(a, b, i - 2, j - 2) + 1 else 0);
  }

  /** The distance lies between the length difference and the longer length. */
  lemma {:induction false} Bounds(a: seq<char>, b: seq<char>, i: nat, j: nat)
    requires i <= |a| && j <= |b|
    ensures Diff(i, j) <= D(a, b, i, j) <= Max(i, j)
    decreases i + j
  {
    if i > 0 && j > 0 {
      Bounds(a, b, i - 1, j - 1);
      Bounds(a, b, i - 1, j);
      Bounds(a, b, i, j - 1);
      var trans := 0;
      if i >= 2 && j >= 2 {
        Bounds(a, b, i - 2, j - 2);
        trans := D(a, b, i - 2, j - 2);
      }
      Unfold(a, b, i, j);
      BoundsStep(i, j, D(a, b, i - 1, j - 1), D(a, b, i - 1, j), D(a, b, i, j - 1), Swapped(a, b, i, j), trans,
                 Cost(a[i - 1], b[j - 1]));
    }
  }

  /** Dropping the last character of either side changes the distance by at most one. */
  lemma {:induction false} Steps(a: seq<char>, b: seq<char>, i: nat, j: nat)
    requires i <= |a| && j <= |b|
    ensures i >= 1 ==> D(a, b, i - 1, j) <= D(a, b, i, j) + 1
    ensures j >= 1 ==> D(a, b, i, j - 1) <= D(a, b, i, j) + 1
    decreases i + j
  {
    if i == 0 || j == 0 {
      Bounds(a, b, i, j);
      if i >= 1 { Bounds(a, b, i - 1, j); }
      if j >= 1 { Bounds(a, b, i, j - 1); }
    } else {
      Steps(a, b, i - 1, j - 1);
      Steps(a, b, i - 1, j);
      Steps(a, b, i, j - 1);
      Options(a, b, i, j);
      if i >= 2 { Options(a, b, i - 1, j); }
      if j >= 2 { Options(a, b, i, j - 1); }
      if i == 1 { Bounds(a, b, 1, j); }
      if j == 1 { Bounds(a, b, i, 1); }
      if Swapped(a, b, i, j) {
        Options(a, b, i - 1, j - 1);
        if i >= 3 { Options(a, b, i - 2, j - 1); }
        if j >= 3 { Options(a, b, i - 1, j - 2); }
      }
    }
  }

  /** Equal last characters cost nothing: the distance is that of the shorter prefixes. */
  lemma Match(a: seq<char>, b: seq<char>, i: nat, j: nat)
    requires 1 <= i <= |a| && 1 <= j <= |b| && a[i - 1] == b[j - 1]
    ensures D(a, b, i, j) == D(a, b, i - 1, j - 1)
  {
    Options(a, b, i, j);
    Steps(a, b, i - 1, j);
    Steps(a, b, i, j - 1);
    if Swapped(a, b, i, j) {
      Options(a, b, i - 1, j - 1);
    }
  }

  /** The distance never decreases along a diagonal of the table. */
  lemma {:induction false} DiagonalMonotone(a: seq<char>, b: seq<char>, i: nat, j: nat)
    requires i + 1 <= |a| && j + 1 <= |b|
    ensures D(a, b, i, j) <= D(a, b, i + 1, j + 1)
    decreases i + j
  {
    if i == 0 || j == 0 {
      Bounds(a, b, i + 1, j + 1);
    } else {
      DiagonalMonotone(a, b, i - 1, j);
      DiagonalMonotone(a, b, i, j - 1);
      Options(a, b, i, j);
      Options(a, b, i + 1, j + 1);
    }
  }

  /** Extends DiagonalMonotone to any number of steps along the diagonal. */
  lemma {:induction false} DiagonalMonotoneFar(a: seq<char>, b: seq<char>, i: nat, j: nat, k: nat)
    requires i + k <= |a| && j + k <= |b|
    ensures D(a, b, i, j) <= D(a, b, i + k, j + k)
    decreases k
  {
    if k > 0 {
      DiagonalMonotoneFar(a, b, i, j, k - 1);
      DiagonalMonotone(a, b, i + k - 1, j + k - 1);
    }
  }

  /** The distance of two prefixes depends on those prefixes only. */
  lemma {:induction false} Extend(x: seq<char>, y: seq<char>, x': seq<char>, y': seq<char>, i: nat, j: nat)
    requires x <= x' && y <= y' && i <= |x| && j <= |y|
    ensures D(x', y', i, j) == D(x, y, i, j)
    decreases i + j
  {
    if i > 0 && j > 0 {
      Extend(x, y, x', y', i - 1, j - 1);
      Extend(x, y, x', y', i - 1, j);
      Extend(x, y, x', y', i, j - 1);
      if i >= 2 && j >= 2 {
        Extend(x, y, x', y', i - 2, j - 2);
      }
      ExtendStep(x, y, x', y', i, j);
    }
  }

  lemma ExtendStep(x: seq<char>, y: seq<char>, x': seq<char>, y': seq<char>, i: nat, j: nat)
    requires x <= x' && y <= y' && 1 <= i <= |x| && 1 <= j <= |y|
    requires D(x', y', i - 1, j - 1) == D(x, y, i - 1, j - 1)
    requires D(x', y', i - 1, j) == D(x, y, i - 1, j)
    requires D(x', y', i, j - 1) == D(x, y, i, j - 1)
    requires i >= 2 && j >= 2 ==> D(x', y', i - 2, j - 2) == D(x, y, i - 2, j - 2)
    ensures D(x', y', i, j) == D(x, y, i, j)
  {
    assert x'[i - 1] == x[i - 1] && y'[j - 1] == y[j - 1];
    assert i >= 2 ==> x'[i - 2] == x[i - 2];
    assert j >= 2 ==> y'[j - 2] == y[j - 2];
    assert Swapped(x', y', i, j) == Swapped(x, y, i, j);
    Unfold(x, y, i, j);
    Unfold(x', y', i, j);
  }

  /** The distance is symmetric. */
  lemma {:induction false} Symmetric(a: seq<char>, b: seq<char>, i: nat, j: nat)
    requires i <= |a| && j <= |b|
    ensures D(a, b, i, j) == D(b, a, j, i)
    decreases i + j
  {
    if i > 0 && j > 0 {
      Symmetric(a, b, i - 1, j - 1);
      Symmetric(a, b, i - 1, j);
      Symmetric(a, b, i, j - 1);
      if i >= 2 && j >= 2 {
        Symmetric(a, b, i - 2, j - 2);
      }
      SymmetricStep(a, b, i, j);
    }
  }

  lemma SymmetricStep(a: seq<char>, b: seq<char>, i: nat, j: nat)
    requires 1 <= i <= |a| && 1 <= j <= |b|
    requires D(a, b, i - 1, j - 1) == D(b, a, j - 1, i - 1)
    requires D(a, b, i - 1, j) == D(b, a, j, i - 1)
    requires D(a, b, i, j - 1) == D(b, a, j - 1, i)
    requires i >= 2 && j >= 2 ==> D(a, b, i - 2, j - 2) == D(b, a, j - 2, i - 2)
    ensures D(a, b, i, j) == D(b, a, j, i)
  {
    Unfold(a, b, i, j);
    Unfold(b, a, j, i);
    assert Cost(a[i - 1], b[j - 1]) == Cost(b[j - 1], a[i - 1]);
    assert Swapped(a, b, i, j) == Swapped(b, a, j, i);
    BestSymmetric(D(a, b, i - 1, j - 1) + Cost(a[i - 1], b[j - 1]), D(a, b, i - 1, j) + 1, D(a, b, i, j - 1) + 1,
                  Swapped(a, b, i, j), if i >= 2 && j >= 2 then D(a, b, i - 2, j - 2) + 1 else 0);
  }

  lemma OsaSymmetric(a: seq<char>, b: seq<char>)
    ensures Osa(a, b) == Osa(b, a)
  {
    Symmetric(a, b, |a|, |b|);
  }

  /** Against a single leading character that the other side shares, the distance is the other length minus one. */
  lemma {:induction false} FirstRow(x: seq<char>, y: seq<char>, j: nat)
    requires |x| >= 1 && j + 1 <= |y| && x[0] == y[0]
    ensures D(x, y, 1, j + 1) == j
    ensures D(y, x, j + 1, 1) == j
    decreases j
  {
    if j > 0 {
      FirstRow(x, y, j - 1);
    }
    Unfold(x, y, 1, j + 1);
    Symmetric(x, y, 1, j + 1);
  }

  /** A shared first character can be dropped from both sides. */
  lemma {:induction false} Shift(x: seq<char>, y: seq<char>, a: seq<char>, b: seq<char>, i: nat, j: nat)
    requires |x| == |a| + 1 && |y| == |b| + 1 && a == x[1..] && b == y[1..] && x[0] == y[0]
    requires i <= |a| && j <= |b|
    ensures D(x, y, i + 1, j + 1) == D(a, b, i, j)
    decreases i + j
  {
    if i == 0 {
      FirstRow(x, y, j);
    } else if j == 0 {
      FirstRow(y, x, i);
    } else {
      Shift(x, y, a, b, i - 1, j - 1);
      Shift(x, y, a, b, i - 1, j);
      Shift(x, y, a, b, i, j - 1);
      if i >= 2 && j >= 2 {
        Shift(x, y, a, b, i - 2, j - 2);
        ShiftInner(x, y, a, b, i, j);
      } else {
        ShiftEdge(x, y, a, b, i, j);
      }
    }
  }

  /** The inductive step of Shift away from the first row and column of the shorter table. */
  lemma ShiftInner(x: seq<char>, y: seq<char>, a: seq<char>, b: seq<char>, i: nat, j: nat)
    requires |x| == |a| + 1 && |y| == |b| + 1 && a == x[1..] && b == y[1..]
    requires 2 <= i <= |a| && 2 <= j <= |b|
    requires D(x, y, i, j) == D(a, b, i - 1, j - 1)
    requires D(x, y, i, j + 1) == D(a, b, i - 1, j)
    requires D(x, y, i + 1, j) == D(a, b, i, j - 1)
    requires D(x, y, i - 1, j - 1) == D(a, b, i - 2, j - 2)
    ensures D(x, y, i + 1, j + 1) == D(a, b, i, j)
  {
    assert x[i] == a[i - 1] && y[j] == b[j - 1];
    assert x[i - 1] == a[i - 2] && y[j - 1] == b[j - 2];
    assert Swapped(x, y, i + 1, j + 1) == Swapped(a, b, i, j);
    Unfold(x, y, i + 1, j + 1);
    Unfold(a, b, i, j);
  }

  /** The inductive step of Shift next to the first row or column, where only the longer table may transpose. */
  lemma ShiftEdge(x: seq<char>, y: seq<char>, a: seq<char>, b: seq<char>, i: nat, j: nat)
    requires |x| == |a| + 1 && |y| == |b| + 1 && a == x[1..] && b == y[1..]
    requires 1 <= i <= |a| && 1 <= j <= |b| && (i == 1 || j == 1)
    requires D(x, y, i, j) == D(a, b, i - 1, j - 1)
    requires D(x, y, i, j + 1) == D(a, b, i - 1, j)
    requires D(x, y, i + 1, j) == D(a, b, i, j - 1)
    ensures D(x, y, i + 1, j + 1) == D(a, b, i, j)
  {
    assert x[i] == a[i - 1] && y[j] == b[j - 1];
    Bounds(a, b, i, j);
    Bounds(x, y, i - 1, j - 1);
    Unfold(x, y, i + 1, j + 1);
    Unfold(a, b, i, j);
  }

  lemma StripLast(x: seq<char>, y: seq<char>, c: char)
    ensures Osa(x + [c], y + [c]) == Osa(x, y)
  {
    var x', y' := x + [c], y + [c];
    Match(x', y', |x'|, |y'|);
    Extend(x, y, x', y', |x|, |y|);
  }

  lemma StripFirst(c: char, x: seq<char>, y: seq<char>)
    ensures Osa([c] + x, [c] + y) == Osa(x, y)
  {
    var x', y' := [c] + x, [c] + y;
    assert x'[1..] == x && y'[1..] == y;
    Shift(x', y', x, y, |x|, |y|);
  }

  /** A common prefix and a common suffix do not change the distance. */
  lemma {:induction false} StripCommon(p: seq<char>, x: seq<char>, y: seq<char>, s: seq<char>)
    ensures Osa(p + x + s, p + y + s) == Osa(x, y)
    decreases |p| + |s|
  {
    if |s| > 0 {
      var s' := s[..|s| - 1];
      assert p + x + s == (p + x + s') + [s[|s| - 1]];
      assert p + y + s == (p + y + s') + [s[|s| - 1]];
      StripLast(p + x + s', p + y + s', s[|s| - 1]);
      StripCommon(p, x, y, s');
    } else if |p| > 0 {
      assert p + x + s == [p[0]] + (p[1..] + x + s);
      assert p + y + s == [p[0]] + (p[1..] + y + s);
      StripFirst(p[0], p[1..] + x + s, p[1..] + y + s);
      StripCommon(p[1..], x, y, s);
    } else {
      assert p + x + s == x && p + y + s == y;
    }
  }

  /** StripCommon, for a prefix and a suffix given by positions in the two strings. */
  lemma StripCommonSlices(x: seq<char>, y: seq<char>, start: nat, end1: nat, end2: nat)
    requires start <= end1 <= |x| && start <= end2 <= |y|
    requires x[..start] == y[..start] && x[end1..] == y[end2..]
    ensures Osa(x, y) == Osa(x[start..end1], y[start..end2])
  {
    var p, s := x[..start], x[end1..];
    assert x == p + x[start..end1] + s;
    assert y == p + y[start..end2] + s;
    StripCommon(p, x[start..end1], y[start..end2], s);
  }

  /** Two non-empty prefixes whose first characters differ are at distance at least one. */
  lemma {:induction false} FirstDiffers(a: seq<char>, b: seq<char>, i: nat, j: nat)
    requires 1 <= i <= |a| && 1 <= j <= |b| && a[0] != b[0]
    ensures D(a, b, i, j) >= 1
    decreases i + j
  {
    if i >= 2 { FirstDiffers(a, b, i - 1, j); } else { Bounds(a, b, i - 1, j); }
    if j >= 2 { FirstDiffers(a, b, i, j - 1); } else { Bounds(a, b, i, j - 1); }
    if i >= 2 && j >= 2 { FirstDiffers(a, b, i - 1, j - 1); }
    if i == 1 && j >= 2 { Bounds(a, b, 0, j - 1); }
    if j == 1 && i >= 2 { Bounds(a, b, i - 1, 0); }
    if Swapped(a, b, i, j) && i >= 3 && j >= 3 { FirstDiffers(a, b, i - 2, j - 2); }
    if Swapped(a, b, i, j) && (i == 2 || j == 2) { Bounds(a, b, i - 2, j - 2); }
    Options(a, b, i, j);
  }

  /** The distance is zero exactly when the strings are equal. */
  lemma {:induction false} ZeroIffEqual(a: seq<char>, b: seq<char>)
    ensures Osa(a, b) == 0 <==> a == b
    decreases |a| + |b|
  {
    if a == b {
      if |a| > 0 {
        ZeroIffEqual(a[1..], b[1..]);
        StripFirst(a[0], a[1..], b[1..]);
        assert [a[0]] + a[1..] == a;
      }
    } else if |a| == 0 || |b| == 0 {
      Bounds(a, b, |a|, |b|);
    } else if a[0] != b[0] {
      FirstDiffers(a, b, |a|, |b|);
    } else {
      assert a[1..] != b[1..] by {
        assert a == [a[0]] + a[1..] && b == [b[0]] + b[1..];
      }
      ZeroIffEqual(a[1..], b[1..]);
      StripFirst(a[0], a[1..], b[1..]);
      assert [a[0]] + a[1..] == a && [a[0]] + b[1..] == b;
    }
  }

  /** Distance to a one-character string: one edit fewer than |a| exactly when that character occurs in a. */
  lemma {:induction false} SingleColumn(a: seq<char>, c: char, i: nat)
    requires 1 <= i <= |a|
    ensures D(a, [c], i, 1) == if c in a[..i] then i - 1 else i
  {
    Unfold(a, [c], i, 1);
    if i > 1 {
      SingleColumn(a, c, i - 1);
      assert a[..i] == a[..i - 1] + [a[i - 1]];
    }
  }

  lemma OsaSingle(a: seq<char>, c: char)
    requires |a| >= 1
    ensures Osa(a, [c]) == if c in a then |a| - 1 else |a|
  {
    SingleColumn(a, c, |a|);
    assert a[..|a|] == a;
  }
}

/**
 * The optimal-string-alignment distance computed by dynamic programming over
 * two reusable cost rows, with and without an upper bound on the distance.
 */
module DamerauOSA {
  import opened Wrappers
  import opened OsaSpec
  import Helpers

  /** The largest value of a C++ `int`. */
  const INT_MAX: int := 0x7FFF_FFFF

  /** A bound given as a wider number, as the kernels take it: at most INT_MAX. */
  function Clamped(maxDistance: int): int {
    if maxDistance <= INT_MAX then maxDistance else INT_MAX
  }

  /**
   * The value both kernels store in a cell, from the characters compared and
   * the diagonal, upper, left and transposition neighbours: the diagonal when
   * the characters agree, otherwise one more than the cheapest neighbour,
   * improved by a transposition when the swapped characters match.
   */
  function CellCost(char1: char, char2: char, prevChar1: char, prevChar2: char, transAllowed: bool,
                    diag: int, above: int, left: int, trans: int): int
  {
    if char1 == char2 then diag
    else WithTransposition(MinPlusOne(diag, above, left), transAllowed && char1 == prevChar2 && prevChar1 == char2, trans)
  }

  /** One more than the cheapest of the diagonal, upper and left neighbours, found as the kernels do. */
  function MinPlusOne(diag: int, above: int, left: int): int {
    var m := if above < diag then above else diag;
    (if left < m then left else m) + 1
  }

  /** A transposition replaces the cost when it applies and is cheaper. */
  function WithTransposition(cost: int, applies: bool, trans: int): int {
    if applies && trans + 1 < cost then trans + 1 else cost
  }

  /** Fed the true neighbours, CellCost yields the true distance of the cell. */
  lemma CellExact(a: seq<char>, b: seq<char>, i: nat, j: nat, prevChar1: char, prevChar2: char, above: int, trans: int)
    requires i < |a| && j < |b|
    requires i >= 1 ==> prevChar1 == a[i - 1]
    requires j >= 1 ==> prevChar2 == b[j - 1]
    requires above == (if j == 0 then i else D(a, b, i + 1, j))
    requires i >= 1 && j >= 1 ==> trans == D(a, b, i - 1, j - 1)
    ensures D(a, b, i + 1, j + 1) ==
            CellCost(a[i], b[j], prevChar1, prevChar2, i != 0 && j != 0, D(a, b, i, j), above, D(a, b, i, j + 1), trans)
  {
    if a[i] == b[j] {
      Match(a, b, i + 1, j + 1);
    } else {
      Unfold(a, b, i + 1, j + 1);
    }
  }

  /** How far cell (r, s) lies from the diagonal that ends in the last cell of the table. */
  function Gap(a: seq<char>, b: seq<char>, r: nat, s: nat): nat
    requires r <= |a| && s <= |b|
  {
    var d := (|b| - s) - (|a| - r);
    if d >= 0 then d else -d
  }

  /**
   * What the banded kernel keeps in a cell: the exact distance whenever the
   * distance plus the gap to the final diagonal is within maxDistance (so
   * the cell can still lie on a path within the bound), and otherwise a value
   * that, plus the gap, exceeds maxDistance; never a negative value.
   */
  ghost predicate Good(a: seq<char>, b: seq<char>, maxDistance: int, r: nat, s: nat, v: int)
    requires r <= |a| && s <= |b|
  {
    GoodValue(D(a, b, r, s), Gap(a, b, r, s), maxDistance, v)
  }

  /** Good, for a cell at distance d and gap g. */
  predicate GoodValue(d: int, g: int, maxDistance: int, v: int) {
    v >= 0 && if d + g <= maxDistance then v == d else v + g > maxDistance
  }

  /** The first column the banded kernel computes in row r + 1 of the table. */
  function BandStart(a: seq<char>, b: seq<char>, maxDistance: int, r: int): int {
    var jStartOffset := maxDistance - (|b| - |a|);
    if r > jStartOffset then r - jStartOffset else 0
  }

  /** The last column the banded kernel computes in row r of the table (r >= 1), or initialises in row 0. */
  function BandEnd(a: seq<char>, b: seq<char>, maxDistance: int, r: int): int {
    if maxDistance + r < |b| then maxDistance + r else |b|
  }

  /**
   * The value the banded kernel holds for cell (r, s) of the table once row r
   * is done: the initial row 1, 2, .., maxDistance; inside the band the cost
   * computed from the neighbours the kernel reads; maxDistance + 1 right of
   * the band.  Cells left of the band keep whatever an earlier row left in
   * the buffer; the kernel never reads them again and this function gives
   * them the value r.
   */
  function BandValue(a: seq<char>, b: seq<char>, maxDistance: int, r: nat, s: nat): int
    requires r <= |a| && s <= |b|
    decreases r, s, 1
  {
    if s > BandEnd(a, b, maxDistance, r) then maxDistance + 1
    else if r == 0 then s
    else if s <= BandStart(a, b, maxDistance, r - 1) then r
    else BandCell(a, b, maxDistance, r, s)
  }

  /** BandValue of a cell inside the band of row r >= 1: CellCost of the neighbours the kernel reads. */
  function BandCell(a: seq<char>, b: seq<char>, maxDistance: int, r: nat, s: nat): int
    requires 1 <= r <= |a| && s <= |b| && BandStart(a, b, maxDistance, r - 1) < s
    decreases r, s, 0
  {
    var i, j := r - 1, s - 1;
    var edge := j == BandStart(a, b, maxDistance, i);
    CellCost(a[i], b[j], if i == 0 then ' ' else a[i - 1], if edge then ' ' else b[j - 1], i != 0 && j != 0,
             if edge then i else BandValue(a, b, maxDistance, i, j),
             if edge then i else BandValue(a, b, maxDistance, r, s - 1),
             BandValue(a, b, maxDistance, i, s),
             if edge || i == 0 then 0
             else if j - 1 == BandStart(a, b, maxDistance, i - 1) then i - 1
             else BandValue(a, b, maxDistance, i - 1, j - 1))
  }

  /**
   * BandValue under a name that is not recursive: the kernels' invariants use
   * Band, and the recurrence is brought in only where BandUnfold is called.
   */
  function Band(a: seq<char>, b: seq<char>, maxDistance: int, r: nat, s: nat): int
    requires r <= |a| && s <= |b|
  {
    BandValue(a, b, maxDistance, r, s)
  }

  /**
   * The value the kernel moves from column j of row r into the previous-row
   * buffer while it computes row r + 1: the diagonal neighbour of the next
   * cell, which is r itself in the first column of the band.
   */
  function Diagonal(a: seq<char>, b: seq<char>, maxDistance: int, r: nat, j: nat): int
    requires r <= |a| && j <= |b|
  {
    if j == BandStart(a, b, maxDistance, r) then r else Band(a, b, maxDistance, r, j)
  }

  /** The recurrence of a cell inside the band of row r >= 1. */
  lemma BandUnfold(a: seq<char>, b: seq<char>, maxDistance: int, r: nat, s: nat)
    requires 1 <= r <= |a| && s <= |b|
    requires BandStart(a, b, maxDistance, r - 1) < s <= BandEnd(a, b, maxDistance, r)
    ensures var i, j := r - 1, s - 1;
            var edge := j == BandStart(a, b, maxDistance, i);
            Band(a, b, maxDistance, r, s) ==
            CellCost(a[i], b[j], if i == 0 then ' ' else a[i - 1], if edge then ' ' else b[j - 1], i != 0 && j != 0,
                     Diagonal(a, b, maxDistance, i, j),
                     if edge then i else Band(a, b, maxDistance, r, s - 1),
                     Band(a, b, maxDistance, i, s),
                     if edge || i == 0 then 0 else Diagonal(a, b, maxDistance, i - 1, j - 1))
  {
    assert Band(a, b, maxDistance, r, s) == BandCell(a, b, maxDistance, r, s);
  }

  /**
   * A cell the kernel computes inside the band of row i + 1 from the values
   * it holds for the neighbours gets the value BandValue gives it.
   */
  lemma BandStep(a: seq<char>, b: seq<char>, maxDistance: int, i: nat, j: nat, prevChar1: char, prevChar2: char,
                 diag: int, above: int, left: int, trans: int)
    requires i < |a| && j < |b| && BandStart(a, b, maxDistance, i) <= j < BandEnd(a, b, maxDistance, i + 1)
    requires prevChar1 == if i == 0 then ' ' else a[i - 1]
    requires diag == Diagonal(a, b, maxDistance, i, j) && left == Band(a, b, maxDistance, i, j + 1)
    requires j == BandStart(a, b, maxDistance, i) ==> above == i && trans == 0 && prevChar2 == ' '
    requires j > BandStart(a, b, maxDistance, i) ==>
      above == Band(a, b, maxDistance, i + 1, j) && prevChar2 == b[j - 1] && (i >= 1 ==> trans == Diagonal(a, b, maxDistance, i - 1, j - 1))
    ensures CellCost(a[i], b[j], prevChar1, prevChar2, i != 0 && j != 0, diag, above, left, trans) ==
            Band(a, b, maxDistance, i + 1, j + 1)
  {
    BandUnfold(a, b, maxDistance, i + 1, j + 1);
  }

  /** Right of the band every row holds maxDistance + 1, and row 0 holds the initial costs. */
  lemma BandOutside(a: seq<char>, b: seq<char>, maxDistance: int, r: nat, s: nat)
    requires r <= |a| && s <= |b|
    ensures s > BandEnd(a, b, maxDistance, r) ==> Band(a, b, maxDistance, r, s) == maxDistance + 1
    ensures r == 0 && s <= BandEnd(a, b, maxDistance, r) ==> Band(a, b, maxDistance, r, s) == s
  {
  }

  /** The value the kernel takes for the cell left of the band, `i`, is a Good value. */
  lemma LeftEdgeGood(a: seq<char>, b: seq<char>, maxDistance: int, i: nat)
    requires 1 <= |a| <= |b| && a[0] != b[0] && |b| - |a| <= maxDistance
    requires i < |a| && BandStart(a, b, maxDistance, i) <= |b|
    ensures Good(a, b, maxDistance, i, BandStart(a, b, maxDistance, i), i)
  {
    var jS := BandStart(a, b, maxDistance, i);
    if jS > 0 {
      FirstDiffers(a, b, i, jS);
    }
  }

  /** Columns to the right of the band hold maxDistance + 1, which is Good there. */
  lemma FarRightGood(a: seq<char>, b: seq<char>, maxDistance: int, r: nat, s: nat, v: int)
    requires r <= |a| && s <= |b| && s >= r + maxDistance + 1 && v >= maxDistance + 1 >= 1
    ensures Good(a, b, maxDistance, r, s, v)
  {
    Bounds(a, b, r, s);
  }

  /**
   * A cell of the band computed from Good neighbours is Good.  In the first
   * column of the band the kernel substitutes `i` for the cells diagonally
   * before and above, and 0 (with a blank character) for the transposition
   * source.
   */
  lemma BandCellGood(a: seq<char>, b: seq<char>, maxDistance: int, i: nat, j: nat, prevChar1: char, prevChar2: char,
                     diag: int, above: int, left: int, trans: int)
    requires 1 <= |a| <= |b| && a[0] != b[0] && |b| - |a| <= maxDistance
    requires i < |a| && j < |b| && BandStart(a, b, maxDistance, i) <= j <= maxDistance + i
    requires Good(a, b, maxDistance, i, j, diag) && Good(a, b, maxDistance, i, j + 1, left)
    requires j == BandStart(a, b, maxDistance, i) ==> diag == i && above == i && trans == 0 && prevChar2 == ' '
    requires j > BandStart(a, b, maxDistance, i) ==>
      Good(a, b, maxDistance, i + 1, j, above) && prevChar2 == b[j - 1] && (i >= 1 ==> Good(a, b, maxDistance, i - 1, j - 1, trans))
    requires i >= 1 ==> prevChar1 == a[i - 1]
    ensures Good(a, b, maxDistance, i + 1, j + 1,
                 CellCost(a[i], b[j], prevChar1, prevChar2, i != 0 && j != 0, diag, above, left, trans))
  {
    if a[i] == b[j] {
      Match(a, b, i + 1, j + 1);
    } else if j == BandStart(a, b, maxDistance, i) {
      BandEdgeGood(a, b, maxDistance, i, j, prevChar1, left);
    } else {
      BandInnerGood(a, b, maxDistance, i, j, prevChar1, diag, above, left, trans);
    }
  }

  /** BandCellGood for a first column of the band, between different characters. */
  lemma BandEdgeGood(a: seq<char>, b: seq<char>, maxDistance: int, i: nat, j: nat, prevChar1: char, left: int)
    requires 1 <= |a| <= |b| && a[0] != b[0] && |b| - |a| <= maxDistance
    requires i < |a| && j < |b| && j == BandStart(a, b, maxDistance, i) && a[i] != b[j]
    requires Good(a, b, maxDistance, i, j, i) && Good(a, b, maxDistance, i, j + 1, left)
    ensures Good(a, b, maxDistance, i + 1, j + 1, CellCost(a[i], b[j], prevChar1, ' ', i != 0 && j != 0, i, i, left, 0))
  {
    if j > 0 {
      FirstDiffers(a, b, i + 1, j + 1);
    } else {
      Unfold(a, b, i + 1, j + 1);
    }
  }

  /**
   * The arithmetic of a cell between different characters: from Good values
   * of the neighbours, one more than the cheapest of them (or the
   * transposition) is a Good value for the cell.  dc and gc are the cell's
   * distance and gap, d1..d4 and g1..g4 those of the diagonal, upper, left and
   * transposition neighbours; the cell's distance is one more than one of
   * theirs and at most one more than each.
   */
  lemma CheapestNeighbour(maxDistance: int, dc: int, gc: int, d1: int, g1: int, diag: int, d2: int, g2: int, above: int,
                          d3: int, g3: int, left: int, swapped: bool, d4: int, g4: int, trans: int)
    requires gc >= 0 && GoodValue(d1, g1, maxDistance, diag) && GoodValue(d2, g2, maxDistance, above)
    requires GoodValue(d3, g3, maxDistance, left) && (swapped ==> GoodValue(d4, g4, maxDistance, trans))
    requires dc <= d1 + 1 && dc <= d2 + 1 && dc <= d3 + 1 && (swapped ==> dc <= d4 + 1)
    requires dc == d1 + 1 || dc == d2 + 1 || dc == d3 + 1 || (swapped && dc == d4 + 1)
    requires g1 <= gc + 1 && g2 <= gc + 1 && g3 <= gc + 1 && g4 <= gc + 1
    ensures GoodValue(dc, gc, maxDistance, WithTransposition(MinPlusOne(diag, above, left), swapped, trans))
  {
  }

  /** BandCellGood inside the band, between different characters. */
  lemma BandInnerGood(a: seq<char>, b: seq<char>, maxDistance: int, i: nat, j: nat, prevChar1: char,
                      diag: int, above: int, left: int, trans: int)
    requires 1 <= |a| <= |b| && |b| - |a| <= maxDistance
    requires i < |a| && 1 <= j < |b| && a[i] != b[j]
    requires Good(a, b, maxDistance, i, j, diag) && Good(a, b, maxDistance, i, j + 1, left)
    requires Good(a, b, maxDistance, i + 1, j, above)
    requires i >= 1 ==> prevChar1 == a[i - 1] && Good(a, b, maxDistance, i - 1, j - 1, trans)
    ensures Good(a, b, maxDistance, i + 1, j + 1,
                 CellCost(a[i], b[j], prevChar1, b[j - 1], i != 0 && j != 0, diag, above, left, trans))
  {
    Options(a, b, i + 1, j + 1);
    var swapped := Swapped(a, b, i + 1, j + 1);
    assert swapped == (i != 0 && j != 0 && a[i] == b[j - 1] && prevChar1 == b[j]);
    var d4, g4 := if i >= 1 then D(a, b, i - 1, j - 1) else 0, if i >= 1 then Gap(a, b, i - 1, j - 1) else 0;
    CheapestNeighbour(maxDistance, D(a, b, i + 1, j + 1), Gap(a, b, i + 1, j + 1), D(a, b, i, j), Gap(a, b, i, j), diag,
                      D(a, b, i + 1, j), Gap(a, b, i + 1, j), above, D(a, b, i, j + 1), Gap(a, b, i, j + 1), left,
                      swapped, d4, g4, trans);
  }

  /** Every value the banded kernel holds inside the band (or in the initial row) is Good. */
  lemma {:induction false} BandGood(a: seq<char>, b: seq<char>, maxDistance: int, r: nat, s: nat)
    requires 1 <= |a| <= |b| && a[0] != b[0] && |b| - |a| <= maxDistance
    requires r <= |a| && s <= BandEnd(a, b, maxDistance, r)
    requires r >= 1 ==> BandStart(a, b, maxDistance, r - 1) < s
    ensures Good(a, b, maxDistance, r, s, Band(a, b, maxDistance, r, s))
    decreases r, s
  {
    if r == 0 {
      BandOutside(a, b, maxDistance, r, s);
      return;
    }
    var i, j := r - 1, s - 1;
    var edge := j == BandStart(a, b, maxDistance, i);
    if edge {
      LeftEdgeGood(a, b, maxDistance, i);
    } else {
      BandGood(a, b, maxDistance, i, j);
      BandGood(a, b, maxDistance, r, s - 1);
      if i >= 1 {
        if j - 1 == BandStart(a, b, maxDistance, i - 1) {
          LeftEdgeGood(a, b, maxDistance, i - 1);
        } else {
          BandGood(a, b, maxDistance, i - 1, j - 1);
        }
      }
    }
    if s <= BandEnd(a, b, maxDistance, i) {
      BandGood(a, b, maxDistance, i, s);
    } else {
      BandOutside(a, b, maxDistance, i, s);
      FarRightGood(a, b, maxDistance, i, s, maxDistance + 1);
    }
    BandGoodStep(a, b, maxDistance, i, j);
  }

  /** The step of BandGood: a band cell whose neighbours hold Good values gets a Good value. */
  lemma BandGoodStep(a: seq<char>, b: seq<char>, maxDistance: int, i: nat, j: nat)
    requires 1 <= |a| <= |b| && a[0] != b[0] && |b| - |a| <= maxDistance
    requires i < |a| && j < |b| && BandStart(a, b, maxDistance, i) <= j < BandEnd(a, b, maxDistance, i + 1)
    requires Good(a, b, maxDistance, i, j, Diagonal(a, b, maxDistance, i, j))
    requires Good(a, b, maxDistance, i, j + 1, Band(a, b, maxDistance, i, j + 1))
    requires j > BandStart(a, b, maxDistance, i) ==> Good(a, b, maxDistance, i + 1, j, Band(a, b, maxDistance, i + 1, j))
    requires j > BandStart(a, b, maxDistance, i) && i >= 1 ==>
      Good(a, b, maxDistance, i - 1, j - 1, Diagonal(a, b, maxDistance, i - 1, j - 1))
    ensures Good(a, b, maxDistance, i + 1, j + 1, Band(a, b, maxDistance, i + 1, j + 1))
  {
    var edge := j == BandStart(a, b, maxDistance, i);
    var prevChar1, prevChar2 := if i == 0 then ' ' else a[i - 1], if edge then ' ' else b[j - 1];
    var diag, above, left := Diagonal(a, b, maxDistance, i, j), if edge then i else Band(a, b, maxDistance, i + 1, j),
                             Band(a, b, maxDistance, i, j + 1);
    var trans := if edge || i == 0 then 0 else Diagonal(a, b, maxDistance, i - 1, j - 1);
    BandStep(a, b, maxDistance, i, j, prevChar1, prevChar2, diag, above, left, trans);
    BandCellGood(a, b, maxDistance, i, j, prevChar1, prevChar2, diag, above, left, trans);
  }

  /**
   * The value in the last cell of the band decides the bounded distance: it
   * is the distance when that is within maxDistance and exceeds maxDistance
   * otherwise.
   */
  lemma BandVerdict(a: seq<char>, b: seq<char>, maxDistance: int)
    requires 1 <= |a| <= |b| && a[0] != b[0] && |b| - |a| <= maxDistance
    ensures var v := Band(a, b, maxDistance, |a|, |b|);
            if Osa(a, b) <= maxDistance then v == Osa(a, b) else v > maxDistance
  {
    BandGood(a, b, maxDistance, |a|, |b|);
  }

  /**
   * A value beyond maxDistance on the diagonal that ends in the last cell
   * means the distance exceeds maxDistance: the kernel may stop there.
   */
  lemma BandEarlyExit(a: seq<char>, b: seq<char>, maxDistance: int, r: nat)
    requires 1 <= |a| <= |b| && a[0] != b[0] && |b| - |a| <= maxDistance
    requires 1 <= r <= |a| && Band(a, b, maxDistance, r, r + |b| - |a|) > maxDistance
    ensures Osa(a, b) > maxDistance
  {
    BandGood(a, b, maxDistance, r, r + |b| - |a|);
    DiagonalMonotoneFar(a, b, r, r + |b| - |a|, |a| - r);
  }

  class DamerauOsa {
    var baseChar1Costs: array<int>
    var basePrevChar1Costs: array<int>

    /** The two cost rows are distinct buffers of the same size. */
    ghost predicate Valid()
      reads this
    {
      baseChar1Costs != basePrevChar1Costs && baseChar1Costs.Length == basePrevChar1Costs.Length
    }

    /** An object with empty buffers; the first distance computed sizes them. */
    constructor ()
      ensures Valid() && fresh(baseChar1Costs) && fresh(basePrevChar1Costs)
      ensures baseChar1Costs.Length == 0
    {
      baseChar1Costs := new int[0];
      basePrevChar1Costs := new int[0];
    }

    /**
     * An object whose buffers hold expectedMaxstringLength cells; a length
     * that is not positive is rejected.
     */
    static method WithCapacity(expectedMaxstringLength: int) returns (r: Result<DamerauOsa>)
      ensures r.Failure? <==> expectedMaxstringLength <= 0
      ensures r.Success? ==> fresh(r.value) && fresh(r.value.baseChar1Costs) && fresh(r.value.basePrevChar1Costs)
      ensures r.Success? ==> r.value.Valid() && r.value.baseChar1Costs.Length == expectedMaxstringLength
    {
      if expectedMaxstringLength <= 0 {
        return Failure(InvalidArgument("expectedMaxstringLength must be larger than 0"));
      }
      var osa := new DamerauOsa();
      osa.baseChar1Costs := new int[expectedMaxstringLength](_ => 0);
      osa.basePrevChar1Costs := new int[expectedMaxstringLength](_ => 0);
      return Success(osa);
    }

    /** Replaces both buffers by zeroed ones of size n when they are smaller. */
    method Reserve(n: int)
      requires Valid()
      modifies this
      ensures Valid() && n <= baseChar1Costs.Length
      ensures n <= old(baseChar1Costs.Length) ==> baseChar1Costs == old(baseChar1Costs) && basePrevChar1Costs == old(basePrevChar1Costs)
      ensures n > old(baseChar1Costs.Length) ==> fresh(baseChar1Costs) && fresh(basePrevChar1Costs) && baseChar1Costs.Length == n
    {
      if n > baseChar1Costs.Length {
        baseChar1Costs := new int[n](_ => 0);
        basePrevChar1Costs := new int[n](_ => 0);
      }
    }

    /** The distance between string1 and string2, without bound. */
    method Distance(string1: string, string2: string) returns (r: int)
      requires Valid()
      modifies this, baseChar1Costs, basePrevChar1Costs
      ensures Valid()
      ensures baseChar1Costs == old(baseChar1Costs) || fresh(baseChar1Costs)
      ensures basePrevChar1Costs == old(basePrevChar1Costs) || fresh(basePrevChar1Costs)
      ensures r == Osa(string1, string2)
    {
      if string1 == [] {
        return |string2|;
      }
      if string2 == [] {
        return |string1|;
      }
      OsaSymmetric(string1, string2);
      var str1, str2 := if |string1| > |string2| then string2 else string1, if |string1| > |string2| then string1 else string2;
      var len1, len2, start := Helpers.PrefixSuffixPrep(str1, str2);
      if len1 == 0 {
        return len2;
      }
      Reserve(len2);
      r := DistanceKernel(str1, str2, len1, len2, start, baseChar1Costs, basePrevChar1Costs);
    }

    /**
     * The distance between string1 and string2 when it is at most
     * maxDistance, and -1 otherwise; equal strings are at distance 0 whatever
     * the bound.  A bound above INT_MAX counts as INT_MAX, except when a
     * string is empty.
     */
    method DistanceBounded(string1: string, string2: string, maxDistance: int) returns (r: int)
      requires Valid()
      modifies this, baseChar1Costs, basePrevChar1Costs
      ensures Valid()
      ensures baseChar1Costs == old(baseChar1Costs) || fresh(baseChar1Costs)
      ensures basePrevChar1Costs == old(basePrevChar1Costs) || fresh(basePrevChar1Costs)
      ensures string1 == string2 ==> r == 0
      ensures string1 != string2 ==>
        var limit := if string1 == [] || string2 == [] then maxDistance else Clamped(maxDistance);
        r == if Osa(string1, string2) <= limit then Osa(string1, string2) else -1
    {
      ZeroIffEqual(string1, string2);
      if string1 == [] || string2 == [] {
        return Helpers.NullDistanceResults(string1, string2, maxDistance);
      }
      if maxDistance <= 0 {
        return if string1 == string2 then 0 else -1;
      }
      var iMaxDistance := if maxDistance <= INT_MAX then maxDistance else INT_MAX;
      OsaSymmetric(string1, string2);
      var str1, str2 := if |string1| > |string2| then string2 else string1, if |string1| > |string2| then string1 else string2;
      if |str2| - |str1| > iMaxDistance {
        Bounds(str1, str2, |str1|, |str2|);
        return -1;
      }
      var len1, len2, start := Helpers.PrefixSuffixPrep(str1, str2);
      if len1 == 0 {
        return if len2 <= iMaxDistance then len2 else -1;
      }
      Reserve(len2);
      if iMaxDistance < len2 {
        r := BandedDistanceKernel(str1, str2, len1, len2, start, iMaxDistance, baseChar1Costs, basePrevChar1Costs);
      } else {
        r := DistanceKernel(str1, str2, len1, len2, start, baseChar1Costs, basePrevChar1Costs);
        Bounds(str1[start..start + len1], str2[start..start + len2], len1, len2);
      }
    }

    /**
     * The cost of one cell, as both kernels compute it from the characters
     * compared and the diagonal, upper, left and transposition neighbours.
     */
    static method Cell(char1: char, char2: char, prevChar1: char, prevChar2: char, transAllowed: bool,
                       diag: int, aboveCharCost: int, leftCharCost: int, thisTransCost: int)
      returns (currentCost: int)
      ensures currentCost == CellCost(char1, char2, prevChar1, prevChar2, transAllowed,
                                      diag, aboveCharCost, leftCharCost, thisTransCost)
    {
      currentCost := diag;
      if char1 != char2 {
        if aboveCharCost < currentCost { currentCost := aboveCharCost; }
        if leftCharCost < currentCost { currentCost := leftCharCost; }
        currentCost := currentCost + 1;
        if transAllowed && char1 == prevChar2 && prevChar1 == char2 && thisTransCost + 1 < currentCost {
          currentCost := thisTransCost + 1;
        }
      }
    }

    /**
     * The unbounded kernel: the distance between string1[start..start + len1]
     * and string2[start..start + len2], using char1Costs and prevChar1Costs
     * as the current and the previous row of the table.
     */
    static method DistanceKernel(string1: string, string2: string, len1: int, len2: int, start: int,
                                 char1Costs: array<int>, prevChar1Costs: array<int>) returns (r: int)
      requires 0 <= start && 1 <= len1 && 1 <= len2
      requires start + len1 <= |string1| && start + len2 <= |string2|
      requires len2 <= char1Costs.Length && len2 <= prevChar1Costs.Length && char1Costs != prevChar1Costs
      modifies char1Costs, prevChar1Costs
      ensures r == Osa(string1[start..start + len1], string2[start..start + len2])
    {
      ghost var a, b := string1[start..start + len1], string2[start..start + len2];
      var k := 0;
      while k < char1Costs.Length
        invariant 0 <= k <= char1Costs.Length
        invariant forall m :: 0 <= m < k ==> char1Costs[m] == m + 1
      {
        char1Costs[k] := k + 1;
        k := k + 1;
      }
      var char1 := ' ';
      var currentCost := 0;
      var i := 0;
      while i < len1
        invariant 0 <= i <= len1
        invariant forall m :: 0 <= m < len2 ==> char1Costs[m] == D(a, b, i, m + 1)
        invariant i >= 1 ==> forall m :: 0 <= m < len2 ==> prevChar1Costs[m] == D(a, b, i - 1, m)
        invariant i >= 1 ==> char1 == a[i - 1] && currentCost == D(a, b, i, len2)
      {
        var prevChar1 := char1;
        char1 := string1[start + i];
        currentCost := Row(string1, string2, len1, len2, start, char1Costs, prevChar1Costs, i, char1, prevChar1);
        i := i + 1;
      }
      return currentCost;
    }

    /** One row of the unbounded kernel: row i + 1 of the table from row i (and row i - 1 for transpositions). */
    static method Row(string1: string, string2: string, len1: int, len2: int, start: int,
                      char1Costs: array<int>, prevChar1Costs: array<int>, i: int, char1: char, prevChar1: char)
      returns (currentCost: int)
      requires 0 <= start && 0 <= i < len1 && 1 <= len2
      requires start + len1 <= |string1| && start + len2 <= |string2|
      requires len2 <= char1Costs.Length && len2 <= prevChar1Costs.Length && char1Costs != prevChar1Costs
      requires char1 == string1[start + i] && (i >= 1 ==> prevChar1 == string1[start + i - 1])
      requires forall m :: 0 <= m < len2 ==>
        char1Costs[m] == D(string1[start..start + len1], string2[start..start + len2], i, m + 1)
      requires i >= 1 ==> forall m :: 0 <= m < len2 ==>
        prevChar1Costs[m] == D(string1[start..start + len1], string2[start..start + len2], i - 1, m)
      modifies char1Costs, prevChar1Costs
      ensures forall m :: 0 <= m < len2 ==>
        char1Costs[m] == D(string1[start..start + len1], string2[start..start + len2], i + 1, m + 1)
      ensures forall m :: 0 <= m < len2 ==>
        prevChar1Costs[m] == D(string1[start..start + len1], string2[start..start + len2], i, m)
      ensures currentCost == D(string1[start..start + len1], string2[start..start + len2], i + 1, len2)
    {
      ghost var a, b := string1[start..start + len1], string2[start..start + len2];
      var char2 := ' ';
      var leftCharCost, aboveCharCost := i, i;
      var nextTransCost := 0;
      currentCost := 0;
      var j := 0;
      while j < len2
        invariant 0 <= j <= len2
        invariant forall m :: 0 <= m < j ==> char1Costs[m] == D(a, b, i + 1, m + 1)
        invariant forall m :: j <= m < len2 ==> char1Costs[m] == D(a, b, i, m + 1)
        invariant forall m :: 0 <= m < j ==> prevChar1Costs[m] == D(a, b, i, m)
        invariant i >= 1 ==> forall m :: j <= m < len2 ==> prevChar1Costs[m] == D(a, b, i - 1, m)
        invariant leftCharCost == D(a, b, i, j)
        invariant aboveCharCost == (if j == 0 then i else D(a, b, i + 1, j))
        invariant j >= 1 ==> currentCost == D(a, b, i + 1, j)
        invariant j >= 1 && i >= 1 ==> nextTransCost == D(a, b, i - 1, j - 1)
        invariant j >= 1 ==> char2 == b[j - 1]
      {
        var thisTransCost := nextTransCost;
        nextTransCost := prevChar1Costs[j];
        ghost var diag, above := leftCharCost, aboveCharCost;
        currentCost := leftCharCost;
        prevChar1Costs[j] := currentCost;
        leftCharCost := char1Costs[j];
        var prevChar2 := char2;
        char2 := string2[start + j];
        currentCost := Cell(char1, char2, prevChar1, prevChar2, i != 0 && j != 0,
                            currentCost, aboveCharCost, leftCharCost, thisTransCost);
        CellExact(a, b, i, j, prevChar1, prevChar2, above, thisTransCost);
        char1Costs[j] := currentCost;
        aboveCharCost := currentCost;
        j := j + 1;
      }
    }

    /**
     * The banded kernel: the distance between string1[start..start + len1]
     * and string2[start..start + len2] when it is at most maxDistance, and -1
     * otherwise.  Only the cells that can lie on a path within the bound are
     * computed, and the computation stops as soon as the diagonal that ends in
     * the last cell exceeds the bound.
     */
    static method BandedDistanceKernel(string1: string, string2: string, len1: int, len2: int, start: int,
                                       maxDistance: int, char1Costs: array<int>, prevChar1Costs: array<int>)
      returns (r: int)
      requires 0 <= start && 1 <= len1 <= len2 && len2 - len1 <= maxDistance < len2
      requires start + len1 <= |string1| && start + len2 <= |string2|
      requires string1[start] != string2[start]
      requires len2 <= char1Costs.Length && len2 <= prevChar1Costs.Length && char1Costs != prevChar1Costs
      modifies char1Costs, prevChar1Costs
      ensures var d := Osa(string1[start..start + len1], string2[start..start + len2]);
              r == if d <= maxDistance then d else -1
    {
      ghost var a, b := string1[start..start + len1], string2[start..start + len2];
      InitialRow(char1Costs, maxDistance);
      forall m | 0 <= m < len2
        ensures char1Costs[m] == Band(a, b, maxDistance, 0, m + 1)
      {
        BandOutside(a, b, maxDistance, 0, m + 1);
      }
      var lenDiff := len2 - len1;
      var jStartOffset := maxDistance - lenDiff;
      var jStart := 0;
      var jEnd := maxDistance;
      var char1 := ' ';
      var currentCost := 0;
      var i := 0;
      while i < len1
        invariant 0 <= i <= len1
        invariant jStart == BandStart(a, b, maxDistance, i - 1) && jEnd == BandEnd(a, b, maxDistance, i)
        invariant forall m :: jStart <= m < len2 ==> char1Costs[m] == Band(a, b, maxDistance, i, m + 1)
        invariant i >= 1 ==> forall m :: jStart <= m < jEnd ==> prevChar1Costs[m] == Diagonal(a, b, maxDistance, i - 1, m)
        invariant char1 == if i == 0 then ' ' else a[i - 1]
        invariant i >= 1 ==> currentCost == Band(a, b, maxDistance, i, jEnd)
      {
        var prevChar1 := char1;
        char1 := string1[start + i];
        jStart := jStart + if i > jStartOffset then 1 else 0;
        jEnd := jEnd + if jEnd < len2 then 1 else 0;
        currentCost := BandedRow(string1, string2, len1, len2, start, maxDistance, char1Costs, prevChar1Costs,
                                 i, jStart, jEnd, char1, prevChar1);
        if char1Costs[i + lenDiff] > maxDistance {
          BandEarlyExit(a, b, maxDistance, i + 1);
          return -1;
        }
        i := i + 1;
      }
      BandVerdict(a, b, maxDistance);
      return if currentCost <= maxDistance then currentCost else -1;
    }

    /** Fills the row buffer with 1, 2, .., maxDistance followed by maxDistance + 1 in every other place. */
    static method InitialRow(char1Costs: array<int>, maxDistance: int)
      requires 0 <= maxDistance <= char1Costs.Length
      modifies char1Costs
      ensures forall m :: 0 <= m < char1Costs.Length ==>
        char1Costs[m] == if m < maxDistance then m + 1 else maxDistance + 1
    {
      var k := 0;
      while k < maxDistance
        invariant 0 <= k <= maxDistance
        invariant forall m :: 0 <= m < k ==> char1Costs[m] == m + 1
      {
        char1Costs[k] := k + 1;
        k := k + 1;
      }
      while k < char1Costs.Length
        invariant maxDistance <= k <= char1Costs.Length
        invariant forall m :: 0 <= m < maxDistance ==> char1Costs[m] == m + 1
        invariant forall m :: maxDistance <= m < k ==> char1Costs[m] == maxDistance + 1
      {
        char1Costs[k] := maxDistance + 1;
        k := k + 1;
      }
    }

    /** One row of the banded kernel: the band of row i + 1 of the table from rows i and i - 1. */
    static method BandedRow(string1: string, string2: string, len1: int, len2: int, start: int, maxDistance: int,
                            char1Costs: array<int>, prevChar1Costs: array<int>,
                            i: int, jStart: int, jEnd: int, char1: char, prevChar1: char)
      returns (currentCost: int)
      requires 0 <= start && 1 <= len1 <= len2 && len2 - len1 <= maxDistance < len2
      requires start + len1 <= |string1| && start + len2 <= |string2|
      requires len2 <= char1Costs.Length && len2 <= prevChar1Costs.Length && char1Costs != prevChar1Costs
      requires 0 <= i < len1 && char1 == string1[start + i] && prevChar1 == if i == 0 then ' ' else string1[start + i - 1]
      requires jStart == BandStart(string1[start..start + len1], string2[start..start + len2], maxDistance, i)
      requires jEnd == BandEnd(string1[start..start + len1], string2[start..start + len2], maxDistance, i + 1)
      requires forall m :: jStart <= m < len2 ==>
        char1Costs[m] == Band(string1[start..start + len1], string2[start..start + len2], maxDistance, i, m + 1)
      requires i >= 1 ==> forall m :: jStart <= m < jEnd - 1 ==>
        prevChar1Costs[m] == Diagonal(string1[start..start + len1], string2[start..start + len2], maxDistance, i - 1, m)
      modifies char1Costs, prevChar1Costs
      ensures forall m :: jStart <= m < len2 ==>
        char1Costs[m] == Band(string1[start..start + len1], string2[start..start + len2], maxDistance, i + 1, m + 1)
      ensures forall m :: jStart <= m < jEnd ==>
        prevChar1Costs[m] == Diagonal(string1[start..start + len1], string2[start..start + len2], maxDistance, i, m)
      ensures currentCost == Band(string1[start..start + len1], string2[start..start + len2], maxDistance, i + 1, jEnd)
    {
      ghost var a, b := string1[start..start + len1], string2[start..start + len2];
      var char2 := ' ';
      var leftCharCost, aboveCharCost := i, i;
      var nextTransCost := 0;
      currentCost := 0;
      var j := jStart;
      while j < jEnd
        invariant jStart <= j <= jEnd
        invariant forall m :: jStart <= m < j ==> char1Costs[m] == Band(a, b, maxDistance, i + 1, m + 1)
        invariant forall m :: j <= m < len2 ==> char1Costs[m] == Band(a, b, maxDistance, i, m + 1)
        invariant forall m :: jStart <= m < j ==> prevChar1Costs[m] == Diagonal(a, b, maxDistance, i, m)
        invariant i >= 1 ==> forall m :: j <= m < jEnd - 1 ==> prevChar1Costs[m] == Diagonal(a, b, maxDistance, i - 1, m)
        invariant leftCharCost == Diagonal(a, b, maxDistance, i, j)
        invariant aboveCharCost == if j == jStart then i else Band(a, b, maxDistance, i + 1, j)
        invariant j > jStart ==> currentCost == aboveCharCost && char2 == b[j - 1]
        invariant j == jStart ==> char2 == ' ' && nextTransCost == 0
        invariant jStart < j < jEnd && i >= 1 ==> nextTransCost == Diagonal(a, b, maxDistance, i - 1, j - 1)
      {
        var thisTransCost := nextTransCost;
        nextTransCost := prevChar1Costs[j];
        ghost var diag, above := leftCharCost, aboveCharCost;
        currentCost := leftCharCost;
        prevChar1Costs[j] := currentCost;
        leftCharCost := char1Costs[j];
        var prevChar2 := char2;
        char2 := string2[start + j];
        currentCost := Cell(char1, char2, prevChar1, prevChar2, i != 0 && j != 0,
                            currentCost, aboveCharCost, leftCharCost, thisTransCost);
        BandStep(a, b, maxDistance, i, j, prevChar1, prevChar2, diag, above, leftCharCost, thisTransCost);
        char1Costs[j] := currentCost;
        aboveCharCost := currentCost;
        j := j + 1;
      }
      forall s | jEnd < s <= len2
        ensures Band(a, b, maxDistance, i, s) == Band(a, b, maxDistance, i + 1, s)
      {
        BandOutside(a, b, maxDistance, i, s);
        BandOutside(a, b, maxDistance, i + 1, s);
      }
    }
  }
}

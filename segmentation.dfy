/**
 * The structure of WordSegmentation and of the final assembly of
 * LookupCompound. Both rank their candidates with floating-point scores
 * (log10 probabilities, products of count ratios); here the scores are
 * exact reals, log10 is a parameter, and the single-term lookups they make
 * are given as the function `lookupTop`: the result of Lookup with
 * verbosity Top for a term.
 */
module Segmentation {
  import opened Wrappers
  import opened Chars
  import opened LibraryTypes
  import opened SuggestItems
  import Helpers
  import Trim

  /** SymSpell::N, the word count of the corpus the frequencies come from. */
  const N: int := 1024908267229

  /** The right single quotation mark as the narrow build stores it: three UTF-8 bytes. */
  const RightQuote: string := ['\U{00E2}', '\U{0080}', '\U{0099}']

  // ---------------------------------------------------------------------
  // Whitespace
  // ---------------------------------------------------------------------

  /** s without any whitespace character: what a segmentation keeps of its input. */
  function Strip(s: string): (r: string)
    ensures |r| <= |s|
    ensures forall c :: c in r ==> !IsSpace(c)
  {
    if s == [] then [] else (if IsSpace(s[0]) then [] else [s[0]]) + Strip(s[1..])
  }

  lemma {:induction false} StripAppend(a: string, b: string)
    ensures Strip(a + b) == Strip(a) + Strip(b)
  {
    if a == [] {
      assert a + b == b;
    } else {
      assert (a + b)[1..] == a[1..] + b;
      StripAppend(a[1..], b);
    }
  }

  /** std::remove of ' ': every space character erased, the rest in order. */
  function RemoveBlanks(s: string): (r: string)
    ensures |r| <= |s| && ' ' !in r
  {
    if s == [] then [] else (if s[0] == ' ' then [] else [s[0]]) + RemoveBlanks(s[1..])
  }

  /** Erasing the spaces loses nothing a segmentation keeps. */
  lemma {:induction false} StripRemoveBlanks(s: string)
    ensures Strip(RemoveBlanks(s)) == Strip(s)
  {
    if s != [] {
      var head := if s[0] == ' ' then [] else [s[0]];
      StripAppend(head, RemoveBlanks(s[1..]));
      StripRemoveBlanks(s[1..]);
    }
  }

  /** s starts with p: the test rfind(p, 0) == 0. */
  predicate StartsWith(s: string, p: string) {
    |p| <= |s| && s[..|p|] == p
  }

  // ---------------------------------------------------------------------
  // WordSegmentation
  // ---------------------------------------------------------------------

  /**
   * One candidate word of WordSegmentation: the part of the input it
   * covers, its correction, whether a space separates it from the words
   * before, its edit distance and its log10 probability.
   */
  datatype Candidate = Candidate(part: string, topResult: string, separatorLength: int, topEd: int,
                                 topProbabilityLog: real)

  function Pow10(n: nat): (r: real)
    ensures r >= 1.0
  {
    if n == 0 then 1.0 else 10.0 * Pow10(n - 1)
  }

  /**
   * The candidate for the i characters of input at j: a leading whitespace
   * character is dropped (and then no separator is needed), the spaces are
   * erased and counted as edits, and the lower-cased part is looked up; a
   * part without suggestion stands for itself, with its length as distance
   * and the probability of an unknown word of that length.
   */
  function Probe(input: string, j: nat, i: nat, lookupTop: string -> seq<SuggestItem>, log10: real -> real)
    : (c: Candidate)
    requires 1 <= i && j + i <= |input|
    ensures Strip(c.part) == Strip(input[j..j + i])
    ensures c.separatorLength == (if IsSpace(input[j]) then 0 else 1)
  {
    var raw := input[j..j + i];
    var trimmed := if IsSpace(raw[0]) then raw[1..] else raw;
    var part := RemoveBlanks(trimmed);
    var removed := |trimmed| - |part|;
    var results := lookupTop(Helpers.Lowered(part));
    // part[0] of an empty std::string is the terminating '\0'
    var first := if part != [] then part[0] else '\0';
    assert Strip(raw) == Strip(trimmed) by {
      if IsSpace(raw[0]) {
        assert raw == [raw[0]] + trimmed;
        StripAppend([raw[0]], trimmed);
      }
    }
    StripRemoveBlanks(trimmed);
    var separatorLength := if IsSpace(raw[0]) then 0 else 1;
    if results != [] then
      var term := results[0].term;
      var top := if IsUpper(first) && term != [] then [ToUpper(term[0])] + term[1..] else term;
      Candidate(part, top, separatorLength, removed + results[0].distance,
                log10(results[0].count as real / N as real))
    else
      Candidate(part, part, separatorLength, removed + |part|, log10(10.0 / (N as real * Pow10(|part|))))
  }

  /** Keep punctuation or an apostrophe adjacent to the previous word. */
  predicate Adjacent(topResult: string) {
    (|topResult| == 1 && IsPunct(topResult[0])) || (|topResult| == 2 && StartsWith(topResult, RightQuote))
  }

  /** The quote test compares a two-character word with a three-byte prefix, so it never holds. */
  lemma AdjacentOnlyPunctuation(topResult: string)
    ensures Adjacent(topResult) <==> |topResult| == 1 && IsPunct(topResult[0])
  {
  }

  /** The slot k places after slot circ in a circular buffer of the given size, for 0 <= circ + k < 2 * size. */
  function Slot(circ: int, k: int, size: int): int {
    if circ + k < size then circ + k else circ + k - size
  }

  /** (i + circularIndex) % arraySize, for a sum below twice the size: one wrap at most. */
  lemma ModSlot(circ: int, k: int, size: int)
    requires 0 <= circ + k < 2 * size
    ensures (k + circ) % size == Slot(circ, k, size)
  {
    if circ + k >= size {
      assert k + circ == 1 * size + (circ + k - size);
    }
  }

  /** The combination of the best segmentation of the first j characters and a candidate for the next ones. */
  lemma JoinCovers(input: string, j: nat, i: nat, seg: string, sep: string, part: string)
    requires j + i <= |input|
    requires Strip(seg) == Strip(input[..j]) && Strip(part) == Strip(input[j..j + i]) && Strip(sep) == []
    ensures Strip(seg + sep + part) == Strip(input[..j + i])
  {
    StripJoin(seg, sep, part);
    StripPrefixes(input, j, i);
  }

  /** A separator without visible characters vanishes between two words. */
  lemma StripJoin(seg: string, sep: string, part: string)
    requires Strip(sep) == []
    ensures Strip(seg + sep + part) == Strip(seg) + Strip(part)
  {
    StripAppend(seg, sep);
    assert Strip(seg + sep) == Strip(seg) + [];
    StripAppend(seg + sep, part);
  }

  /** The prefix of length j + i is the prefix of length j followed by the i characters at j. */
  lemma StripPrefixes(input: string, j: nat, i: nat)
    requires j + i <= |input|
    ensures Strip(input[..j + i]) == Strip(input[..j]) + Strip(input[j..j + i])
  {
    assert input[..j + i] == input[..j] + input[j..j + i];
    StripAppend(input[..j], input[j..j + i]);
  }

  /** An element of the compositions vector: the value an Info holds. */
  datatype Composition = Composition(segmented: string, corrected: string, distanceSum: int, probabilityLogSum: real)

  /**
   * The next value of a slot: the candidate appended to the composition at
   * the circular index when it is better than what the slot holds (or
   * when the word has the maximum length and the slot is the circular one),
   * the slot unchanged otherwise.
   */
  function Combine(circular: Composition, destination: Composition, c: Candidate, atMaximum: bool)
    : (r: Composition)
    ensures r == destination || exists sep :: Strip(sep) == [] && r.segmented == circular.segmented + sep + c.part
    ensures atMaximum ==> exists sep :: Strip(sep) == [] && r.segmented == circular.segmented + sep + c.part
  {
    if atMaximum ||
       ((circular.distanceSum + c.topEd == destination.distanceSum ||
         circular.distanceSum + c.separatorLength + c.topEd == destination.distanceSum) &&
        destination.probabilityLogSum < circular.probabilityLogSum + c.topProbabilityLog) ||
       circular.distanceSum + c.separatorLength + c.topEd < destination.distanceSum
    then
      if Adjacent(c.topResult) then
        assert circular.segmented + [] + c.part == circular.segmented + c.part;
        Composition(circular.segmented + c.part, circular.corrected + c.topResult,
                    circular.distanceSum + c.topEd, circular.probabilityLogSum + c.topProbabilityLog)
      else
        assert Strip(" ") == [];
        Composition(circular.segmented + " " + c.part, circular.corrected + " " + c.topResult,
                    circular.distanceSum + c.separatorLength + c.topEd,
                    circular.probabilityLogSum + c.topProbabilityLog)
    else destination
  }

  /** slot is a segmentation of the first len characters of input. */
  ghost predicate Covers(input: string, slot: Composition, len: int) {
    0 <= len <= |input| && Strip(slot.segmented) == Strip(input[..len])
  }

  /** Each slot is a segmentation of the input prefix whose length lens records for it. */
  ghost predicate AllCover(input: string, slots: seq<Composition>, lens: seq<int>) {
    |slots| == |lens| && forall s :: 0 <= s < |slots| ==> Covers(input, slots[s], lens[s])
  }

  /** Before the first step: slot k - 1 holds the prefix of length k, for the k below i. */
  ghost predicate FirstWindow(lens: seq<int>, i: int) {
    forall k :: 1 <= k < i && k <= |lens| ==> lens[Slot(-1, k, |lens|)] == k
  }

  /**
   * At step j: the slot k places after circ holds the prefix of length j + k,
   * for every such prefix of the input (except the one of length j when
   * the circular slot has been overwritten).
   */
  ghost predicate Window(lens: seq<int>, circ: int, j: int, n: int, overwritten: bool) {
    0 <= circ < |lens| &&
    forall k :: 0 <= k < |lens| && j + k <= n && !(overwritten && k == 0) ==> lens[Slot(circ, k, |lens|)] == j + k
  }

  /** Replacing one slot by a segmentation of some prefix keeps every slot a segmentation. */
  lemma CoverUpdate(input: string, slots: seq<Composition>, lens: seq<int>, d: int, next: Composition, len: int)
    requires AllCover(input, slots, lens) && 0 <= d < |slots| && Covers(input, next, len)
    ensures AllCover(input, slots[d := next], lens[d := len])
  {
  }

  /**
   * The combination of a segmentation of the first j characters with a
   * candidate for the next i is a segmentation of the first j + i, whenever
   * it replaces the slot or the word has the maximum length.
   */
  lemma CombineCovers(input: string, j: nat, i: nat, circular: Composition, destination: Composition,
                      c: Candidate, atMaximum: bool)
    requires j + i <= |input| && Covers(input, circular, j) && Strip(c.part) == Strip(input[j..j + i])
    ensures var r := Combine(circular, destination, c, atMaximum);
            (r == destination && !atMaximum) || Covers(input, r, j + i)
  {
    var r := Combine(circular, destination, c, atMaximum);
    if r != destination || atMaximum {
      var sep :| Strip(sep) == [] && r.segmented == circular.segmented + sep + c.part;
      JoinCovers(input, j, i, circular.segmented, sep, c.part);
    }
  }

  /** At the first position, writing the prefix of length i to slot i - 1 extends the filled part. */
  lemma FirstWindowStep(lens: seq<int>, i: int)
    requires 1 <= i <= |lens| && FirstWindow(lens, i)
    ensures FirstWindow(lens[Slot(-1, i, |lens|) := i], i + 1)
  {
  }

  /**
   * Writing the prefix of length j + i to the slot i places after the
   * circular one leaves the window as it was, except that the last write
   * (i equal to the buffer size) lands on the circular slot itself.
   */
  lemma WindowStep(lens: seq<int>, circ: int, j: int, n: int, i: int)
    requires 1 <= i <= |lens| && j + i <= n && Window(lens, circ, j, n, false)
    ensures Window(lens[Slot(circ, i, |lens|) := j + i], circ, j, n, i == |lens|)
    ensures i == |lens| ==> lens[Slot(circ, i, |lens|) := j + i][circ] == j + i
  {
    var lens' := lens[Slot(circ, i, |lens|) := j + i];
    forall k | 0 <= k < |lens| && j + k <= n && !(i == |lens| && k == 0)
      ensures lens'[Slot(circ, k, |lens|)] == j + k
    {
      if k != i {
        assert Slot(circ, k, |lens|) != Slot(circ, i, |lens|);
      }
    }
  }

  /** After the first position, slot k holds the prefix of length 1 + k. */
  lemma FirstWindowDone(lens: seq<int>, n: int)
    requires 0 < |lens| <= n && FirstWindow(lens, |lens| + 1)
    ensures Window(lens, 0, 1, n, false)
  {
    forall k | 0 <= k < |lens| && 1 + k <= n
      ensures lens[Slot(0, k, |lens|)] == 1 + k
    {
      assert lens[Slot(-1, k + 1, |lens|)] == k + 1;
    }
  }

  /**
   * Moving the circular index one slot on: the window of the next position
   * is the old one less its first slot, which now stands for the prefix
   * arraySize further (or lies beyond the input).
   */
  lemma WindowAdvance(lens: seq<int>, circ: int, j: int, n: int, overwritten: bool)
    requires Window(lens, circ, j, n, overwritten)
    requires overwritten ==> lens[circ] == j + |lens|
    requires !overwritten ==> n < j + |lens|
    ensures Window(lens, Slot(circ, 1, |lens|), j + 1, n, false)
  {
    var next := Slot(circ, 1, |lens|);
    forall k | 0 <= k < |lens| && j + 1 + k <= n
      ensures lens[Slot(next, k, |lens|)] == j + 1 + k
    {
      if k + 1 < |lens| {
        assert Slot(next, k, |lens|) == Slot(circ, k + 1, |lens|);
        assert lens[Slot(circ, k + 1, |lens|)] == j + k + 1;
      } else {
        assert Slot(next, k, |lens|) == circ;
      }
    }
  }

  /**
   * One iteration of the inner loop of WordSegmentation: the candidate for
   * the i characters at j is probed and written to the slot i places after
   * the circular one (a plain copy at the first position, otherwise the
   * combination with the circular slot when it is better). Every slot stays a
   * segmentation of the prefix it stands for.
   */
  method Extend(compositions: array<Composition>, input: string, j: nat, i: nat, circularIndex: int,
                maxSegmentationWordLength: int, lookupTop: string -> seq<SuggestItem>, log10: real -> real,
                ghost lens: seq<int>)
    returns (ghost lens': seq<int>)
    requires compositions.Length == (if maxSegmentationWordLength < |input| then maxSegmentationWordLength else |input|)
    requires 1 <= i <= compositions.Length && j + i <= |input|
    requires j == 0 <==> circularIndex == -1
    requires -1 <= circularIndex < compositions.Length
    requires AllCover(input, compositions[..], lens)
    requires j == 0 ==> FirstWindow(lens, i)
    requires 0 < j ==> Window(lens, circularIndex, j, |input|, false)
    modifies compositions
    ensures AllCover(input, compositions[..], lens')
    ensures j == 0 ==> FirstWindow(lens', i + 1)
    ensures 0 < j ==> Window(lens', circularIndex, j, |input|, i == compositions.Length)
    ensures 0 < j && i == compositions.Length ==> lens'[circularIndex] == j + i
  {
    var arraySize := compositions.Length;
    var c := Probe(input, j, i, lookupTop, log10);
    ModSlot(circularIndex, i, arraySize);
    var destinationIndex := (i + circularIndex) % arraySize;
    if j == 0 {
      assert input[0..i] == input[..i];
      lens' := PlaceFirst(compositions, input, i, destinationIndex, c, lens);
    } else {
      lens' := PlaceCombined(compositions, input, j, i, circularIndex, destinationIndex,
                             maxSegmentationWordLength, c, lens);
    }
  }

  /** At the first position, the candidate for the first i characters is copied to slot i - 1. */
  method PlaceFirst(compositions: array<Composition>, input: string, i: nat, destinationIndex: int, c: Candidate,
                    ghost lens: seq<int>)
    returns (ghost lens': seq<int>)
    requires 1 <= i <= compositions.Length && i <= |input| && destinationIndex == Slot(-1, i, compositions.Length)
    requires Strip(c.part) == Strip(input[..i])
    requires AllCover(input, compositions[..], lens) && FirstWindow(lens, i)
    modifies compositions
    ensures AllCover(input, compositions[..], lens') && FirstWindow(lens', i + 1)
  {
    ghost var slots := compositions[..];
    var next := Composition(c.part, c.topResult, c.topEd, c.topProbabilityLog);
    compositions[destinationIndex] := next;
    CoverUpdate(input, slots, lens, destinationIndex, next, i);
    FirstWindowStep(lens, i);
    lens' := lens[destinationIndex := i];
    assert compositions[..] == slots[destinationIndex := next];
  }

  /**
   * Past the first position, the slot i places after the circular one takes
   * the combination of the circular slot with the candidate, when that is
   * better or the word has the maximum length.
   */
  method PlaceCombined(compositions: array<Composition>, input: string, j: nat, i: nat, circularIndex: int,
                       destinationIndex: int, maxSegmentationWordLength: int, c: Candidate, ghost lens: seq<int>)
    returns (ghost lens': seq<int>)
    requires compositions.Length == (if maxSegmentationWordLength < |input| then maxSegmentationWordLength else |input|)
    requires 1 <= i <= compositions.Length && 0 < j && j + i <= |input|
    requires 0 <= circularIndex < compositions.Length && destinationIndex == Slot(circularIndex, i, compositions.Length)
    requires Strip(c.part) == Strip(input[j..j + i])
    requires AllCover(input, compositions[..], lens) && Window(lens, circularIndex, j, |input|, false)
    modifies compositions
    ensures AllCover(input, compositions[..], lens')
    ensures Window(lens', circularIndex, j, |input|, i == compositions.Length)
    ensures i == compositions.Length ==> lens'[circularIndex] == j + i
  {
    ghost var slots := compositions[..];
    var circular := compositions[circularIndex];
    var atMaximum := i == maxSegmentationWordLength;
    var next := Combine(circular, compositions[destinationIndex], c, atMaximum);
    CircularCovers(input, slots, lens, circularIndex, j);
    CombineCovers(input, j, i, circular, slots[destinationIndex], c, atMaximum);
    lens' := CombinedLens(input, slots, lens, circularIndex, j, i, destinationIndex, next, atMaximum);
    compositions[destinationIndex] := next;
    assert compositions[..] == slots[destinationIndex := next];
  }

  /** The circular slot stands for the prefix that ends at the current position. */
  lemma CircularCovers(input: string, slots: seq<Composition>, lens: seq<int>, circ: int, j: nat)
    requires AllCover(input, slots, lens) && Window(lens, circ, j, |input|, false) && j <= |input|
    ensures Covers(input, slots[circ], j)
  {
    assert lens[Slot(circ, 0, |lens|)] == j;
  }

  /**
   * The prefix lengths after PlaceCombined: the destination slot stands for
   * the prefix of length j + i once it has taken the combination, and keeps
   * what it stood for otherwise.
   */
  lemma CombinedLens(input: string, slots: seq<Composition>, lens: seq<int>, circ: int, j: nat, i: nat, d: int,
                     next: Composition, atMaximum: bool)
    returns (lens': seq<int>)
    requires 1 <= i <= |slots| && 0 < j && j + i <= |input| && (i == |slots| ==> atMaximum)
    requires 0 <= circ < |slots| && d == Slot(circ, i, |slots|)
    requires (next == slots[d] && !atMaximum) || Covers(input, next, j + i)
    requires AllCover(input, slots, lens) && Window(lens, circ, j, |input|, false)
    ensures AllCover(input, slots[d := next], lens')
    ensures Window(lens', circ, j, |input|, i == |slots|)
    ensures i == |slots| ==> lens'[circ] == j + i
  {
    if next != slots[d] || atMaximum {
      CoverUpdate(input, slots, lens, d, next, j + i);
      WindowStep(lens, circ, j, |input|, i);
      lens' := lens[d := j + i];
    } else {
      CoverUpdate(input, slots, lens, d, next, lens[d]);
      lens' := lens[d := lens[d]];
      assert lens' == lens;
    }
  }

  /**
   * One iteration of the outer loop of WordSegmentation: every word length
   * up to the maximum (and up to the end of the input) is tried from
   * position j. Afterwards the window has moved one position on.
   */
  method Advance(compositions: array<Composition>, input: string, j: nat, circularIndex: int,
                 maxSegmentationWordLength: int, lookupTop: string -> seq<SuggestItem>, log10: real -> real,
                 ghost lens: seq<int>)
    returns (ghost lens': seq<int>)
    requires compositions.Length == (if maxSegmentationWordLength < |input| then maxSegmentationWordLength else |input|)
    requires 0 < compositions.Length && j < |input|
    requires j == 0 <==> circularIndex == -1
    requires -1 <= circularIndex < compositions.Length
    requires AllCover(input, compositions[..], lens)
    requires 0 < j ==> Window(lens, circularIndex, j, |input|, false)
    modifies compositions
    ensures AllCover(input, compositions[..], lens')
    ensures Window(lens', Slot(circularIndex, 1, compositions.Length), j + 1, |input|, false)
  {
    var n := |input|;
    var arraySize := compositions.Length;
    var imax := if n - j < maxSegmentationWordLength then n - j else maxSegmentationWordLength;
    lens' := lens;
    for i := 1 to imax + 1
      invariant AllCover(input, compositions[..], lens')
      invariant j == 0 ==> FirstWindow(lens', i)
      invariant 0 < j ==> Window(lens', circularIndex, j, n, i > arraySize)
      invariant 0 < j && i > arraySize ==> lens'[circularIndex] == j + arraySize
    {
      lens' := Extend(compositions, input, j, i, circularIndex, maxSegmentationWordLength, lookupTop, log10, lens');
    }
    if j == 0 {
      FirstWindowDone(lens', n);
    } else {
      WindowAdvance(lens', circularIndex, j, n, imax + 1 > arraySize);
    }
  }

  /**
   * WordSegmentation: the circular buffer compositions holds, for each of
   * the next arraySize end positions, the best segmentation found of the
   * input up to there; circularIndex is the slot of the current position
   * and stays in [0, arraySize) after every step. The segmentation
   * returned covers the whole input: without whitespace, it is the input
   * without whitespace.
   */
  method WordSegmentation(input: string, maxSegmentationWordLength: int,
                          lookupTop: string -> seq<SuggestItem>, log10: real -> real) returns (r: Info)
    requires |input| > 0 && maxSegmentationWordLength > 0
    ensures Strip(r.GetSegmented()) == Strip(input)
  {
    var n := |input|;
    var arraySize := if maxSegmentationWordLength < n then maxSegmentationWordLength else n;
    var compositions := new Composition[arraySize](_ => Composition([], [], 0, 0.0));
    // lens[s]: the length of the input prefix slot s is a segmentation of
    ghost var lens: seq<int> := seq(arraySize, _ => 0);
    var circularIndex := -1;
    for j := 0 to n
      invariant j == 0 <==> circularIndex == -1
      invariant -1 <= circularIndex < arraySize
      invariant AllCover(input, compositions[..], lens)
      invariant 0 < j ==> Window(lens, circularIndex, j, n, false)
    {
      lens := Advance(compositions, input, j, circularIndex, maxSegmentationWordLength, lookupTop, log10, lens);
      circularIndex := circularIndex + 1;
      if circularIndex == arraySize {
        circularIndex := 0;
      }
    }
    assert lens[Slot(circularIndex, 0, arraySize)] == n;
    var result := compositions[circularIndex];
    assert Covers(input, compositions[..][circularIndex], lens[circularIndex]);
    assert input[..n] == input;
    r := new Info(result.segmented, result.corrected, result.distanceSum, result.probabilityLogSum);
  }

  // ---------------------------------------------------------------------
  // LookupCompound, after the parts are chosen
  // ---------------------------------------------------------------------

  /** The line LookupCompound builds from its parts before trimming: each term followed by a space. */
  function Line(parts: seq<SuggestItem>): (r: string)
  {
    if parts == [] then [] else Line(parts[..|parts| - 1]) + parts[|parts| - 1].term + " "
  }

  /** The terms separated by single spaces. */
  function Spaced(parts: seq<SuggestItem>): (r: string)
  {
    if parts == [] then []
    else if |parts| == 1 then parts[0].term
    else Spaced(parts[..|parts| - 1]) + " " + parts[|parts| - 1].term
  }

  lemma {:induction false} LineSpaced(parts: seq<SuggestItem>)
    requires parts != []
    ensures Line(parts) == Spaced(parts) + " "
    decreases |parts|
  {
    if |parts| == 1 {
      assert parts[..0] == [];
    } else {
      LineSpaced(parts[..|parts| - 1]);
    }
  }

  /**
   * When the last term does not end in whitespace, the trimmed line is the
   * terms separated by single spaces.
   */
  lemma TrimmedLine(parts: seq<SuggestItem>)
    requires parts != [] && parts[|parts| - 1].term != []
    requires !IsSpace(parts[|parts| - 1].term[|parts[|parts| - 1].term| - 1])
    ensures Trim.RTrimmed(Line(parts)) == Spaced(parts)
  {
    LineSpaced(parts);
    var s := Spaced(parts);
    assert s != [] && s[|s| - 1] == parts[|parts| - 1].term[|parts[|parts| - 1].term| - 1] by {
      if |parts| > 1 {
        assert s == Spaced(parts[..|parts| - 1]) + " " + parts[|parts| - 1].term;
      }
    }
    assert (s + " ")[..|s|] == s;
  }

  /** A count converted to long: truncated toward zero. */
  function TruncateToLong(x: real): int {
    if x >= 0.0 then x.Floor else -((-x).Floor)
  }

  /** N times the product of the parts' count ratios count / N, taken left to right. */
  function Product(parts: seq<SuggestItem>): real
    decreases |parts|
  {
    if parts == [] then N as real
    else Product(parts[..|parts| - 1]) * (parts[|parts| - 1].count as real) / (N as real)
  }

  /** With no negative count among the parts, the product is not negative. */
  lemma {:induction false} ProductNonNegative(parts: seq<SuggestItem>)
    requires forall k :: 0 <= k < |parts| ==> parts[k].count >= 0
    ensures Product(parts) >= 0.0
    decreases |parts|
  {
    if parts != [] {
      var prefix := parts[..|parts| - 1];
      assert forall k :: 0 <= k < |prefix| ==> prefix[k] == parts[k];
      ProductNonNegative(prefix);
      var a, c := Product(prefix), parts[|parts| - 1].count as real;
      assert a * c >= 0.0;
    }
  }

  /**
   * The end of LookupCompound: the terms of the parts joined with spaces,
   * right-trimmed and, when asked, given the casing of the input; the count
   * is N times the product of the parts' count ratios, and the distance the
   * comparer's distance from the input. The result holds exactly one item.
   */
  method CompoundResult(input: string, suggestionParts: seq<SuggestItem>, transferCasing: bool,
                        align: (string, string) -> string, compare: (string, string) -> int)
    returns (r: Result<seq<SuggestItem>>)
    ensures r.Failure? <==> transferCasing && input == [] && Trim.RTrimmed(Line(suggestionParts)) != []
    ensures r.Success? ==> |r.value| == 1
    ensures r.Success? && !transferCasing ==> r.value[0].term == Trim.RTrimmed(Line(suggestionParts))
    ensures r.Success? && transferCasing ==>
      Helpers.TransferCasingForSimilarText(input, Trim.RTrimmed(Line(suggestionParts)), align) == Success(r.value[0].term)
    ensures r.Success? ==> r.value[0].count == TruncateToLong(Product(suggestionParts))
    ensures r.Success? ==> r.value[0].distance == compare(input, r.value[0].term)
  {
    var count: real := N as real;
    var s: string := [];
    for k := 0 to |suggestionParts|
      invariant s == Line(suggestionParts[..k])
      invariant count == Product(suggestionParts[..k])
    {
      assert suggestionParts[..k + 1][..k] == suggestionParts[..k];
      s := s + suggestionParts[k].term + " ";
      count := count * (suggestionParts[k].count as real) / (N as real);
    }
    assert suggestionParts[..|suggestionParts|] == suggestionParts;
    s := Trim.RTrim(s);
    if transferCasing {
      var recased := Helpers.TransferCasingForSimilarText(input, s, align);
      if recased.Failure? {
        return Failure(recased.error);
      }
      s := recased.value;
    }
    r := Success([SuggestItem(s, compare(input, s), TruncateToLong(count))]);
  }
}

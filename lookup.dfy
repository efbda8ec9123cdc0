/**
 * The search at the heart of SymSpell::Lookup.  The deletes of the input's
 * prefix are visited breadth first, starting from the prefix itself; the
 * dictionary words filed under each candidate's hash are filtered, their
 * distance to the input computed, and the survivors kept according to the
 * verbosity.
 */
module Lookups {
  import opened Wrappers
  import opened LibraryTypes
  import opened SuggestItems
  import opened OsaSpec
  import opened Hashing
  import Edits
  import Helpers
  import DeletePrefix
  import DamerauOSA

  /**
   * A suggestion other than the input: a dictionary word with its count, at
   * most maxEditDistance away, whose distance is the true OSA distance or,
   * for the words met under the empty delete, the longer of the two lengths
   * (never less than the true distance).
   */
  ghost predicate Similar(input: string, item: SuggestItem, maxEditDistance: int, words: map<string, int>) {
    item.term in words && item.term != input && item.count == words[item.term] &&
    Osa(input, item.term) <= item.distance <= maxEditDistance &&
    (item.distance == Osa(input, item.term) || item.distance == Max(|input|, |item.term|))
  }

  /**
   * The state of the search: the initial items (only under All) followed by
   * similar suggestions; under Top and Closest every kept suggestion is at
   * the current best distance maxEditDistance2, and Top keeps at most one.
   */
  ghost predicate SearchState(input: string, init: seq<SuggestItem>, verbosity: Verbosity, maxEditDistance: int,
                              words: map<string, int>, suggestions: seq<SuggestItem>, maxEditDistance2: int)
  {
    (init == [] || verbosity == All) &&
    |init| <= |suggestions| && suggestions[..|init|] == init &&
    maxEditDistance2 <= maxEditDistance && (verbosity == All ==> maxEditDistance2 == maxEditDistance) &&
    (forall k :: |init| <= k < |suggestions| ==> Similar(input, suggestions[k], maxEditDistance, words)) &&
    (verbosity != All ==> forall k :: 0 <= k < |suggestions| ==> suggestions[k].distance == maxEditDistance2) &&
    (verbosity == Top ==> |suggestions| <= 1)
  }

  /** Every string reached from p by deleting characters one at a time, p included. */
  ghost function AllDeletes(p: string): set<string>
    decreases |p|
  {
    {p} + set i, s | 0 <= i < |p| && s in AllDeletes(Edits.Without(p, i)) :: s
  }

  lemma {:induction false} AllDeletesShorter(p: string, s: string)
    requires s in AllDeletes(p)
    ensures |s| <= |p|
    decreases |p|
  {
    if s != p {
      var j :| 0 <= j < |p| && s in AllDeletes(Edits.Without(p, j));
      AllDeletesShorter(Edits.Without(p, j), s);
    }
  }

  /** Deleting one more character stays among the deletes. */
  lemma {:induction false} AllDeletesClosed(p: string, s: string, i: int)
    requires s in AllDeletes(p) && 0 <= i < |s|
    ensures Edits.Without(s, i) in AllDeletes(p)
    decreases |p|
  {
    if s == p {
      assert Edits.Without(p, i) in AllDeletes(Edits.Without(p, i));
    } else {
      var j :| 0 <= j < |p| && s in AllDeletes(Edits.Without(p, j));
      AllDeletesClosed(Edits.Without(p, j), s, i);
    }
  }

  /**
   * The prefix/suffix test of the distance computation: when the candidate
   * is as short as the prefix allows, the ends of input and suggestion
   * beyond the prefix must agree closely enough.
   */
  predicate SuffixMismatch(input: string, suggestion: string, candidateLen: int, prefixLength: int, maxEditDistance: int)
    requires prefixLength >= 1
  {
    var atLimit := prefixLength - maxEditDistance == candidateLen;
    var minLen := if atLimit then (if |input| < |suggestion| then |input| else |suggestion|) - prefixLength else 0;
    (atLimit && minLen > 1 && input[|input| + 1 - minLen..] != suggestion[|suggestion| + 1 - minLen..]) ||
    (minLen > 0 && input[|input| - minLen] != suggestion[|suggestion| - minLen] &&
     (input[|input| - minLen - 1] != suggestion[|suggestion| - minLen] ||
      input[|input| - minLen] != suggestion[|suggestion| - minLen - 1]))
  }

  function Abs(x: int): int {
    if x < 0 then -x else x
  }

  /**
   * The body of the loop over one bucket, up to the acceptance test: the
   * filters, and the distance of suggestion to input.  When it proceeds, the
   * suggestion was not examined before, its length is within
   * maxEditDistance2 of the input's, and the distance is sound.
   */
  method Consider(input: string, inputPrefixLen: int, candidate: string, suggestion: string, prefixLength: int,
                  maxEditDistance: int, maxEditDistance2: int, verbosity: Verbosity, hashset2: set<string>,
                  comparer: DamerauOSA.DamerauOsa)
    returns (distance: int, proceed: bool, hashset2': set<string>)
    requires comparer.Valid() && prefixLength >= 1 && |candidate| <= |input|
    modifies comparer, comparer.baseChar1Costs, comparer.basePrevChar1Costs
    ensures comparer.Valid()
    ensures comparer.baseChar1Costs == old(comparer.baseChar1Costs) || fresh(comparer.baseChar1Costs)
    ensures comparer.basePrevChar1Costs == old(comparer.basePrevChar1Costs) || fresh(comparer.basePrevChar1Costs)
    ensures hashset2 <= hashset2' <= hashset2 + {suggestion}
    ensures proceed ==> suggestion != input && suggestion !in hashset2 && suggestion in hashset2'
    ensures proceed ==> Abs(|suggestion| - |input|) <= maxEditDistance2 && |suggestion| >= |candidate|
    ensures proceed ==>
      Osa(input, suggestion) <= distance &&
      (distance == Osa(input, suggestion) || (candidate == [] && distance == Max(|input|, |suggestion|)))
  {
    hashset2' := hashset2;
    distance, proceed := 0, false;
    var inputLen, suggestionLen, candidateLen := |input|, |suggestion|, |candidate|;
    if suggestion == input {
      return;
    }
    if Abs(suggestionLen - inputLen) > maxEditDistance2 || suggestionLen < candidateLen ||
       (suggestionLen == candidateLen && suggestion != candidate) {
      return;
    }
    var suggPrefixLen := if suggestionLen < prefixLength then suggestionLen else prefixLength;
    if suggPrefixLen > inputPrefixLen && suggPrefixLen - candidateLen > maxEditDistance2 {
      return;
    }
    if candidateLen == 0 {
      distance := if inputLen >= suggestionLen then inputLen else suggestionLen;
      var flag := suggestion !in hashset2';
      hashset2' := hashset2' + {suggestion};
      if distance > maxEditDistance2 || !flag {
        return;
      }
      Bounds(input, suggestion, inputLen, suggestionLen);
    } else if suggestionLen == 1 {
      distance := if suggestion[0] in input then inputLen - 1 else inputLen;
      var flag := suggestion !in hashset2';
      hashset2' := hashset2' + {suggestion};
      if distance > maxEditDistance2 || !flag {
        return;
      }
      OsaSingle(input, suggestion[0]);
      assert [suggestion[0]] == suggestion;
    } else if SuffixMismatch(input, suggestion, candidateLen, prefixLength, maxEditDistance) {
      return;
    } else {
      if verbosity != All {
        var inPrefix := DeletePrefix.DeleteInSuggestionPrefix(candidate, suggestion, prefixLength);
        if !inPrefix {
          return;
        }
      }
      var flag := suggestion !in hashset2';
      hashset2' := hashset2' + {suggestion};
      if !flag {
        return;
      }
      distance := comparer.DistanceBounded(input, suggestion, maxEditDistance2);
      if distance < 0 {
        return;
      }
    }
    proceed := true;
  }

  /**
   * Keeps a suggestion at distance at most maxEditDistance2: All appends it;
   * Closest drops the kept ones when it is closer, then appends it and
   * lowers the bound to its distance; Top keeps it in place of the kept one
   * when it is closer or more frequent.
   */
  method Accept(input: string, init: seq<SuggestItem>, verbosity: Verbosity, maxEditDistance: int, words: map<string, int>,
                suggestions: seq<SuggestItem>, maxEditDistance2: int, item: SuggestItem)
    returns (suggestions': seq<SuggestItem>, maxEditDistance2': int)
    requires SearchState(input, init, verbosity, maxEditDistance, words, suggestions, maxEditDistance2)
    requires Similar(input, item, maxEditDistance, words) && item.distance <= maxEditDistance2
    ensures SearchState(input, init, verbosity, maxEditDistance, words, suggestions', maxEditDistance2')
    ensures verbosity == All ==> suggestions' == suggestions + [item]
    ensures verbosity == Closest ==>
      suggestions' == (if item.distance < maxEditDistance2 then [] else suggestions) + [item]
    ensures verbosity == Top ==>
      suggestions' == if suggestions == [] || item.distance < maxEditDistance2 || item.count > suggestions[0].count
                      then [item] else suggestions
  {
    suggestions', maxEditDistance2' := suggestions, maxEditDistance2;
    if suggestions != [] {
      if verbosity == Closest {
        if item.distance < maxEditDistance2 {
          suggestions' := [];
        }
      } else if verbosity == Top {
        if item.distance < maxEditDistance2 || item.count > suggestions[0].count {
          maxEditDistance2' := item.distance;
          suggestions' := suggestions[0 := item];
        }
        return;
      }
    }
    if verbosity != All {
      maxEditDistance2' := item.distance;
    }
    suggestions' := suggestions' + [item];
  }

  /** The loop over the words filed under one candidate's hash. */
  method ScanBucket(input: string, inputPrefixLen: int, candidate: string, bucket: seq<string>, prefixLength: int,
                    maxEditDistance: int, verbosity: Verbosity, words: map<string, int>, init: seq<SuggestItem>,
                    suggestions: seq<SuggestItem>, maxEditDistance2: int, hashset2: set<string>,
                    comparer: DamerauOSA.DamerauOsa)
    returns (suggestions': seq<SuggestItem>, maxEditDistance2': int, hashset2': set<string>)
    requires comparer.Valid() && prefixLength >= 1 && |candidate| <= |input|
    requires forall k :: 0 <= k < |bucket| ==> bucket[k] in words
    requires SearchState(input, init, verbosity, maxEditDistance, words, suggestions, maxEditDistance2)
    modifies comparer, comparer.baseChar1Costs, comparer.basePrevChar1Costs
    ensures comparer.Valid()
    ensures comparer.baseChar1Costs == old(comparer.baseChar1Costs) || fresh(comparer.baseChar1Costs)
    ensures comparer.basePrevChar1Costs == old(comparer.basePrevChar1Costs) || fresh(comparer.basePrevChar1Costs)
    ensures SearchState(input, init, verbosity, maxEditDistance, words, suggestions', maxEditDistance2')
    ensures hashset2 <= hashset2'
  {
    suggestions', maxEditDistance2', hashset2' := suggestions, maxEditDistance2, hashset2;
    for k := 0 to |bucket|
      invariant comparer.Valid()
      invariant comparer.baseChar1Costs == old(comparer.baseChar1Costs) || fresh(comparer.baseChar1Costs)
      invariant comparer.basePrevChar1Costs == old(comparer.basePrevChar1Costs) || fresh(comparer.basePrevChar1Costs)
      invariant SearchState(input, init, verbosity, maxEditDistance, words, suggestions', maxEditDistance2')
      invariant hashset2 <= hashset2'
    {
      var suggestion := bucket[k];
      var distance, proceed;
      distance, proceed, hashset2' := Consider(input, inputPrefixLen, candidate, suggestion, prefixLength,
                                               maxEditDistance, maxEditDistance2', verbosity, hashset2', comparer);
      if proceed && distance <= maxEditDistance2' {
        var item := SuggestItem(suggestion, distance, words[suggestion]);
        suggestions', maxEditDistance2' := Accept(input, init, verbosity, maxEditDistance, words,
                                                  suggestions', maxEditDistance2', item);
      }
    }
  }

  /**
   * Queues every single-character delete of candidate not queued before,
   * in order of the deleted position.
   */
  method Expand(candidate: string, hashset1: set<string>, candidates: seq<string>)
    returns (hashset1': set<string>, candidates': seq<string>)
    ensures hashset1' == hashset1 + set i | 0 <= i < |candidate| :: Edits.Without(candidate, i)
    ensures |candidates| <= |candidates'| && candidates'[..|candidates|] == candidates
    ensures forall k :: |candidates| <= k < |candidates'| ==> candidates'[k] in hashset1' - hashset1
    ensures forall d :: d in hashset1' - hashset1 ==> d in candidates'[|candidates|..]
    ensures hashset1' == hashset1 ==> candidates' == candidates
  {
    hashset1', candidates' := hashset1, candidates;
    for i := 0 to |candidate|
      invariant hashset1' == hashset1 + set i' | 0 <= i' < i :: Edits.Without(candidate, i')
      invariant |candidates| <= |candidates'| && candidates'[..|candidates|] == candidates
      invariant forall k :: |candidates| <= k < |candidates'| ==> candidates'[k] in hashset1' - hashset1
      invariant forall d :: d in hashset1' - hashset1 ==> d in candidates'[|candidates|..]
      invariant hashset1' == hashset1 ==> candidates' == candidates
    {
      var del := Edits.Without(candidate, i);
      if del !in hashset1' {
        ghost var tail := candidates'[|candidates|..];
        hashset1' := hashset1' + {del};
        candidates' := candidates' + [del];
        assert candidates'[|candidates|..] == tail + [del];
      }
      assert (set i' | 0 <= i' < i + 1 :: Edits.Without(candidate, i')) ==
             (set i' | 0 <= i' < i :: Edits.Without(candidate, i')) + {del};
    }
  }

  /**
   * The candidate loop of Lookup.  Starting from init (which only All may
   * carry in), every suggestion added is similar to the input; Top ends
   * with at most one, and Closest with all at one distance.
   */
  method Search(input: string, verbosity: Verbosity, maxEditDistance: int, init: seq<SuggestItem>,
                deletes: map<int, seq<string>>, words: map<string, int>, prefixLength: int, compactMask: bv32)
    returns (suggestions: seq<SuggestItem>)
    requires prefixLength >= 1 && (init == [] || verbosity == All)
    requires forall h, k :: h in deletes && 0 <= k < |deletes[h]| ==> deletes[h][k] in words
    ensures |init| <= |suggestions| && suggestions[..|init|] == init
    ensures forall k :: |init| <= k < |suggestions| ==> Similar(input, suggestions[k], maxEditDistance, words)
    ensures verbosity == Top ==> |suggestions| <= 1
    ensures verbosity == Closest ==>
      forall i, j :: 0 <= i < j < |suggestions| ==> suggestions[i].distance == suggestions[j].distance
  {
    var comparer := new DamerauOSA.DamerauOsa();
    var hashset1: set<string> := {};
    var hashset2: set<string> := {input};
    var maxEditDistance2 := maxEditDistance;
    var inputLen := |input|;
    var inputPrefixLen := inputLen;
    var candidates: seq<string>;
    if inputPrefixLen > prefixLength {
      inputPrefixLen := prefixLength;
      candidates := [input[..inputPrefixLen]];
    } else {
      candidates := [input];
    }
    ghost var prefix := candidates[0];
    ghost var pool := AllDeletes(prefix);
    suggestions := init;
    while candidates != []
      invariant comparer.Valid() && fresh(comparer.baseChar1Costs) && fresh(comparer.basePrevChar1Costs)
      invariant SearchState(input, init, verbosity, maxEditDistance, words, suggestions, maxEditDistance2)
      invariant |prefix| == inputPrefixLen <= inputLen
      invariant hashset1 <= pool
      invariant forall k :: 0 <= k < |candidates| ==> candidates[k] in pool
      decreases pool - hashset1, |candidates|
    {
      var candidate := candidates[0];
      candidates := candidates[1..];
      var candidateLen := |candidate|;
      var lengthDiff := inputPrefixLen - candidateLen;
      if lengthDiff > maxEditDistance2 {
        if verbosity == All {
          continue;
        }
        break;
      }
      AllDeletesShorter(prefix, candidate);
      var h := GetStringHash(candidate, compactMask);
      if h in deletes {
        suggestions, maxEditDistance2, hashset2 :=
          ScanBucket(input, inputPrefixLen, candidate, deletes[h], prefixLength, maxEditDistance, verbosity, words,
                     init, suggestions, maxEditDistance2, hashset2, comparer);
      }
      if lengthDiff < maxEditDistance && candidateLen <= prefixLength {
        if verbosity != All && lengthDiff >= maxEditDistance2 {
          continue;
        }
        forall i | 0 <= i < |candidate|
          ensures Edits.Without(candidate, i) in pool
        {
          AllDeletesClosed(prefix, candidate, i);
        }
        ghost var hashset1Before, candidatesBefore := hashset1, candidates;
        hashset1, candidates := Expand(candidate, hashset1, candidates);
        assert forall k :: 0 <= k < |candidates| ==> candidates[k] in pool by {
          forall k | 0 <= k < |candidates|
            ensures candidates[k] in pool
          {
            if k < |candidatesBefore| {
              assert candidates[k] == candidates[..|candidatesBefore|][k];
            }
          }
        }
      }
    }
  }

  /**
   * Search followed by the sort of Lookup: the initial items and similar
   * suggestions, in CompareTo order.
   */
  method SearchSorted(input: string, verbosity: Verbosity, maxEditDistance: int, init: seq<SuggestItem>,
                      deletes: map<int, seq<string>>, words: map<string, int>, prefixLength: int, compactMask: bv32)
    returns (found: seq<SuggestItem>)
    requires prefixLength >= 1 && (init == [] || verbosity == All)
    requires forall h, k :: h in deletes && 0 <= k < |deletes[h]| ==> deletes[h][k] in words
    ensures Sorted(found)
    ensures forall x :: x in init ==> x in found
    ensures forall x :: x in found ==> x in init || Similar(input, x, maxEditDistance, words)
    ensures verbosity == Top ==> |found| <= 1
    ensures verbosity == Closest ==> forall x, y :: x in found && y in found ==> x.distance == y.distance
  {
    var s := Search(input, verbosity, maxEditDistance, init, deletes, words, prefixLength, compactMask);
    forall x | x in init
      ensures x in s
    {
      var k :| 0 <= k < |init| && init[k] == x;
      assert s[..|init|][k] == x;
    }
    forall x | x in s
      ensures x in init || Similar(input, x, maxEditDistance, words)
    {
      var k :| 0 <= k < |s| && s[k] == x;
      if k < |init| {
        assert s[..|init|][k] == x;
      }
    }
    found := s;
    if |s| > 1 {
      SortItemsMembers(s);
      found := SortItems(s);
    }
  }

  /** The items with every term recased after the original input. */
  ghost predicate Recased(originalInput: string, items: seq<SuggestItem>, recased: seq<SuggestItem>,
                          align: (string, string) -> string)
  {
    |recased| == |items| &&
    forall k :: 0 <= k < |items| ==>
      recased[k].distance == items[k].distance && recased[k].count == items[k].count &&
      Helpers.TransferCasingForSimilarText(originalInput, items[k].term, align) == Success(recased[k].term)
  }

  /**
   * The casing transfer at the end of Lookup: every term gets the casing of
   * the original input; it fails (throws) when the original input is empty
   * and some term is not.
   */
  method RecaseTerms(originalInput: string, items: seq<SuggestItem>, align: (string, string) -> string)
    returns (r: Result<seq<SuggestItem>>)
    ensures r.Failure? <==> originalInput == [] && exists k :: 0 <= k < |items| && items[k].term != []
    ensures r.Success? ==> Recased(originalInput, items, r.value, align)
  {
    var recased := items;
    for k := 0 to |items|
      invariant |recased| == |items| && recased[k..] == items[k..]
      invariant forall k' :: 0 <= k' < k ==> items[k'].term == [] || originalInput != []
      invariant Recased(originalInput, items[..k], recased[..k], align)
    {
      var term := Helpers.TransferCasingForSimilarText(originalInput, items[k].term, align);
      if term.Failure? {
        return Failure(term.error);
      }
      recased := recased[k := items[k].(term := term.value)];
      assert recased[..k + 1] == recased[..k] + [recased[k]];
    }
    assert items[..|items|] == items && recased[..|items|] == recased;
    r := Success(recased);
  }
}

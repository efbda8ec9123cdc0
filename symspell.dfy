/**
 * The SymSpell dictionary: dictionary words with their counts, the words
 * still below the count threshold, and the delete index, which files every
 * dictionary word under the hash of each of its deletes.
 */
module SymSpells {
  import opened Wrappers
  import opened LibraryTypes
  import opened Edits
  import opened Hashing
  import Staging
  import Helpers
  import opened SuggestItems
  import opened Lookups
  import Persistence

  /** LLONG_MAX, the ceiling of a word count. */
  const MAXINT: int := 0x7FFF_FFFF_FFFF_FFFF

  /** The messages of the constructor's invalid_argument exceptions. */
  const NegativeDistance: string := "max_dictionary_edit_distance cannot be negative"
  const BadPrefixLength: string := "prefix_length cannot be less than 1 or smaller than max_dictionary_edit_distance"
  const NegativeThreshold: string := "count_threshold cannot be negative"
  const BadCompactLevel: string := "compact_level cannot be greater than 16"
  const DistanceTooLarge: string := "Distance too large"

  type int32 = x: int | -0x8000_0000 <= x <= 0x7FFF_FFFF

  /** prev + count, saturating at MAXINT. */
  function SaturatingAdd(previous: int, count: int): (r: int)
    ensures previous + count < MAXINT ==> r == previous + count
    ensures previous + count >= MAXINT ==> r == MAXINT
  {
    if MAXINT - previous > count then previous + count else MAXINT
  }

  /** The two count maps: dictionary words, and words seen but below the threshold. */
  datatype Counts = Counts(words: map<string, int>, below: map<string, int>)

  /**
   * Every count lies in [0, MAXINT], no word is in both maps, and a word below
   * the threshold has a positive count below it.
   */
  ghost predicate CountsOk(c: Counts, countThreshold: int) {
    (forall w :: w in c.words ==> 0 <= c.words[w] <= MAXINT) &&
    (forall w :: w in c.below ==> 1 <= c.below[w] < countThreshold && c.below[w] <= MAXINT) &&
    (forall w :: w in c.words ==> w !in c.below)
  }

  /**
   * The count bookkeeping of CreateDictionaryEntryCheck: the new maps, and
   * whether the word entered the dictionary (the source's iterator is not
   * words.end()).
   */
  function Accumulate(c: Counts, countThreshold: int, key: string, count: int): (r: (Counts, bool))
  {
    if count <= 0 && countThreshold > 0 then (c, false)
    else
      var n := if count <= 0 then 0 else count;
      if countThreshold > 1 && key in c.below then
        var total := SaturatingAdd(c.below[key], n);
        if total >= countThreshold then (Counts(Emplace(c.words, key, total), c.below - {key}), true)
        else (Counts(c.words, c.below[key := total]), false)
      else if key in c.words then
        (Counts(c.words[key := SaturatingAdd(c.words[key], n)], c.below), false)
      else if n < countThreshold then
        (Counts(c.words, Emplace(c.below, key, n)), false)
      else
        (Counts(c.words[key := n], c.below), true)
  }

  /** A non-positive count changes nothing when there is a threshold. */
  lemma AccumulateNonPositive(c: Counts, countThreshold: int, key: string, count: int)
    requires count <= 0 && countThreshold > 0
    ensures Accumulate(c, countThreshold, key, count) == (c, false)
  {
  }

  /**
   * Adding to a dictionary word only raises its count, saturating at MAXINT,
   * and does not report an insertion (so no deletes are added).
   */
  lemma AccumulateExisting(c: Counts, countThreshold: int, key: string, count: int)
    requires CountsOk(c, countThreshold) && key in c.words && count > 0
    ensures var r := Accumulate(c, countThreshold, key, count);
      !r.1 && r.0.below == c.below && r.0.words.Keys == c.words.Keys &&
      r.0.words[key] == (if c.words[key] + count < MAXINT then c.words[key] + count else MAXINT) &&
      forall w :: w in c.words && w != key ==> r.0.words[w] == c.words[w]
  {
  }

  /**
   * A word below the threshold moves into the dictionary, and out of the
   * below-threshold map, exactly when its accumulated count reaches the
   * threshold; until then only its accumulated count changes.
   */
  lemma AccumulatePromotion(c: Counts, countThreshold: int, key: string, count: int)
    requires CountsOk(c, countThreshold) && countThreshold > 1 && key in c.below && count > 0
    ensures var r := Accumulate(c, countThreshold, key, count);
      var total := if c.below[key] + count < MAXINT then c.below[key] + count else MAXINT;
      (r.1 <==> total >= countThreshold) &&
      (key in r.0.words <==> total >= countThreshold) &&
      (key in r.0.below <==> total < countThreshold) &&
      (r.1 ==> r.0.words == c.words[key := total] && r.0.below == c.below - {key}) &&
      (!r.1 ==> r.0.words == c.words && r.0.below == c.below[key := total])
  {
  }

  /** A new word enters the dictionary when its count reaches the threshold, else waits below it. */
  lemma AccumulateNew(c: Counts, countThreshold: int, key: string, count: int)
    requires CountsOk(c, countThreshold) && key !in c.words && key !in c.below && count > 0
    ensures var r := Accumulate(c, countThreshold, key, count);
      (r.1 <==> count >= countThreshold) &&
      (r.1 ==> r.0 == Counts(c.words[key := count], c.below)) &&
      (!r.1 ==> r.0 == Counts(c.words, c.below[key := count]))
  {
  }

  /** The bookkeeping keeps counts in range, below the threshold where they wait, and the maps disjoint. */
  lemma AccumulateKeepsCountsOk(c: Counts, countThreshold: int, key: string, count: int)
    requires CountsOk(c, countThreshold) && count <= MAXINT
    ensures CountsOk(Accumulate(c, countThreshold, key, count).0, countThreshold)
  {
  }

  /** Accumulate never removes a dictionary word, and a reported insertion leaves the word in the dictionary. */
  lemma AccumulateGrows(c: Counts, countThreshold: int, key: string, count: int)
    ensures var r := Accumulate(c, countThreshold, key, count);
      c.words.Keys <= r.0.words.Keys && (r.1 ==> r.0.words.Keys == c.words.Keys + {key}) &&
      (!r.1 ==> r.0.words.Keys == c.words.Keys)
  {
  }

  /** n is the length of the longest key, or 0 when there is none. */
  ghost predicate IsMaxLength(n: int, keys: set<string>) {
    (forall w :: w in keys ==> |w| <= n) &&
    (if keys == {} then n == 0 else exists w :: w in keys && |w| == n)
  }

  /** The strings a word is filed under: the hashes of its prefix deletes. */
  ghost function HashesOf(w: string, prefixLength: int, maxDictionaryEditDistance: int, compactMask: bv32): set<int> {
    HashSet(EditsPrefixSet(w, prefixLength, maxDictionaryEditDistance), compactMask)
  }

  /** The hashes of a set of strings. */
  ghost function HashSet(strings: set<string>, compactMask: bv32): set<int> {
    set e | e in strings :: StringHash(e, compactMask)
  }

  lemma HashSetAdd(strings: set<string>, e: string, compactMask: bv32)
    ensures HashSet(strings + {e}, compactMask) == HashSet(strings, compactMask) + {StringHash(e, compactMask)}
  {
    assert forall h :: h in HashSet(strings + {e}, compactMask) <==>
      h in HashSet(strings, compactMask) || h == StringHash(e, compactMask);
  }

  /** Every word in a delete bucket is a dictionary word filed under that bucket's hash. */
  ghost predicate Indexed(deletes: map<int, seq<string>>, words: map<string, int>,
                          prefixLength: int, maxDictionaryEditDistance: int, compactMask: bv32) {
    forall h, k :: h in deletes && 0 <= k < |deletes[h]| ==>
      deletes[h][k] in words && h in HashesOf(deletes[h][k], prefixLength, maxDictionaryEditDistance, compactMask)
  }

  /** The index stays valid when words are only added. */
  lemma IndexedGrows(deletes: map<int, seq<string>>, words: map<string, int>, words': map<string, int>,
                     prefixLength: int, maxDictionaryEditDistance: int, compactMask: bv32)
    requires Indexed(deletes, words, prefixLength, maxDictionaryEditDistance, compactMask)
    requires words.Keys <= words'.Keys
    ensures Indexed(deletes, words', prefixLength, maxDictionaryEditDistance, compactMask)
  {
  }

  function Bucket(deletes: map<int, seq<string>>, h: int): seq<string> {
    if h in deletes then deletes[h] else []
  }

  /** after is before with copies of key appended to exactly the buckets in hashes. */
  ghost predicate AppendedTo(before: map<int, seq<string>>, after: map<int, seq<string>>, key: string, hashes: set<int>) {
    after.Keys == before.Keys + hashes &&
    forall h :: h in after ==>
      var old_ := Bucket(before, h);
      |old_| <= |after[h]| && after[h][..|old_|] == old_ &&
      (forall k :: |old_| <= k < |after[h]| ==> after[h][k] == key) &&
      (|after[h]| > |old_| <==> h in hashes)
  }

  /**
   * after is before with copies of key put in front of it; grew says
   * whether there is at least one.
   */
  ghost predicate PrependedTo(before: seq<string>, after: seq<string>, key: string, grew: bool) {
    |before| <= |after| && after[|after| - |before|..] == before &&
    (forall k :: 0 <= k < |after| - |before| ==> after[k] == key) &&
    (grew <==> |after| > |before|)
  }

  /** One more copy in front keeps PrependedTo, and now it grew. */
  lemma PrependedStep(before: seq<string>, mid: seq<string>, key: string, grew: bool)
    requires PrependedTo(before, mid, key, grew)
    ensures PrependedTo(before, [key] + mid, key, true)
  {
    var after := [key] + mid;
    assert after[|after| - |before|..] == mid[|mid| - |before|..];
  }

  /** Every hash's staged list in the second stage state is the first one's with copies of key in front. */
  ghost predicate PrependedEverywhere(deletes0: map<int, Staging.Entry>, nodes0: seq<Staging.Node>,
                                      deletes1: map<int, Staging.Entry>, nodes1: seq<Staging.Node>, key: string, hashes: set<int>)
  {
    Staging.ValidState(deletes0, nodes0) && Staging.ValidState(deletes1, nodes1) &&
    forall h :: PrependedTo(Staging.StagedIn(deletes0, nodes0, h), Staging.StagedIn(deletes1, nodes1, h), key, h in hashes)
  }

  /** Staging key once more under h extends PrependedEverywhere by h. */
  lemma PrependedEverywhereStep(deletes0: map<int, Staging.Entry>, nodes0: seq<Staging.Node>,
                                deletes1: map<int, Staging.Entry>, nodes1: seq<Staging.Node>,
                                deletes2: map<int, Staging.Entry>, nodes2: seq<Staging.Node>, key: string, hashes: set<int>, h: int)
    requires PrependedEverywhere(deletes0, nodes0, deletes1, nodes1, key, hashes)
    requires Staging.ValidState(deletes2, nodes2)
    requires Staging.StagedIn(deletes2, nodes2, h) == [key] + Staging.StagedIn(deletes1, nodes1, h)
    requires forall h' :: h' != h ==> Staging.StagedIn(deletes2, nodes2, h') == Staging.StagedIn(deletes1, nodes1, h')
    ensures PrependedEverywhere(deletes0, nodes0, deletes2, nodes2, key, hashes + {h})
  {
    forall h' ensures PrependedTo(Staging.StagedIn(deletes0, nodes0, h'), Staging.StagedIn(deletes2, nodes2, h'),
                                  key, h' in hashes + {h})
    {
      var before, mid := Staging.StagedIn(deletes0, nodes0, h'), Staging.StagedIn(deletes1, nodes1, h');
      assert PrependedTo(before, mid, key, h' in hashes);
      if h' == h {
        PrependedStep(before, mid, key, h' in hashes);
      } else {
        assert Staging.StagedIn(deletes2, nodes2, h') == mid;
      }
    }
  }

  /** Appending key to one more bucket extends AppendedTo by that bucket's hash. */
  lemma AppendedStep(before: map<int, seq<string>>, after: map<int, seq<string>>, key: string, hashes: set<int>, h: int)
    requires AppendedTo(before, after, key, hashes)
    ensures AppendedTo(before, after[h := Bucket(after, h) + [key]], key, hashes + {h})
  {
    var after' := after[h := Bucket(after, h) + [key]];
    assert after'.Keys == before.Keys + (hashes + {h});
    var old_ := Bucket(before, h);
    assert |old_| <= |after'[h]| && after'[h][..|old_|] == old_ by {
      if h in after {
        assert after'[h][..|old_|] == after[h][..|old_|];
      }
    }
  }

  /** Appending copies of a dictionary word under its own hashes keeps the index valid. */
  lemma IndexedAppended(before: map<int, seq<string>>, after: map<int, seq<string>>, words: map<string, int>, key: string,
                        prefixLength: int, maxDictionaryEditDistance: int, compactMask: bv32)
    requires Indexed(before, words, prefixLength, maxDictionaryEditDistance, compactMask) && key in words
    requires AppendedTo(before, after, key, HashesOf(key, prefixLength, maxDictionaryEditDistance, compactMask))
    ensures Indexed(after, words, prefixLength, maxDictionaryEditDistance, compactMask)
  {
    forall h, k | h in after && 0 <= k < |after[h]|
      ensures after[h][k] in words && h in HashesOf(after[h][k], prefixLength, maxDictionaryEditDistance, compactMask)
    {
      var old_ := Bucket(before, h);
      if k < |old_| {
        assert after[h][k] == after[h][..|old_|][k];
      }
    }
  }

  /**
   * after is before with key removed from the buckets in hashes, and the
   * buckets that this leaves empty erased.
   */
  ghost predicate RemovedFrom(before: map<int, seq<string>>, after: map<int, seq<string>>, key: string, hashes: set<int>) {
    (forall h :: h in after <==> h in before && (h !in hashes || Removed(before[h], key) != [])) &&
    (forall h :: h in after ==> after[h] == if h in hashes then Removed(before[h], key) else before[h])
  }

  /** std::remove followed by erase: s without any occurrence of x, the rest in order. */
  function Removed(s: seq<string>, x: string): (r: seq<string>)
    ensures x !in r && |r| <= |s|
    ensures forall y :: y in r <==> y in s && y != x
    ensures multiset(r) == multiset(s)[x := 0]
  {
    if s == [] then []
    else
      assert s == [s[0]] + s[1..];
      if s[0] == x then Removed(s[1..], x) else [s[0]] + Removed(s[1..], x)
  }

  /** Removing a string that is not there changes nothing. */
  lemma {:induction false} RemovedAbsent(s: seq<string>, x: string)
    requires x !in s
    ensures Removed(s, x) == s
  {
    if s != [] {
      RemovedAbsent(s[1..], x);
      assert s == [s[0]] + s[1..];
    }
  }

  /** Removing key from one more bucket extends RemovedFrom by that bucket's hash. */
  lemma RemovedStep(before: map<int, seq<string>>, after: map<int, seq<string>>, key: string, hashes: set<int>, h: int)
    requires RemovedFrom(before, after, key, hashes)
    ensures h !in after ==> RemovedFrom(before, after, key, hashes + {h}) || h in before
    ensures h in after ==> var vec := Removed(after[h], key);
      RemovedFrom(before, if vec == [] then after - {h} else after[h := vec], key, hashes + {h})
  {
    if h in after {
      if h in hashes {
        RemovedAbsent(after[h], key);
      }
    }
  }

  /** After a dictionary word is removed from the buckets of all its hashes, the index is valid without it. */
  lemma IndexedRemoved(before: map<int, seq<string>>, after: map<int, seq<string>>, words: map<string, int>, key: string,
                       prefixLength: int, maxDictionaryEditDistance: int, compactMask: bv32)
    requires Indexed(before, words, prefixLength, maxDictionaryEditDistance, compactMask)
    requires RemovedFrom(before, after, key, HashesOf(key, prefixLength, maxDictionaryEditDistance, compactMask))
    ensures Indexed(after, words - {key}, prefixLength, maxDictionaryEditDistance, compactMask)
  {
    var hashes := HashesOf(key, prefixLength, maxDictionaryEditDistance, compactMask);
    forall h, k | h in after && 0 <= k < |after[h]|
      ensures after[h][k] in words - {key} &&
        h in HashesOf(after[h][k], prefixLength, maxDictionaryEditDistance, compactMask)
    {
      var w := after[h][k];
      if h in hashes {
        assert w in Removed(before[h], key);
      } else {
        assert w in before[h];
      }
      var i :| 0 <= i < |before[h]| && before[h][i] == w;
    }
  }

  /** The configurations the constructor accepts with compact level 0, as from_stream calls it. */
  predicate ConfigAccepted(c: Persistence.Config) {
    0 <= c.maxDictionaryEditDistance < c.prefixLength && 0 <= c.countThreshold
  }

  class SymSpell {
    const maxDictionaryEditDistance: int32
    const prefixLength: int32
    const countThreshold: int32  // a long member, set from the constructor's int argument
    const compactMask: bv32
    ghost const compactLevel: int
    const distanceAlgorithm: DistanceAlgorithm
    const deletesMaxLoadFactor: real
    var maxDictionaryWordLength: int
    var deletes: map<int, seq<string>>
    var words: map<string, int>
    var belowThresholdWords: map<string, int>
    var bigrams: map<string, int>
    var bigramCountMin: int

    /** The configuration the constructor accepts. */
    ghost predicate ConfigOk() {
      0 <= maxDictionaryEditDistance < prefixLength && 0 <= countThreshold &&
      0 <= compactLevel <= 16 && compactMask == CompactMask(compactLevel)
    }

    ghost predicate Valid()
      reads this
    {
      ConfigOk() &&
      CountsOk(Counts(words, belowThresholdWords), countThreshold) &&
      IsMaxLength(maxDictionaryWordLength, words.Keys) &&
      Indexed(deletes, words, prefixLength, maxDictionaryEditDistance, compactMask)
    }

    ghost function Hashes(w: string): set<int> {
      HashesOf(w, prefixLength, maxDictionaryEditDistance, compactMask)
    }

    constructor Init(maxDictionaryEditDistance: int32, prefixLength: int32, countThreshold: int32,
                     compactLevel: int, distanceAlgorithm: DistanceAlgorithm, deletesMaxLoadFactor: real)
      requires 0 <= maxDictionaryEditDistance < prefixLength && 0 <= countThreshold && 0 <= compactLevel <= 16
      ensures Valid()
      ensures this.maxDictionaryEditDistance == maxDictionaryEditDistance && this.prefixLength == prefixLength
      ensures this.countThreshold == countThreshold && this.compactMask == CompactMask(compactLevel)
      ensures this.distanceAlgorithm == distanceAlgorithm && this.deletesMaxLoadFactor == deletesMaxLoadFactor
      ensures maxDictionaryWordLength == 0 && deletes == map[] && words == map[] && belowThresholdWords == map[]
      ensures bigrams == map[] && bigramCountMin == MAXINT
    {
      this.maxDictionaryEditDistance := maxDictionaryEditDistance;
      this.prefixLength := prefixLength;
      this.countThreshold := countThreshold;
      this.compactLevel := compactLevel;
      this.compactMask := CompactMask(compactLevel);
      this.distanceAlgorithm := distanceAlgorithm;
      this.deletesMaxLoadFactor := deletesMaxLoadFactor;
      maxDictionaryWordLength := 0;
      deletes := map[];
      words := map[];
      belowThresholdWords := map[];
      bigrams := map[];
      bigramCountMin := MAXINT;
    }

    /**
     * The constructor: rejects a negative maximum distance, a prefix length
     * below 1 or not above the maximum distance, a negative count threshold
     * and a compact level above 16; otherwise an empty dictionary.
     */
    static method Create(maxDictionaryEditDistance: int32, prefixLength: int32, countThreshold: int32,
                         compactLevel: int, distanceAlgorithm: DistanceAlgorithm, deletesMaxLoadFactor: real)
      returns (r: Result<SymSpell>)
      requires 0 <= compactLevel <= 255
      ensures r.Failure? <==>
        maxDictionaryEditDistance < 0 || prefixLength < 1 || prefixLength <= maxDictionaryEditDistance ||
        countThreshold < 0 || compactLevel > 16
      ensures r.Failure? ==> r.error.InvalidArgument?
      ensures r.Success? ==>
        fresh(r.value) && r.value.Valid() &&
        r.value.maxDictionaryEditDistance == maxDictionaryEditDistance && r.value.prefixLength == prefixLength &&
        r.value.countThreshold == countThreshold && r.value.compactMask == CompactMask(compactLevel) &&
        r.value.words == map[] && r.value.belowThresholdWords == map[] && r.value.deletes == map[] &&
        r.value.maxDictionaryWordLength == 0
    {
      if maxDictionaryEditDistance < 0 {
        return Failure(InvalidArgument(NegativeDistance));
      }
      if prefixLength < 1 || prefixLength <= maxDictionaryEditDistance {
        return Failure(InvalidArgument(BadPrefixLength));
      }
      if countThreshold < 0 {
        return Failure(InvalidArgument(NegativeThreshold));
      }
      if compactLevel > 16 {
        return Failure(InvalidArgument(BadCompactLevel));
      }
      var s := new SymSpell.Init(maxDictionaryEditDistance, prefixLength, countThreshold, compactLevel,
                                 distanceAlgorithm, deletesMaxLoadFactor);
      return Success(s);
    }

    function WordCount(): int
      reads this
    {
      |words|
    }

    function EntryCount(): int
      reads this
    {
      |deletes|
    }

    /**
     * CreateDictionaryEntryCheck: updates the count maps as Accumulate
     * says, and the maximum word length when the word entered the dictionary.
     */
    method CreateDictionaryEntryCheck(key: string, count: int) returns (r: bool)
      requires Valid() && count <= MAXINT
      modifies this
      ensures Valid()
      ensures (Counts(words, belowThresholdWords), r) ==
        Accumulate(old(Counts(words, belowThresholdWords)), countThreshold, key, count)
      ensures deletes == old(deletes) && bigrams == old(bigrams) && bigramCountMin == old(bigramCountMin)
      ensures r ==> key in words
      ensures old(words.Keys) <= words.Keys
    {
      AccumulateKeepsCountsOk(Counts(words, belowThresholdWords), countThreshold, key, count);
      AccumulateGrows(Counts(words, belowThresholdWords), countThreshold, key, count);
      ghost var before := words.Keys;
      var w, b;
      w, b, r := UpdateCounts(words, belowThresholdWords, countThreshold, key, count);
      words, belowThresholdWords := w, b;
      IndexedGrows(deletes, old(words), words, prefixLength, maxDictionaryEditDistance, compactMask);
      if r {
        UpdateMaxLength(before, key);
      } else {
        assert words.Keys == before;
      }
    }

    /**
     * The counting part of CreateDictionaryEntryCheck, on the two maps:
     * a no-op for a non-positive count under a threshold, accumulation of a
     * word waiting below the threshold and its promotion when it reaches it,
     * accumulation of a dictionary word, and otherwise a new entry in one of
     * the two maps.
     */
    static method UpdateCounts(words: map<string, int>, belowThresholdWords: map<string, int>, countThreshold: int,
                               key: string, count: int)
      returns (words': map<string, int>, belowThresholdWords': map<string, int>, r: bool)
      ensures (Counts(words', belowThresholdWords'), r) ==
        Accumulate(Counts(words, belowThresholdWords), countThreshold, key, count)
    {
      words', belowThresholdWords' := words, belowThresholdWords;
      var c := count;
      if c <= 0 {
        if countThreshold > 0 {
          return words', belowThresholdWords', false;
        }
        c := 0;
      }
      if countThreshold > 1 && key in belowThresholdWords' {
        var total := SaturatingAdd(belowThresholdWords'[key], c);
        if total >= countThreshold {
          belowThresholdWords' := belowThresholdWords' - {key};
        } else {
          belowThresholdWords' := belowThresholdWords'[key := total];
          return words', belowThresholdWords', false;
        }
        c := total;
      } else if key in words' {
        words' := words'[key := SaturatingAdd(words'[key], c)];
        return words', belowThresholdWords', false;
      } else if c < countThreshold {
        belowThresholdWords' := Emplace(belowThresholdWords', key, c);
        return words', belowThresholdWords', false;
      }
      words' := Emplace(words', key, c);
      r := true;
    }

    /**
     * CreateDictionaryEntry: when the word enters the dictionary, it is
     * appended to the bucket of every hash of its prefix deletes, and to no
     * other bucket; otherwise the index is left as it is.
     */
    method CreateDictionaryEntry(key: string, count: int) returns (r: bool)
      requires Valid() && count <= MAXINT
      modifies this
      ensures Valid()
      ensures (Counts(words, belowThresholdWords), r) ==
        Accumulate(old(Counts(words, belowThresholdWords)), countThreshold, key, count)
      ensures !r ==> deletes == old(deletes)
      ensures r ==> AppendedTo(old(deletes), deletes, key, Hashes(key))
      ensures bigrams == old(bigrams) && bigramCountMin == old(bigramCountMin)
    {
      r := CreateDictionaryEntryCheck(key, count);
      if !r {
        return false;
      }
      var edits := EditsPrefix(key, prefixLength, maxDictionaryEditDistance);
      var d := AddToBuckets(deletes, key, edits, compactMask);
      IndexedAppended(deletes, d, words, key, prefixLength, maxDictionaryEditDistance, compactMask);
      deletes := d;
    }

    /** The loop of CreateDictionaryEntry over the deletes: key appended under the hash of each. */
    static method AddToBuckets(deletes: map<int, seq<string>>, key: string, edits: set<string>, compactMask: bv32)
      returns (d: map<int, seq<string>>)
      ensures AppendedTo(deletes, d, key, HashSet(edits, compactMask))
    {
      d := deletes;
      var remaining := edits;
      ghost var done: set<string> := {};
      assert HashSet(done, compactMask) == {};
      while true
        invariant remaining + done == edits && remaining !! done
        invariant AppendedTo(deletes, d, key, HashSet(done, compactMask))
        decreases remaining
      {
        var e;
        if x :| x in remaining {
          e := x;
        } else {
          break;
        }
        var h := GetStringHash(e, compactMask);
        AppendedStep(deletes, d, key, HashSet(done, compactMask), h);
        d := d[h := Bucket(d, h) + [key]];
        HashSetAdd(done, e, compactMask);
        remaining := remaining - {e};
        done := done + {e};
      }
      assert forall x :: x in done <==> x in edits;
      assert done == edits;
    }

    /** Every suggestion staged under a hash is a dictionary word filed under that hash. */
    ghost predicate StagedFor(staging: Staging.SuggestionStage)
      reads this, staging
      requires staging.Valid()
    {
      forall h, k :: 0 <= k < |staging.Staged(h)| ==>
        staging.Staged(h)[k] in words && h in Hashes(staging.Staged(h)[k])
    }

    /**
     * CreateDictionaryEntry with a stage: the same count bookkeeping, but
     * the word is staged under each delete's hash instead of filed, so each
     * hash's staged list gains copies of key at its head.
     */
    method CreateDictionaryEntryStaged(key: string, count: int, staging: Staging.SuggestionStage) returns (r: bool)
      requires Valid() && count <= MAXINT && staging.Valid() && StagedFor(staging)
      modifies this, staging
      ensures Valid() && staging.Valid() && StagedFor(staging)
      ensures (Counts(words, belowThresholdWords), r) ==
        Accumulate(old(Counts(words, belowThresholdWords)), countThreshold, key, count)
      ensures deletes == old(deletes) && bigrams == old(bigrams) && bigramCountMin == old(bigramCountMin)
      ensures !r ==> staging.deletes == old(staging.deletes) && staging.nodes == old(staging.nodes)
      ensures r ==> forall h :: PrependedTo(old(staging.Staged(h)), staging.Staged(h), key, h in Hashes(key))
    {
      r := CreateDictionaryEntryCheck(key, count);
      if !r {
        return false;
      }
      var edits := EditsPrefix(key, prefixLength, maxDictionaryEditDistance);
      StageEdits(staging, key, edits, compactMask);
      forall h, k | 0 <= k < |staging.Staged(h)|
        ensures staging.Staged(h)[k] in words && h in Hashes(staging.Staged(h)[k])
      {
        var before := old(staging.Staged(h));
        var added := |staging.Staged(h)| - |before|;
        if k >= added {
          assert staging.Staged(h)[k] == before[k - added];
        }
      }
    }

    /** The loop of the staged CreateDictionaryEntry: key staged under the hash of each delete. */
    static method StageEdits(staging: Staging.SuggestionStage, key: string, edits: set<string>, compactMask: bv32)
      requires staging.Valid()
      modifies staging
      ensures staging.Valid()
      ensures forall h :: PrependedTo(old(staging.Staged(h)), staging.Staged(h), key, h in HashSet(edits, compactMask))
    {
      ghost var deletes0, nodes0 := staging.deletes, staging.nodes;
      StageAll(staging, key, edits, compactMask, deletes0, nodes0);
      forall h
        ensures PrependedTo(old(staging.Staged(h)), staging.Staged(h), key, h in HashSet(edits, compactMask))
      {
        assert PrependedTo(Staging.StagedIn(deletes0, nodes0, h), Staging.StagedIn(staging.deletes, staging.nodes, h),
                           key, h in HashSet(edits, compactMask));
      }
    }

    /** The loop of StageEdits, against the staging state it started from. */
    static method StageAll(staging: Staging.SuggestionStage, key: string, edits: set<string>, compactMask: bv32,
                           ghost deletes0: map<int, Staging.Entry>, ghost nodes0: seq<Staging.Node>)
      requires staging.Valid() && staging.deletes == deletes0 && staging.nodes == nodes0
      modifies staging
      ensures staging.Valid()
      ensures PrependedEverywhere(deletes0, nodes0, staging.deletes, staging.nodes, key, HashSet(edits, compactMask))
    {
      var remaining := edits;
      ghost var done: set<string> := {};
      assert HashSet(done, compactMask) == {};
      while true
        invariant remaining <= edits && staging.Valid()
        invariant forall x :: x in edits ==> x in done || x in remaining
        invariant done <= edits
        invariant PrependedEverywhere(deletes0, nodes0, staging.deletes, staging.nodes, key, HashSet(done, compactMask))
        decreases remaining
      {
        var e;
        if x :| x in remaining {
          e := x;
        } else {
          break;
        }
        StageOne(staging, key, e, compactMask, deletes0, nodes0, done);
        remaining := remaining - {e};
        done := done + {e};
      }
      assert forall x :: x in done <==> x in edits;
      assert done == edits;
    }

    /** One step of StageEdits: key staged under the hash of delete e. */
    static method StageOne(staging: Staging.SuggestionStage, key: string, e: string, compactMask: bv32,
                           ghost deletes0: map<int, Staging.Entry>, ghost nodes0: seq<Staging.Node>, ghost done: set<string>)
      requires staging.Valid()
      requires PrependedEverywhere(deletes0, nodes0, staging.deletes, staging.nodes, key, HashSet(done, compactMask))
      modifies staging
      ensures staging.Valid()
      ensures PrependedEverywhere(deletes0, nodes0, staging.deletes, staging.nodes, key, HashSet(done + {e}, compactMask))
    {
      var h := GetStringHash(e, compactMask);
      ghost var deletes1, nodes1 := staging.deletes, staging.nodes;
      staging.Add(h, key);
      forall h' | h' != h
        ensures Staging.StagedIn(staging.deletes, staging.nodes, h') == Staging.StagedIn(deletes1, nodes1, h')
      {
        assert staging.Staged(h') == old(staging.Staged(h'));
      }
      PrependedEverywhereStep(deletes0, nodes0, deletes1, nodes1, staging.deletes, staging.nodes, key, HashSet(done, compactMask), h);
      HashSetAdd(done, e, compactMask);
    }

    /**
     * CommitStaged: every staged list is appended to its hash's bucket, and
     * the index stays valid.
     */
    method CommitStaged(staging: Staging.SuggestionStage)
      requires Valid() && staging.Valid() && StagedFor(staging)
      modifies this
      ensures Valid()
      ensures deletes.Keys == old(deletes.Keys) + staging.deletes.Keys
      ensures forall h :: h in deletes ==> deletes[h] == Bucket(old(deletes), h) + staging.Staged(h)
      ensures words == old(words) && belowThresholdWords == old(belowThresholdWords)
      ensures maxDictionaryWordLength == old(maxDictionaryWordLength) && bigrams == old(bigrams)
    {
      var d := staging.CommitTo(deletes);
      forall h, k | h in d && 0 <= k < |d[h]|
        ensures d[h][k] in words && h in Hashes(d[h][k])
      {
        var b := Bucket(deletes, h);
        if k >= |b| {
          assert d[h][k] == staging.Staged(h)[k - |b|];
        } else {
          assert d[h][k] == deletes[h][k];
        }
      }
      deletes := d;
    }

    /**
     * DeleteDictionaryEntry: false when key is not a dictionary word;
     * otherwise the word is erased, the maximum word length recomputed when
     * the word was that long, and the word removed from the bucket of every
     * hash of its prefix deletes, erasing the buckets it leaves empty.
     */
    method DeleteDictionaryEntry(key: string) returns (r: bool)
      requires Valid()
      modifies this
      ensures Valid()
      ensures r <==> key in old(words)
      ensures !r ==> words == old(words) && deletes == old(deletes) && maxDictionaryWordLength == old(maxDictionaryWordLength)
      ensures r ==> words == old(words) - {key} && RemovedFrom(old(deletes), deletes, key, Hashes(key))
      ensures forall h, k :: h in deletes && 0 <= k < |deletes[h]| ==> deletes[h][k] != key
      ensures belowThresholdWords == old(belowThresholdWords) && bigrams == old(bigrams)
    {
      if key !in words {
        return false;
      }
      words := words - {key};
      assert old(words).Keys == words.Keys + {key};
      maxDictionaryWordLength := LengthAfterErase(words, key, maxDictionaryWordLength);
      var edits := EditsPrefix(key, prefixLength, maxDictionaryEditDistance);
      var d := RemoveFromBuckets(deletes, key, edits, compactMask);
      IndexedRemoved(deletes, d, old(words), key, prefixLength, maxDictionaryEditDistance, compactMask);
      deletes := d;
      return true;
    }

    /** The loop of DeleteDictionaryEntry over the deletes. */
    static method RemoveFromBuckets(deletes: map<int, seq<string>>, key: string, edits: set<string>, compactMask: bv32)
      returns (d: map<int, seq<string>>)
      ensures RemovedFrom(deletes, d, key, HashSet(edits, compactMask))
    {
      d := deletes;
      var remaining := edits;
      ghost var done: set<string> := {};
      assert HashSet(done, compactMask) == {};
      while true
        invariant remaining + done == edits && remaining !! done
        invariant RemovedFrom(deletes, d, key, HashSet(done, compactMask))
        decreases remaining
      {
        var e;
        if x :| x in remaining {
          e := x;
        } else {
          break;
        }
        var h := GetStringHash(e, compactMask);
        RemovedStep(deletes, d, key, HashSet(done, compactMask), h);
        HashSetAdd(done, e, compactMask);
        remaining := remaining - {e};
        done := done + {e};
        if h !in d {
          continue;
        }
        var vec := Removed(d[h], key);
        if vec == [] {
          d := d - {h};
        } else {
          d := d[h := vec];
        }
      }
      assert forall x :: x in done <==> x in edits;
      assert done == edits;
    }

    /** The maximum word length once key is erased: recomputed only when key was that long. */
    static method LengthAfterErase(words: map<string, int>, key: string, maxLength: int) returns (n: int)
      requires IsMaxLength(maxLength, words.Keys + {key}) && key !in words
      ensures IsMaxLength(n, words.Keys)
    {
      if |key| == maxLength {
        n := LongestWordLength(words);
      } else {
        n := maxLength;
        assert exists w :: w in words.Keys + {key} && |w| == maxLength;
        assert exists w :: w in words.Keys && |w| == maxLength;
      }
    }

    /** The length of the longest word (std::max_element by size), or 0 when there are none. */
    static method LongestWordLength(words: map<string, int>) returns (n: int)
      ensures IsMaxLength(n, words.Keys)
    {
      n := 0;
      var remaining := words.Keys;
      ghost var seen: set<string> := {};
      while true
        invariant remaining + seen == words.Keys && remaining !! seen
        invariant IsMaxLength(n, seen)
        decreases remaining
      {
        var w;
        if x :| x in remaining {
          w := x;
        } else {
          break;
        }
        if |w| > n {
          n := |w|;
        }
        assert w in seen + {w} && (|w| == n || exists v :: v in seen && |v| == n);
        seen := seen + {w};
        remaining := remaining - {w};
      }
      assert forall x :: x in seen <==> x in words.Keys;
      assert seen == words.Keys;
    }

    /**
     * Lookup's shortcut: the search is skipped when the input is too long
     * for any word within maxEditDistance, when it is a word itself and only
     * the closest suggestions are wanted, or when no edit is allowed.
     */
    ghost predicate Skips(input: string, verbosity: Verbosity, maxEditDistance: int)
      reads this
    {
      |input| - maxEditDistance > maxDictionaryWordLength ||
      (input in words && verbosity != All) ||
      maxEditDistance == 0
    }

    /**
     * What a lookup finds for input, before any recasing: the input itself
     * (as exactTerm) when it is a word, and similar dictionary words, sorted;
     * the input is among them when it is a word not too long for the
     * dictionary; a skipped search finds the input or nothing; Top finds at
     * most one, and Closest only one distance.
     */
    ghost predicate FoundFor(input: string, exactTerm: string, verbosity: Verbosity, maxEditDistance: int,
                             found: seq<SuggestItem>)
      reads this
    {
      var exact := SuggestItem(exactTerm, 0, if input in words then words[input] else 0);
      Sorted(found) &&
      (forall k :: 0 <= k < |found| ==>
        (input in words && found[k] == exact) || Similar(input, found[k], maxEditDistance, words)) &&
      (input in words && |input| - maxEditDistance <= maxDictionaryWordLength ==> exact in found) &&
      (Skips(input, verbosity, maxEditDistance) ==> found == [] || found == [exact]) &&
      (verbosity == Top ==> |found| <= 1) &&
      (verbosity == Closest ==> forall i, j :: 0 <= i < j < |found| ==> found[i].distance == found[j].distance)
    }


    /** The part of Lookup from the exact match to the sort. */
    method Collect(input: string, exactTerm: string, verbosity: Verbosity, maxEditDistance: int)
      returns (found: seq<SuggestItem>, skip: bool)
      requires Valid()
      ensures skip == Skips(input, verbosity, maxEditDistance)
      ensures FoundFor(input, exactTerm, verbosity, maxEditDistance, found)
    {
      found := [];
      skip := |input| - maxEditDistance > maxDictionaryWordLength;
      if !skip && input in words {
        found := [SuggestItem(exactTerm, 0, words[input])];
        if verbosity != All {
          skip := true;
        }
      }
      if maxEditDistance == 0 {
        skip := true;
      }
      if !skip {
        ghost var init := found;
        found := SearchSorted(input, verbosity, maxEditDistance, found, deletes, words, prefixLength, compactMask);
        forall i, j | 0 <= i < j < |found| && verbosity == Closest
          ensures found[i].distance == found[j].distance
        {
          assert found[i] in found && found[j] in found;
        }
      }
    }

    /**
     * Lookup: the suggestions for a word.  An empty dictionary gives none,
     * and a distance beyond the dictionary's is an error.  Otherwise (with
     * transferCasing the input is lowered first) found is what the lookup
     * finds; the result is found, with every term recased after the
     * original input when transferCasing applies to a search, or the unknown
     * input at distance maxEditDistance + 1 when nothing was found and
     * includeUnknown is set.  Recasing fails only for an empty original
     * input with a non-empty term to recase.
     */
    method Lookup(originalInput: string, verbosity: Verbosity, maxEditDistance: int, includeUnknown: bool,
                  transferCasing: bool, align: (string, string) -> string)
      returns (r: Result<seq<SuggestItem>>, ghost found: seq<SuggestItem>)
      requires Valid()
      ensures deletes == map[] ==> r == Success([])
      ensures deletes != map[] && maxEditDistance > maxDictionaryEditDistance ==>
        r == Failure(InvalidArgument(DistanceTooLarge))
      ensures deletes != map[] && maxEditDistance <= maxDictionaryEditDistance ==>
        var input := if transferCasing then Helpers.Lowered(originalInput) else originalInput;
        var skip := Skips(input, verbosity, maxEditDistance);
        FoundFor(input, if transferCasing then originalInput else input, verbosity, maxEditDistance, found) &&
        (r.Failure? <==> transferCasing && !skip && originalInput == [] && exists k :: 0 <= k < |found| && found[k].term != []) &&
        (r.Success? && includeUnknown && found == [] ==> r.value == [SuggestItem(input, maxEditDistance + 1, 0)]) &&
        (r.Success? && !(includeUnknown && found == []) ==>
          if transferCasing && !skip then Recased(originalInput, found, r.value, align) else r.value == found)
    {
      found := [];
      if deletes == map[] {
        return Success([]), found;
      }
      if maxEditDistance > maxDictionaryEditDistance {
        return Failure(InvalidArgument(DistanceTooLarge)), found;
      }
      var input := originalInput;
      if transferCasing {
        input := Helpers.StringLower(originalInput);
      }
      var suggestions, skip := Collect(input, if transferCasing then originalInput else input, verbosity, maxEditDistance);
      found := suggestions;
      if !skip && transferCasing {
        var recased := RecaseTerms(originalInput, suggestions, align);
        if recased.Failure? {
          return Failure(recased.error), found;
        }
        suggestions := recased.value;
      }
      if includeUnknown && suggestions == [] {
        suggestions := [SuggestItem(input, maxEditDistance + 1, 0)];
      }
      r := Success(suggestions);
    }

    /** PurgeBelowThresholdWords: forgets every word waiting below the threshold. */
    method PurgeBelowThresholdWords()
      requires Valid()
      modifies this
      ensures Valid()
      ensures belowThresholdWords == map[]
      ensures words == old(words) && deletes == old(deletes) && maxDictionaryWordLength == old(maxDictionaryWordLength)
    {
      belowThresholdWords := map[];
    }

    /** The emplace path: the maximum word length grows to the new word's length when it is longer. */
    method UpdateMaxLength(ghost before: set<string>, key: string)
      requires IsMaxLength(maxDictionaryWordLength, before) && words.Keys == before + {key}
      modifies `maxDictionaryWordLength
      ensures IsMaxLength(maxDictionaryWordLength, words.Keys)
    {
      if |key| > maxDictionaryWordLength {
        maxDictionaryWordLength := |key|;
      }
      assert forall w :: w in before ==> w in words.Keys;
    }

    // -------------------------------------------------------------------
    // to_stream and from_stream
    // -------------------------------------------------------------------

    /** The state to_stream writes. */
    function Snap(): Persistence.Snapshot
      reads this
    {
      Persistence.Snapshot(
        Persistence.Config(maxDictionaryEditDistance, prefixLength, countThreshold, distanceAlgorithm),
        belowThresholdWords, words, deletesMaxLoadFactor, deletes, bigrams, compactMask,
        maxDictionaryWordLength, bigramCountMin)
    }

    /** o lists the keys of the three hash tables in their iteration order. */
    ghost predicate IteratedBy(o: Persistence.Orders)
      reads this
    {
      Persistence.Enumerates(o.below, belowThresholdWords.Keys) &&
      Persistence.Enumerates(o.words, words.Keys) &&
      Persistence.Enumerates(o.hashes, deletes.Keys)
    }

    /** In a valid dictionary every word of a delete bucket is a dictionary word, so it has a stored position. */
    lemma ValidEncodable(o: Persistence.Orders)
      requires Valid() && IteratedBy(o)
      ensures Persistence.Encodable(Snap(), o)
    {
      forall h, w | h in deletes && w in deletes[h]
        ensures w in words
      {
        var k :| 0 <= k < |deletes[h]| && deletes[h][k] == w;
      }
    }

    /**
     * to_stream: writes the header, the version, the configuration, the
     * tables in their iteration order and the trailing scalars; the
     * dictionary itself is unchanged.
     */
    method ToStream(ser: Persistence.Serializer, o: Persistence.Orders)
      requires Valid() && IteratedBy(o) && Persistence.Encodable(Snap(), o)  // the last follows: ValidEncodable
      modifies ser
      ensures ser.data == old(ser.data) + Persistence.Encode(Snap(), o)
    {
      Persistence.WriteStream(ser, Snap(), o);
    }

    /**
     * What to_stream writes from a valid dictionary, from_stream reads back,
     * whatever follows it in the stream: the constructor accepts the
     * configuration, and the state read is the state written.
     */
    lemma StreamRoundTrip(o: Persistence.Orders, rest: seq<Persistence.Token>)
      requires Valid() && IteratedBy(o)
      requires Persistence.InInt32(maxDictionaryWordLength) && Persistence.InInt64(bigramCountMin)
      ensures Persistence.Encodable(Snap(), o)
      ensures ConfigAccepted(Snap().config)
      ensures Persistence.Decode(Persistence.Encode(Snap(), o) + rest) == Success(Snap())
    {
      ValidEncodable(o);
      Persistence.RoundTrip(Snap(), o, rest);
    }

    /** The object from_stream fills: every field as read, the compact level one that gives the mask read. */
    constructor Restore(s: Persistence.Snapshot, ghost level: int)
      requires Persistence.InInt32(s.config.maxDictionaryEditDistance) && Persistence.InInt32(s.config.prefixLength)
      requires Persistence.InInt32(s.config.countThreshold)
      ensures Snap() == s && compactLevel == level
    {
      maxDictionaryEditDistance := s.config.maxDictionaryEditDistance;
      prefixLength := s.config.prefixLength;
      countThreshold := s.config.countThreshold;
      compactMask := s.compactMask;
      compactLevel := level;
      distanceAlgorithm := s.config.distanceAlgorithm;
      deletesMaxLoadFactor := s.deletesMaxLoadFactor;
      maxDictionaryWordLength := s.maxDictionaryWordLength;
      deletes := s.deletes;
      words := s.words;
      belowThresholdWords := s.belowThresholdWords;
      bigrams := s.bigrams;
      bigramCountMin := s.bigramCountMin;
    }

    /**
     * from_stream: a stream whose header, version or configuration does not
     * read back fails with that error; a configuration the constructor
     * rejects fails with its invalid_argument; otherwise the rest of the
     * stream is read, and a dictionary holding exactly the state read is
     * returned. When that state is the state of some valid dictionary, the
     * dictionary returned is valid too.
     */
    static method FromStream(dse: Persistence.Deserializer) returns (r: Result<SymSpell>)
      requires dse.pos == 0
      modifies dse
      ensures var config := Persistence.DecodeConfig(dse.data);
        if config.Failure? then r == Failure(config.error)
        else if !ConfigAccepted(config.value.0) then r.Failure? && r.error.InvalidArgument?
        else
          var body := Persistence.DecodeBody(dse.data, config.value.1, config.value.0);
          (body.Failure? ==> r == Failure(body.error)) &&
          (body.Success? ==> r.Success? && fresh(r.value) && r.value.Snap() == body.value)
      ensures r.Success? ==> forall v: SymSpell :: v.Valid() && v.Snap() == r.value.Snap() ==> r.value.Valid()
    {
      var config :- Persistence.ReadConfig(dse);
      var checked := Create(config.maxDictionaryEditDistance, config.prefixLength, config.countThreshold, 0,
                            config.distanceAlgorithm, 0.0);
      if checked.Failure? {
        return Failure(checked.error);
      }
      var snap :- Persistence.ReadBody(dse, config);
      ghost var level := if exists l :: 0 <= l <= 16 && CompactMask(l) == snap.compactMask
                         then var l :| 0 <= l <= 16 && CompactMask(l) == snap.compactMask; l
                         else 0;
      var result := new SymSpell.Restore(snap, level);
      forall v: SymSpell | v.Valid() && v.Snap() == result.Snap()
        ensures result.Valid()
      {
        assert 0 <= v.compactLevel <= 16 && CompactMask(v.compactLevel) == snap.compactMask;
      }
      r := Success(result);
    }
  }
}

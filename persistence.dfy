/**
 * The binary layout that SymSpell::to_stream writes and SymSpell::from_stream
 * reads back, and the serializer and deserializer that write and read it.
 *
 * The stream is a sequence of tokens, one per value of a fixed-size type
 * (a character, a size_t, an int64_t count, an int hash, the
 * DistanceAlgorithm enumerator, the double load factor), plus one opaque
 * token for the bigram table, which serializes itself.  Strings and maps are
 * written as a size followed by their elements; the header is written as raw
 * characters without a size.
 */
module Persistence {
  import opened Wrappers
  import opened LibraryTypes

  const TWO_32: int := 0x1_0000_0000
  const TWO_64: int := 0x1_0000_0000_0000_0000

  /** One value of the stream, tagged with the type it was written as. */
  datatype Token =
    | Char(c: char)
    | Size(n: nat)
    | Int64(i: int)
    | Int32(i: int)
    | Enum(code: int)
    | Double(x: real)
    | Bigrams(table: map<string, int>)

  const SerializedHeader: string := "SymSpellCppPy"
  const SerializedVersion: nat := 1

  predicate InInt32(x: int) {
    -TWO_32 / 2 <= x < TWO_32 / 2
  }

  predicate InInt64(x: int) {
    -TWO_64 / 2 <= x < TWO_64 / 2
  }

  /** An integer converted to size_t: reduced modulo 2^64. */
  function ToSize(x: int): (r: nat)
    ensures r < TWO_64
  {
    x % TWO_64
  }

  /** A size_t converted to a 32-bit int: its low 32 bits in two's complement. */
  function SizeToInt32(n: nat): (r: int)
    ensures InInt32(r)
  {
    var low := n % TWO_32;
    if low < TWO_32 / 2 then low else low - TWO_32
  }

  /** A size_t converted to int64_t: two's complement. */
  function SizeToInt64(n: nat): (r: int)
    ensures InInt64(r)
  {
    var low := n % TWO_64;
    if low < TWO_64 / 2 then low else low - TWO_64
  }

  /** An int widened to size_t and narrowed back is the same int. */
  lemma Int32RoundTrip(x: int)
    requires InInt32(x)
    ensures SizeToInt32(ToSize(x)) == x
  {
    if x < 0 {
      assert ToSize(x) == x + TWO_64;
      assert x + TWO_64 == (TWO_32 - 1) * TWO_32 + (x + TWO_32);
    }
  }

  /** An int64_t widened to size_t and read back as int64_t is the same value. */
  lemma Int64RoundTrip(x: int)
    requires InInt64(x)
    ensures SizeToInt64(ToSize(x)) == x
  {
    if x < 0 {
      assert ToSize(x) == x + TWO_64;
    }
  }

  /** The compact mask widened to size_t and narrowed back to 32 bits is unchanged. */
  lemma MaskRoundTrip(m: bv32)
    ensures ((m as int) % TWO_32) as bv32 == m
  {
    assert (m as int) % TWO_32 == m as int;
  }

  ghost predicate Distinct<T>(s: seq<T>) {
    forall i, j :: 0 <= i < j < |s| ==> s[i] != s[j]
  }

  /** order lists every key of keys, each exactly once: a hash table's iteration order. */
  ghost predicate Enumerates<K(!new)>(order: seq<K>, keys: set<K>) {
    Distinct(order) && forall k :: k in order <==> k in keys
  }

  /** A sequence without repetitions has as many elements as its set of elements. */
  lemma {:induction false} DistinctCount<T>(s: seq<T>)
    requires Distinct(s)
    ensures |set x | x in s| == |s|
  {
    if s != [] {
      DistinctCount(s[1..]);
      var rest := set x | x in s[1..];
      assert (set x | x in s) == rest + {s[0]};
      assert s[0] !in rest by {
        forall k | 0 <= k < |s[1..]| ensures s[1..][k] != s[0] {
          assert s[1..][k] == s[k + 1];
        }
      }
    }
  }

  /** An enumeration of a map's keys is as long as the map. */
  lemma EnumeratesCount<K(!new), V>(order: seq<K>, m: map<K, V>)
    requires Enumerates(order, m.Keys)
    ensures |order| == |m|
  {
    DistinctCount(order);
    assert (set x | x in order) == m.Keys;
  }

  /** The entries of m under the keys listed in keys. */
  ghost function Restrict<K, V>(m: map<K, V>, keys: seq<K>): (r: map<K, V>)
    requires forall k :: k in keys ==> k in m
    ensures r.Keys == set k | k in keys
    ensures forall k :: k in r ==> r[k] == m[k]
  {
    map k | k in keys :: m[k]
  }

  /** The first position of x in s. */
  function IndexOf(s: seq<string>, x: string): (r: nat)
    requires x in s
    ensures r < |s| && s[r] == x
  {
    if s[0] == x then 0 else 1 + IndexOf(s[1..], x)
  }

  /** In a sequence without repetitions, the position of s[j] is j. */
  lemma IndexOfDistinct(s: seq<string>, j: nat)
    requires Distinct(s) && j < |s|
    ensures IndexOf(s, s[j]) == j
  {
  }

  // ---------------------------------------------------------------------
  // The layout, as what to_stream writes
  // ---------------------------------------------------------------------

  /** The constructor arguments written after the header and version. */
  datatype Config = Config(maxDictionaryEditDistance: int, prefixLength: int, countThreshold: int,
                           distanceAlgorithm: DistanceAlgorithm)

  /** Everything to_stream writes, in the order it writes it. */
  datatype Snapshot = Snapshot(
    config: Config,
    belowThresholdWords: map<string, int>,
    words: map<string, int>,
    deletesMaxLoadFactor: real,
    deletes: map<int, seq<string>>,
    bigrams: map<string, int>,
    compactMask: bv32,
    maxDictionaryWordLength: int,
    bigramCountMin: int)

  /** The iteration orders of the three hash tables, which fix the order entries are written in. */
  datatype Orders = Orders(below: seq<string>, words: seq<string>, hashes: seq<int>)

  /**
   * What writing needs: the orders enumerate the tables, and every word in
   * a delete bucket is a dictionary word, so that it has a position
   * (words_pos.at throws otherwise).
   */
  ghost predicate Encodable(s: Snapshot, o: Orders) {
    Enumerates(o.below, s.belowThresholdWords.Keys) &&
    Enumerates(o.words, s.words.Keys) &&
    Enumerates(o.hashes, s.deletes.Keys) &&
    forall h, w :: h in s.deletes && w in s.deletes[h] ==> w in s.words
  }

  /** What reading back needs besides: the narrowing conversions lose nothing. */
  ghost predicate InRange(s: Snapshot) {
    InInt32(s.config.maxDictionaryEditDistance) && InInt32(s.config.prefixLength) &&
    InInt32(s.config.countThreshold) && InInt32(s.maxDictionaryWordLength) && InInt64(s.bigramCountMin)
  }

  /** Characters written raw, without a size (the pointer-and-size overload). */
  function Chars(s: string): (r: seq<Token>)
    ensures |r| == |s| && forall i :: 0 <= i < |s| ==> r[i] == Char(s[i])
  {
    seq(|s|, i requires 0 <= i < |s| => Char(s[i]))
  }

  /** A string: its size, then its characters. */
  function EncodeString(s: string): seq<Token> {
    [Size(|s|)] + Chars(s)
  }

  /** The entries of a word-count map in the given order: each key, then its count. */
  function EncodeEntries(m: map<string, int>, order: seq<string>): seq<Token>
    requires forall k :: k in order ==> k in m
  {
    if order == [] then [] else EncodeString(order[0]) + [Int64(m[order[0]])] + EncodeEntries(m, order[1..])
  }

  /** A word-count map: its size, then its entries. */
  function EncodeWordMap(m: map<string, int>, order: seq<string>): seq<Token>
    requires forall k :: k in order ==> k in m
  {
    [Size(|m|)] + EncodeEntries(m, order)
  }

  /** A delete bucket: the position of each of its words in the words order. */
  function EncodePositions(bucket: seq<string>, wordOrder: seq<string>): (r: seq<Token>)
    requires forall w :: w in bucket ==> w in wordOrder
    ensures |r| == |bucket|
  {
    if bucket == [] then [] else [Size(IndexOf(wordOrder, bucket[0]))] + EncodePositions(bucket[1..], wordOrder)
  }

  /** The delete buckets in the given order: each hash, its bucket's size, then the positions. */
  function EncodeBuckets(deletes: map<int, seq<string>>, hashOrder: seq<int>, wordOrder: seq<string>): seq<Token>
    requires forall h :: h in hashOrder ==> h in deletes
    requires forall h, w :: h in deletes && w in deletes[h] ==> w in wordOrder
  {
    if hashOrder == [] then []
    else
      var h := hashOrder[0];
      [Int32(h), Size(|deletes[h]|)] + EncodePositions(deletes[h], wordOrder) +
      EncodeBuckets(deletes, hashOrder[1..], wordOrder)
  }

  /** Header, version, then the constructor arguments, each widened to size_t. */
  function EncodeConfig(c: Config): seq<Token> {
    Chars(SerializedHeader) +
    [Size(SerializedVersion), Size(ToSize(c.maxDictionaryEditDistance)), Size(ToSize(c.prefixLength)),
     Size(ToSize(c.countThreshold)), Enum(AlgorithmCode(c.distanceAlgorithm))]
  }

  /** The deletes section: the number of buckets, the load factor, then the buckets. */
  function EncodeDeletes(deletes: map<int, seq<string>>, loadFactor: real, hashOrder: seq<int>, wordOrder: seq<string>)
    : seq<Token>
    requires forall h :: h in hashOrder ==> h in deletes
    requires forall h, w :: h in deletes && w in deletes[h] ==> w in wordOrder
  {
    [Size(|deletes|), Double(loadFactor)] + EncodeBuckets(deletes, hashOrder, wordOrder)
  }

  /** The trailing scalars: the bigram table, then three values widened to size_t. */
  function EncodeTail(s: Snapshot): seq<Token> {
    [Bigrams(s.bigrams), Size(s.compactMask as int), Size(ToSize(s.maxDictionaryWordLength)),
     Size(ToSize(s.bigramCountMin))]
  }

  /** Everything after the configuration. */
  function EncodeBody(s: Snapshot, o: Orders): seq<Token>
    requires Encodable(s, o)
  {
    EncodeWordMap(s.belowThresholdWords, o.below) + EncodeWordMap(s.words, o.words) +
    EncodeDeletes(s.deletes, s.deletesMaxLoadFactor, o.hashes, o.words) + EncodeTail(s)
  }

  /** The whole stream to_stream writes. */
  function Encode(s: Snapshot, o: Orders): seq<Token>
    requires Encodable(s, o)
  {
    EncodeConfig(s.config) + EncodeBody(s, o)
  }

  // ---------------------------------------------------------------------
  // The layout, as what from_stream reads
  // ---------------------------------------------------------------------

  /** The errors of reading past the configuration: the end of the data, a value of the wrong type, a bad position. */
  predicate ReadError(e: Error) {
    e == Truncated || e == Malformed || e == OutOfRange
  }

  /** The token at pos, and the position after it. */
  function DecodeToken(data: seq<Token>, pos: nat): (r: Result<(Token, nat)>)
    ensures r.Success? <==> pos < |data|
    ensures r.Success? ==> r.value == (data[pos], pos + 1)
    ensures r.Failure? ==> r.error == Truncated
  {
    if pos < |data| then Success((data[pos], pos + 1)) else Failure(Truncated)
  }

  function DecodeSize(data: seq<Token>, pos: nat): (r: Result<(nat, nat)>)
    ensures r.Failure? ==> ReadError(r.error)
  {
    var t :- DecodeToken(data, pos);
    if t.0.Size? then Success((t.0.n, t.1)) else Failure(Malformed)
  }

  function DecodeInt64(data: seq<Token>, pos: nat): (r: Result<(int, nat)>)
    ensures r.Failure? ==> ReadError(r.error)
  {
    var t :- DecodeToken(data, pos);
    if t.0.Int64? then Success((t.0.i, t.1)) else Failure(Malformed)
  }

  function DecodeInt32(data: seq<Token>, pos: nat): (r: Result<(int, nat)>)
    ensures r.Failure? ==> ReadError(r.error)
  {
    var t :- DecodeToken(data, pos);
    if t.0.Int32? then Success((t.0.i, t.1)) else Failure(Malformed)
  }

  function DecodeDouble(data: seq<Token>, pos: nat): (r: Result<(real, nat)>)
    ensures r.Failure? ==> ReadError(r.error)
  {
    var t :- DecodeToken(data, pos);
    if t.0.Double? then Success((t.0.x, t.1)) else Failure(Malformed)
  }

  function DecodeBigrams(data: seq<Token>, pos: nat): (r: Result<(map<string, int>, nat)>)
    ensures r.Failure? ==> ReadError(r.error)
  {
    var t :- DecodeToken(data, pos);
    if t.0.Bigrams? then Success((t.0.table, t.1)) else Failure(Malformed)
  }

  /** A DistanceAlgorithm: only the codes of its two enumerators are accepted. */
  function DecodeAlgorithm(data: seq<Token>, pos: nat): (r: Result<(DistanceAlgorithm, nat)>)
    ensures r.Failure? ==> ReadError(r.error)
  {
    var t :- DecodeToken(data, pos);
    if t.0.Enum? && (t.0.code == 0 || t.0.code == 1) then Success((AlgorithmOfCode(t.0.code), t.1))
    else Failure(Malformed)
  }

  /** The n tokens at pos are all characters. */
  predicate AllChars(data: seq<Token>, pos: nat, n: nat)
    requires pos + n <= |data|
    decreases n
  {
    n == 0 || (data[pos].Char? && AllChars(data, pos + 1, n - 1))
  }

  /** The characters of the n Char tokens at pos. */
  function CharsAt(data: seq<Token>, pos: nat, n: nat): (r: string)
    requires pos + n <= |data| && AllChars(data, pos, n)
    ensures |r| == n && forall i :: 0 <= i < n ==> Char(r[i]) == data[pos + i]
    decreases n
  {
    if n == 0 then [] else [data[pos].c] + CharsAt(data, pos + 1, n - 1)
  }

  /** n raw characters. */
  function DecodeChars(data: seq<Token>, pos: nat, n: nat): (r: Result<(string, nat)>)
    ensures r.Success? ==> r.value.1 == pos + n && |r.value.0| == n
    ensures r.Failure? ==> ReadError(r.error)
  {
    if pos + n > |data| then Failure(Truncated)
    else if AllChars(data, pos, n) then Success((CharsAt(data, pos, n), pos + n))
    else Failure(Malformed)
  }

  function DecodeString(data: seq<Token>, pos: nat): (r: Result<(string, nat)>)
    ensures r.Failure? ==> ReadError(r.error)
  {
    var n :- DecodeSize(data, pos);
    DecodeChars(data, n.1, n.0)
  }

  /**
   * n entries, emplaced into counts (a repeated key keeps its first count);
   * keys lists every key read, repeats included, in the order read.
   */
  function DecodeEntries(data: seq<Token>, pos: nat, n: nat, counts: map<string, int>, keys: seq<string>)
    : (r: Result<((map<string, int>, seq<string>), nat)>)
    ensures r.Failure? ==> ReadError(r.error)
    decreases n
  {
    if n == 0 then Success(((counts, keys), pos))
    else
      var key :- DecodeString(data, pos);
      var count :- DecodeInt64(data, key.1);
      DecodeEntries(data, count.1, n - 1, Emplace(counts, key.0, count.0), keys + [key.0])
  }

  function DecodeWordMap(data: seq<Token>, pos: nat): (r: Result<((map<string, int>, seq<string>), nat)>)
    ensures r.Failure? ==> ReadError(r.error)
  {
    var n :- DecodeSize(data, pos);
    DecodeEntries(data, n.1, n.0, map[], [])
  }

  /** n word positions, each resolved against the words in the order they were read. */
  function DecodePositions(data: seq<Token>, pos: nat, n: nat, wordsPos: seq<string>, bucket: seq<string>)
    : (r: Result<(seq<string>, nat)>)
    ensures r.Failure? ==> ReadError(r.error)
    decreases n
  {
    if n == 0 then Success((bucket, pos))
    else
      var p :- DecodeSize(data, pos);
      if p.0 < |wordsPos| then DecodePositions(data, p.1, n - 1, wordsPos, bucket + [wordsPos[p.0]])
      else Failure(OutOfRange)
  }

  /** n buckets; a hash read again appends to the bucket it already has. */
  function DecodeBuckets(data: seq<Token>, pos: nat, n: nat, wordsPos: seq<string>, deletes: map<int, seq<string>>)
    : (r: Result<(map<int, seq<string>>, nat)>)
    ensures r.Failure? ==> ReadError(r.error)
    decreases n
  {
    if n == 0 then Success((deletes, pos))
    else
      var h :- DecodeInt32(data, pos);
      var size :- DecodeSize(data, h.1);
      var start := if h.0 in deletes then deletes[h.0] else [];
      var bucket :- DecodePositions(data, size.1, size.0, wordsPos, start);
      DecodeBuckets(data, bucket.1, n - 1, wordsPos, deletes[h.0 := bucket.0])
  }

  /** The deletes section: the load factor and the buckets. */
  function DecodeDeletes(data: seq<Token>, pos: nat, wordsPos: seq<string>)
    : (r: Result<((real, map<int, seq<string>>), nat)>)
    ensures r.Failure? ==> ReadError(r.error)
  {
    var size :- DecodeSize(data, pos);
    var loadFactor :- DecodeDouble(data, size.1);
    var deletes :- DecodeBuckets(data, loadFactor.1, size.0, wordsPos, map[]);
    Success(((loadFactor.0, deletes.0), deletes.1))
  }

  /** The trailing scalars, each narrowed from size_t to its field's type. */
  function DecodeTail(data: seq<Token>, pos: nat): (r: Result<((map<string, int>, bv32, int, int), nat)>)
    ensures r.Failure? ==> ReadError(r.error)
  {
    var bigrams :- DecodeBigrams(data, pos);
    var compactMask :- DecodeSize(data, bigrams.1);
    var maxLength :- DecodeSize(data, compactMask.1);
    var bigramCountMin :- DecodeSize(data, maxLength.1);
    Success(((bigrams.0, (compactMask.0 % TWO_32) as bv32, SizeToInt32(maxLength.0), SizeToInt64(bigramCountMin.0)),
             bigramCountMin.1))
  }

  /**
   * Header, version and constructor arguments: a stream that does not start
   * with the header is rejected as InvalidHeader, one whose next value is not
   * version 1 as InvalidVersion.
   */
  function DecodeConfig(data: seq<Token>): (r: Result<(Config, nat)>)
    ensures r.Success? ==>
      var c := r.value.0;
      InInt32(c.maxDictionaryEditDistance) && InInt32(c.prefixLength) && InInt32(c.countThreshold)
  {
    var header := DecodeChars(data, 0, |SerializedHeader|);
    if !(header.Success? && header.value.0 == SerializedHeader) then Failure(InvalidHeader)
    else
      var version := DecodeSize(data, header.value.1);
      if !(version.Success? && version.value.0 == SerializedVersion) then Failure(InvalidVersion)
      else
        var maxDistance :- DecodeSize(data, version.value.1);
        var prefixLength :- DecodeSize(data, maxDistance.1);
        var countThreshold :- DecodeSize(data, prefixLength.1);
        var algorithm :- DecodeAlgorithm(data, countThreshold.1);
        Success((Config(SizeToInt32(maxDistance.0), SizeToInt32(prefixLength.0), SizeToInt32(countThreshold.0),
                        algorithm.0), algorithm.1))
  }

  /** Everything after the configuration; what follows the last value is not read. */
  function DecodeBody(data: seq<Token>, pos: nat, config: Config): (r: Result<Snapshot>)
    ensures r.Failure? ==> ReadError(r.error)
  {
    var below :- DecodeWordMap(data, pos);
    var words :- DecodeWordMap(data, below.1);
    var deletes :- DecodeDeletes(data, words.1, words.0.1);
    var tail :- DecodeTail(data, deletes.1);
    Success(Snapshot(config, below.0.0, words.0.0, deletes.0.0, deletes.0.1, tail.0.0, tail.0.1, tail.0.2, tail.0.3))
  }

  function Decode(data: seq<Token>): Result<Snapshot> {
    var config :- DecodeConfig(data);
    DecodeBody(data, config.1, config.0)
  }

  // ---------------------------------------------------------------------
  // Round trip
  // ---------------------------------------------------------------------

  /** data holds tokens starting at pos. */
  ghost predicate At(data: seq<Token>, pos: nat, tokens: seq<Token>) {
    pos + |tokens| <= |data| && forall j :: 0 <= j < |tokens| ==> data[pos + j] == tokens[j]
  }

  /** The tokens one by one. */
  lemma AtTokens(data: seq<Token>, pos: nat, tokens: seq<Token>)
    requires At(data, pos, tokens)
    ensures forall j :: pos <= j < pos + |tokens| ==> data[j] == tokens[j - pos]
  {
    forall j | pos <= j < pos + |tokens|
      ensures data[j] == tokens[j - pos]
    {
      assert data[pos + (j - pos)] == tokens[j - pos];
    }
  }

  lemma AtSplit(data: seq<Token>, pos: nat, a: seq<Token>, b: seq<Token>)
    requires At(data, pos, a + b)
    ensures At(data, pos, a) && At(data, pos + |a|, b)
  {
    forall j | 0 <= j < |a|
      ensures data[pos + j] == a[j]
    {
      assert (a + b)[j] == a[j];
    }
    forall j | 0 <= j < |b|
      ensures data[pos + |a| + j] == b[j]
    {
      assert (a + b)[|a| + j] == b[j];
      assert data[pos + (|a| + j)] == (a + b)[|a| + j];
    }
  }

  /** AllChars is the check that every one of the n tokens is a character. */
  lemma {:induction false} AllCharsIff(data: seq<Token>, pos: nat, n: nat)
    requires pos + n <= |data|
    ensures AllChars(data, pos, n) <==> forall i :: pos <= i < pos + n ==> data[i].Char?
    decreases n
  {
    if n > 0 {
      AllCharsIff(data, pos + 1, n - 1);
    }
  }

  /** Tokens that are the characters of s read back as s. */
  lemma {:induction false} CharsAtOf(data: seq<Token>, pos: nat, s: string)
    requires pos + |s| <= |data| && forall j :: 0 <= j < |s| ==> data[pos + j] == Char(s[j])
    ensures AllChars(data, pos, |s|) && CharsAt(data, pos, |s|) == s
  {
    forall i | pos <= i < pos + |s|
      ensures data[i].Char?
    {
      assert data[pos + (i - pos)] == Char(s[i - pos]);
    }
    AllCharsIff(data, pos, |s|);
    var r := CharsAt(data, pos, |s|);
    assert forall i :: 0 <= i < |s| ==> Char(r[i]) == Char(s[i]);
  }

  lemma CharsRoundTrip(data: seq<Token>, pos: nat, s: string)
    requires At(data, pos, Chars(s))
    ensures DecodeChars(data, pos, |s|) == Success((s, pos + |s|))
  {
    CharsAtOf(data, pos, s);
  }

  lemma StringRoundTrip(data: seq<Token>, pos: nat, s: string)
    requires At(data, pos, EncodeString(s))
    ensures DecodeString(data, pos) == Success((s, pos + |EncodeString(s)|))
  {
    AtSplit(data, pos, [Size(|s|)], Chars(s));
    AtTokens(data, pos, [Size(|s|)]);
    CharsRoundTrip(data, pos + 1, s);
  }

  /** Without its first element, a sequence without repetitions still has none, nor that element. */
  lemma DistinctTail<T>(s: seq<T>)
    requires Distinct(s) && s != []
    ensures Distinct(s[1..]) && s[0] !in s[1..]
  {
    assert forall i :: 0 <= i < |s[1..]| ==> s[1..][i] == s[i + 1];
  }

  /** Restricting to a list of keys: the first key's entry, then the rest. */
  lemma RestrictCons<K, V>(acc: map<K, V>, m: map<K, V>, keys: seq<K>)
    requires keys != [] && forall k :: k in keys ==> k in m
    ensures acc[keys[0] := m[keys[0]]] + Restrict(m, keys[1..]) == acc + Restrict(m, keys)
  {
    assert keys == [keys[0]] + keys[1..];
  }

  /** A size token reads back as its value. */
  lemma SizeAt(data: seq<Token>, pos: nat, n: nat)
    requires At(data, pos, [Size(n)])
    ensures DecodeSize(data, pos) == Success((n, pos + 1))
  {
    assert data[pos + 0] == [Size(n)][0];
  }

  /** One step of reading entries: a key and its count, emplaced. */
  lemma EntriesStep(data: seq<Token>, pos: nat, n: nat, counts: map<string, int>, keys: seq<string>,
                    key: string, count: int, mid: nat, next: nat, rest: nat, counts': map<string, int>)
    requires n > 0 && rest == n - 1 && counts' == Emplace(counts, key, count)
    requires DecodeString(data, pos) == Success((key, mid)) && DecodeInt64(data, mid) == Success((count, next))
    ensures DecodeEntries(data, pos, n, counts, keys) == DecodeEntries(data, next, rest, counts', keys + [key])
  {
  }

  /** Restricting a map to an enumeration of its keys gives the map back. */
  lemma RestrictAll<K(!new), V>(m: map<K, V>, order: seq<K>)
    requires Enumerates(order, m.Keys)
    ensures map[] + Restrict(m, order) == m
  {
  }

  /** One entry reads back as written: the key, then the count. */
  lemma EntryRoundTrip(data: seq<Token>, pos: nat, key: string, count: int)
    requires At(data, pos, EncodeString(key) + [Int64(count)])
    ensures DecodeString(data, pos) == Success((key, pos + |EncodeString(key)|))
    ensures DecodeInt64(data, pos + |EncodeString(key)|) == Success((count, pos + |EncodeString(key)| + 1))
  {
    AtSplit(data, pos, EncodeString(key), [Int64(count)]);
    AtTokens(data, pos + |EncodeString(key)|, [Int64(count)]);
    StringRoundTrip(data, pos, key);
  }

  /** counts after emplacing the entries of order one by one: a key already there keeps its count. */
  ghost function EmplaceAll(counts: map<string, int>, m: map<string, int>, order: seq<string>): map<string, int>
    requires forall k :: k in order ==> k in m
    decreases |order|
  {
    if order == [] then counts else EmplaceAll(Emplace(counts, order[0], m[order[0]]), m, order[1..])
  }

  /** Emplacing keys that are distinct and new adds exactly their entries. */
  lemma {:induction false} EmplaceAllFresh(counts: map<string, int>, m: map<string, int>, order: seq<string>)
    requires forall k :: k in order ==> k in m
    requires Distinct(order) && forall k :: k in order ==> k !in counts
    ensures EmplaceAll(counts, m, order) == counts + Restrict(m, order)
    decreases |order|
  {
    if order == [] {
      assert counts + Restrict(m, order) == counts;
    } else {
      var k := order[0];
      assert Emplace(counts, k, m[k]) == counts[k := m[k]];
      DistinctTail(order);
      EmplaceAllFresh(counts[k := m[k]], m, order[1..]);
      RestrictCons(counts, m, order);
    }
  }

  /** keys after appending the keys of order one by one. */
  ghost function AppendAll(keys: seq<string>, order: seq<string>): (r: seq<string>)
    decreases |order|
  {
    if order == [] then keys else AppendAll(keys + [order[0]], order[1..])
  }

  lemma {:induction false} AppendAllIs(keys: seq<string>, order: seq<string>)
    ensures AppendAll(keys, order) == keys + order
    decreases |order|
  {
    if order == [] {
      assert keys + order == keys;
    } else {
      AppendAllIs(keys + [order[0]], order[1..]);
      assert keys + [order[0]] + order[1..] == keys + order;
    }
  }

  /** data holds the entries of order at pos. */
  ghost predicate EntriesWritten(data: seq<Token>, pos: nat, m: map<string, int>, order: seq<string>) {
    (forall k :: k in order ==> k in m) && At(data, pos, EncodeEntries(m, order))
  }

  /** After the first entry, the rest are written in the same way, and reading it emplaces it. */
  lemma EntriesNext(data: seq<Token>, pos: nat, m: map<string, int>, order: seq<string>,
                    counts: map<string, int>, keys: seq<string>)
    requires EntriesWritten(data, pos, m, order) && order != []
    ensures EntriesWritten(data, pos + |EncodeString(order[0])| + 1, m, order[1..])
    ensures pos + |EncodeString(order[0])| + 1 + |EncodeEntries(m, order[1..])| == pos + |EncodeEntries(m, order)|
    ensures DecodeEntries(data, pos, |order|, counts, keys) ==
            DecodeEntries(data, pos + |EncodeString(order[0])| + 1, |order[1..]|,
                          Emplace(counts, order[0], m[order[0]]), keys + [order[0]])
  {
    var k := order[0];
    var first := EncodeString(k) + [Int64(m[k])];
    assert EncodeEntries(m, order) == first + EncodeEntries(m, order[1..]);
    AtSplit(data, pos, first, EncodeEntries(m, order[1..]));
    EntryRoundTrip(data, pos, k, m[k]);
    EntriesStep(data, pos, |order|, counts, keys, k, m[k], pos + |EncodeString(k)|, pos + |EncodeString(k)| + 1,
                |order[1..]|, Emplace(counts, k, m[k]));
  }

  /**
   * Reading the entries written in order emplaces them one by one into the
   * accumulated map, appends their keys to the keys read, and ends right after them.
   */
  lemma {:induction false} EntriesRoundTrip(data: seq<Token>, pos: nat, m: map<string, int>, order: seq<string>,
                                            counts: map<string, int>, keys: seq<string>, end: nat)
    requires EntriesWritten(data, pos, m, order) && end == pos + |EncodeEntries(m, order)|
    ensures DecodeEntries(data, pos, |order|, counts, keys) ==
            Success(((EmplaceAll(counts, m, order), AppendAll(keys, order)), end))
    decreases order
  {
    if order == [] {
      assert EncodeEntries(m, order) == [];
      assert end == pos;
    } else {
      var k, rest := order[0], order[1..];
      EntriesNext(data, pos, m, order, counts, keys);
      EntriesRoundTrip(data, pos + |EncodeString(k)| + 1, m, rest, Emplace(counts, k, m[k]), keys + [k], end);
    }
  }

  /** Emplacing the entries of an enumeration of m into an empty map gives m, and the keys in that order. */
  lemma EmplaceEnumeration(m: map<string, int>, order: seq<string>)
    requires Enumerates(order, m.Keys)
    ensures EmplaceAll(map[], m, order) == m && AppendAll([], order) == order
  {
    EmplaceAllFresh(map[], m, order);
    RestrictAll(m, order);
    AppendAllIs([], order);
    assert [] + order == order;
  }

  /** The entries of a word map, written after its size, read back as the map and its enumeration. */
  lemma WordMapEntries(data: seq<Token>, pos: nat, m: map<string, int>, order: seq<string>)
    requires Enumerates(order, m.Keys)
    requires At(data, pos, EncodeWordMap(m, order))
    ensures DecodeSize(data, pos) == Success((|order|, pos + 1))
    ensures DecodeEntries(data, pos + 1, |order|, map[], []) ==
            Success(((m, order), pos + |EncodeWordMap(m, order)|))
  {
    var size := [Size(|m|)];
    assert EncodeWordMap(m, order) == size + EncodeEntries(m, order);
    AtSplit(data, pos, size, EncodeEntries(m, order));
    SizeAt(data, pos, |m|);
    EnumeratesCount(order, m);
    EntriesFromEmpty(data, pos + 1, m, order);
  }

  /** The entries of an enumerated map, read into an empty map, give back the map and its enumeration. */
  lemma EntriesFromEmpty(data: seq<Token>, start: nat, m: map<string, int>, order: seq<string>)
    requires Enumerates(order, m.Keys)
    requires At(data, start, EncodeEntries(m, order))
    ensures DecodeEntries(data, start, |order|, map[], []) ==
            Success(((m, order), start + |EncodeEntries(m, order)|))
  {
    EntriesRoundTrip(data, start, m, order, map[], [], start + |EncodeEntries(m, order)|);
    EmplaceEnumeration(m, order);
  }

  lemma WordMapRoundTrip(data: seq<Token>, pos: nat, m: map<string, int>, order: seq<string>, end: nat)
    requires Enumerates(order, m.Keys)
    requires At(data, pos, EncodeWordMap(m, order)) && end == pos + |EncodeWordMap(m, order)|
    ensures DecodeWordMap(data, pos) == Success(((m, order), end))
  {
    WordMapEntries(data, pos, m, order);
  }

  /** Reading the positions written for a bucket gives back its words, in order. */
  lemma {:induction false} PositionsRoundTrip(data: seq<Token>, pos: nat, bucket: seq<string>, wordOrder: seq<string>,
                                              start: seq<string>)
    requires forall w :: w in bucket ==> w in wordOrder
    requires At(data, pos, EncodePositions(bucket, wordOrder))
    ensures DecodePositions(data, pos, |bucket|, wordOrder, start) == Success((start + bucket, pos + |bucket|))
    decreases bucket
  {
    if bucket == [] {
      assert start + bucket == start;
    } else {
      var w := bucket[0];
      AtSplit(data, pos, [Size(IndexOf(wordOrder, w))], EncodePositions(bucket[1..], wordOrder));
      AtTokens(data, pos, [Size(IndexOf(wordOrder, w))]);
      PositionsRoundTrip(data, pos + 1, bucket[1..], wordOrder, start + [w]);
      assert start + [w] + bucket[1..] == start + bucket;
    }
  }

  /** One bucket reads back as written: the hash, the size, then the words. */
  lemma BucketRoundTrip(data: seq<Token>, pos: nat, h: int, bucket: seq<string>, wordOrder: seq<string>)
    requires forall w :: w in bucket ==> w in wordOrder
    requires At(data, pos, [Int32(h), Size(|bucket|)] + EncodePositions(bucket, wordOrder))
    ensures DecodeInt32(data, pos) == Success((h, pos + 1))
    ensures DecodeSize(data, pos + 1) == Success((|bucket|, pos + 2))
    ensures DecodePositions(data, pos + 2, |bucket|, wordOrder, []) == Success((bucket, pos + 2 + |bucket|))
  {
    AtSplit(data, pos, [Int32(h), Size(|bucket|)], EncodePositions(bucket, wordOrder));
    AtTokens(data, pos, [Int32(h), Size(|bucket|)]);
    PositionsRoundTrip(data, pos + 2, bucket, wordOrder, []);
    assert [] + bucket == bucket;
  }

  /** One step of reading buckets: a hash, a size and that many positions, into a bucket not read before. */
  lemma BucketsStep(data: seq<Token>, pos: nat, n: nat, wordsPos: seq<string>, deletes: map<int, seq<string>>,
                    h: int, size: nat, bucket: seq<string>)
    requires n > 0 && h !in deletes
    requires DecodeInt32(data, pos) == Success((h, pos + 1)) && DecodeSize(data, pos + 1) == Success((size, pos + 2))
    requires DecodePositions(data, pos + 2, size, wordsPos, []) == Success((bucket, pos + 2 + size))
    ensures DecodeBuckets(data, pos, n, wordsPos, deletes) ==
            DecodeBuckets(data, pos + 2 + size, n - 1, wordsPos, deletes[h := bucket])
  {
  }

  /** The first bucket written reads back, and the rest of the buckets follow it. */
  lemma BucketsHead(data: seq<Token>, pos: nat, deletes: map<int, seq<string>>, hashOrder: seq<int>,
                    wordOrder: seq<string>, acc: map<int, seq<string>>)
    requires hashOrder != [] && hashOrder[0] !in acc
    requires forall h :: h in hashOrder ==> h in deletes
    requires forall h, w :: h in deletes && w in deletes[h] ==> w in wordOrder
    requires At(data, pos, EncodeBuckets(deletes, hashOrder, wordOrder))
    ensures At(data, pos + 2 + |deletes[hashOrder[0]]|, EncodeBuckets(deletes, hashOrder[1..], wordOrder))
    ensures pos + 2 + |deletes[hashOrder[0]]| + |EncodeBuckets(deletes, hashOrder[1..], wordOrder)| ==
            pos + |EncodeBuckets(deletes, hashOrder, wordOrder)|
    ensures DecodeBuckets(data, pos, |hashOrder|, wordOrder, acc) ==
            DecodeBuckets(data, pos + 2 + |deletes[hashOrder[0]]|, |hashOrder[1..]|, wordOrder,
                          acc[hashOrder[0] := deletes[hashOrder[0]]])
  {
    var h := hashOrder[0];
    var b := deletes[h];
    var first := [Int32(h), Size(|b|)] + EncodePositions(b, wordOrder);
    var tail := EncodeBuckets(deletes, hashOrder[1..], wordOrder);
    assert EncodeBuckets(deletes, hashOrder, wordOrder) == first + tail;
    AtSplit(data, pos, first, tail);
    BucketRoundTrip(data, pos, h, b, wordOrder);
    BucketsStep(data, pos, |hashOrder|, wordOrder, acc, h, |b|, b);
  }

  /** data holds the buckets of hashOrder at pos, none of them already in acc. */
  ghost predicate BucketsWritten(data: seq<Token>, pos: nat, deletes: map<int, seq<string>>, hashOrder: seq<int>,
                                 wordOrder: seq<string>, acc: map<int, seq<string>>) {
    && (forall h :: h in hashOrder ==> h in deletes)
    && Distinct(hashOrder) && (forall h :: h in hashOrder ==> h !in acc)
    && (forall h, w :: h in deletes && w in deletes[h] ==> w in wordOrder)
    && At(data, pos, EncodeBuckets(deletes, hashOrder, wordOrder))
  }

  /** After the first bucket, the rest are written in the same way, and reading it extends acc by it. */
  lemma BucketsNext(data: seq<Token>, pos: nat, deletes: map<int, seq<string>>, hashOrder: seq<int>,
                    wordOrder: seq<string>, acc: map<int, seq<string>>)
    requires BucketsWritten(data, pos, deletes, hashOrder, wordOrder, acc) && hashOrder != []
    ensures BucketsWritten(data, pos + 2 + |deletes[hashOrder[0]]|, deletes, hashOrder[1..], wordOrder,
                           acc[hashOrder[0] := deletes[hashOrder[0]]])
    ensures pos + 2 + |deletes[hashOrder[0]]| + |EncodeBuckets(deletes, hashOrder[1..], wordOrder)| ==
            pos + |EncodeBuckets(deletes, hashOrder, wordOrder)|
    ensures DecodeBuckets(data, pos, |hashOrder|, wordOrder, acc) ==
            DecodeBuckets(data, pos + 2 + |deletes[hashOrder[0]]|, |hashOrder[1..]|, wordOrder,
                          acc[hashOrder[0] := deletes[hashOrder[0]]])
    ensures acc[hashOrder[0] := deletes[hashOrder[0]]] + Restrict(deletes, hashOrder[1..]) ==
            acc + Restrict(deletes, hashOrder)
  {
    BucketsHead(data, pos, deletes, hashOrder, wordOrder, acc);
    DistinctTail(hashOrder);
    RestrictCons(acc, deletes, hashOrder);
  }

  /**
   * Reading the buckets written in order adds exactly those buckets to the
   * accumulated map: the result is acc with the buckets of hashOrder, and
   * reading ends right after them.
   */
  lemma {:induction false} BucketsRoundTrip(data: seq<Token>, pos: nat, deletes: map<int, seq<string>>,
                                            hashOrder: seq<int>, wordOrder: seq<string>, acc: map<int, seq<string>>,
                                            result: map<int, seq<string>>, end: nat)
    requires BucketsWritten(data, pos, deletes, hashOrder, wordOrder, acc)
    requires result == acc + Restrict(deletes, hashOrder) && end == pos + |EncodeBuckets(deletes, hashOrder, wordOrder)|
    ensures DecodeBuckets(data, pos, |hashOrder|, wordOrder, acc) == Success((result, end))
    decreases hashOrder
  {
    if hashOrder == [] {
      assert acc + Restrict(deletes, hashOrder) == acc;
      assert EncodeBuckets(deletes, hashOrder, wordOrder) == [];
      assert result == acc && end == pos;
    } else {
      var h, rest := hashOrder[0], hashOrder[1..];
      BucketsNext(data, pos, deletes, hashOrder, wordOrder, acc);
      BucketsRoundTrip(data, pos + 2 + |deletes[h]|, deletes, rest, wordOrder, acc[h := deletes[h]], result, end);
    }
  }

  /** A size and a double read back as their values. */
  lemma SizeDoubleAt(data: seq<Token>, pos: nat, n: nat, x: real)
    requires At(data, pos, [Size(n), Double(x)])
    ensures DecodeSize(data, pos) == Success((n, pos + 1)) && DecodeDouble(data, pos + 1) == Success((x, pos + 2))
  {
    AtTokens(data, pos, [Size(n), Double(x)]);
  }

  /** The deletes section is its size, the load factor, then that many buckets read into an empty map. */
  lemma DeletesUnfold(data: seq<Token>, pos: nat, n: nat, loadFactor: real, wordsPos: seq<string>,
                      deletes: map<int, seq<string>>, end: nat, start: nat, count: nat)
    requires DecodeSize(data, pos) == Success((n, pos + 1)) && DecodeDouble(data, pos + 1) == Success((loadFactor, pos + 2))
    requires start == pos + 2 && count == n
    requires DecodeBuckets(data, start, count, wordsPos, map[]) == Success((deletes, end))
    ensures DecodeDeletes(data, pos, wordsPos) == Success(((loadFactor, deletes), end))
  {
  }

  lemma DeletesRoundTrip(data: seq<Token>, pos: nat, deletes: map<int, seq<string>>, loadFactor: real,
                         hashOrder: seq<int>, wordOrder: seq<string>)
    requires Enumerates(hashOrder, deletes.Keys)
    requires forall h, w :: h in deletes && w in deletes[h] ==> w in wordOrder
    requires At(data, pos, EncodeDeletes(deletes, loadFactor, hashOrder, wordOrder))
    ensures DecodeDeletes(data, pos, wordOrder) ==
      Success(((loadFactor, deletes), pos + |EncodeDeletes(deletes, loadFactor, hashOrder, wordOrder)|))
  {
    var prefix := [Size(|deletes|), Double(loadFactor)];
    var buckets := EncodeBuckets(deletes, hashOrder, wordOrder);
    var end := pos + |EncodeDeletes(deletes, loadFactor, hashOrder, wordOrder)|;
    assert EncodeDeletes(deletes, loadFactor, hashOrder, wordOrder) == prefix + buckets;
    AtSplit(data, pos, prefix, buckets);
    SizeDoubleAt(data, pos, |deletes|, loadFactor);
    EnumeratesCount(hashOrder, deletes);
    RestrictAll(deletes, hashOrder);
    BucketsRoundTrip(data, pos + |prefix|, deletes, hashOrder, wordOrder, map[], deletes, end);
    DeletesUnfold(data, pos, |deletes|, loadFactor, wordOrder, deletes, end, pos + |prefix|, |hashOrder|);
  }

  lemma TailRoundTrip(data: seq<Token>, pos: nat, s: Snapshot)
    requires InInt32(s.maxDictionaryWordLength) && InInt64(s.bigramCountMin)
    requires At(data, pos, EncodeTail(s))
    ensures DecodeTail(data, pos) ==
      Success(((s.bigrams, s.compactMask, s.maxDictionaryWordLength, s.bigramCountMin), pos + 4))
  {
    AtTokens(data, pos, EncodeTail(s));
    Int32RoundTrip(s.maxDictionaryWordLength);
    Int64RoundTrip(s.bigramCountMin);
    MaskRoundTrip(s.compactMask);
  }

  /** The configuration reads back as written, and reading stops right after it. */
  lemma ConfigRoundTrip(data: seq<Token>, c: Config)
    requires InInt32(c.maxDictionaryEditDistance) && InInt32(c.prefixLength) && InInt32(c.countThreshold)
    requires At(data, 0, EncodeConfig(c))
    ensures DecodeConfig(data) == Success((c, |EncodeConfig(c)|))
  {
    var scalars := [Size(SerializedVersion), Size(ToSize(c.maxDictionaryEditDistance)), Size(ToSize(c.prefixLength)),
                    Size(ToSize(c.countThreshold)), Enum(AlgorithmCode(c.distanceAlgorithm))];
    AtSplit(data, 0, Chars(SerializedHeader), scalars);
    CharsRoundTrip(data, 0, SerializedHeader);
    AtTokens(data, |SerializedHeader|, scalars);
    Int32RoundTrip(c.maxDictionaryEditDistance);
    Int32RoundTrip(c.prefixLength);
    Int32RoundTrip(c.countThreshold);
    AlgorithmCodeRoundTrip(c.distanceAlgorithm);
  }

  /** A sequence in four parts is written part after part. */
  lemma AtSplit4(data: seq<Token>, pos: nat, a: seq<Token>, b: seq<Token>, c: seq<Token>, d: seq<Token>)
    requires At(data, pos, a + b + c + d)
    ensures At(data, pos, a) && At(data, pos + |a|, b) && At(data, pos + |a| + |b|, c)
    ensures At(data, pos + |a| + |b| + |c|, d)
  {
    AtSplit(data, pos, a + b + c, d);
    AtSplit(data, pos, a + b, c);
    AtSplit(data, pos, a, b);
  }

  /** The body is the two word maps, the deletes section and the tail, read one after the other. */
  lemma BodyUnfold(data: seq<Token>, pos: nat, config: Config,
                   below: map<string, int>, belowOrder: seq<string>, p1: nat,
                   words: map<string, int>, wordOrder: seq<string>, p2: nat,
                   loadFactor: real, deletes: map<int, seq<string>>, p3: nat,
                   tail: (map<string, int>, bv32, int, int), p4: nat)
    requires DecodeWordMap(data, pos) == Success(((below, belowOrder), p1))
    requires DecodeWordMap(data, p1) == Success(((words, wordOrder), p2))
    requires DecodeDeletes(data, p2, wordOrder) == Success(((loadFactor, deletes), p3))
    requires DecodeTail(data, p3) == Success((tail, p4))
    ensures DecodeBody(data, pos, config) ==
            Success(Snapshot(config, below, words, loadFactor, deletes, tail.0, tail.1, tail.2, tail.3))
  {
  }

  /** The body reads back as the snapshot it was written from. */
  lemma BodyRoundTrip(data: seq<Token>, pos: nat, s: Snapshot, o: Orders)
    requires Encodable(s, o) && InRange(s)
    requires At(data, pos, EncodeBody(s, o))
    ensures DecodeBody(data, pos, s.config) == Success(s)
  {
    var below := EncodeWordMap(s.belowThresholdWords, o.below);
    var words := EncodeWordMap(s.words, o.words);
    var deletes := EncodeDeletes(s.deletes, s.deletesMaxLoadFactor, o.hashes, o.words);
    AtSplit4(data, pos, below, words, deletes, EncodeTail(s));
    SectionsRoundTrip(data, pos, s, o, pos + |below|, pos + |below| + |words|, pos + |below| + |words| + |deletes|);
  }

  /** Every word of a bucket of an encodable snapshot has a place in the enumeration of the words. */
  lemma BucketWordsEnumerated(s: Snapshot, o: Orders)
    requires Encodable(s, o)
    ensures forall h, w :: h in s.deletes && w in s.deletes[h] ==> w in o.words
  {
    forall h, w | h in s.deletes && w in s.deletes[h]
      ensures w in o.words
    {
      assert w in s.words.Keys;
    }
  }

  /** The deletes section of an encodable snapshot reads back as its deletes and load factor. */
  lemma DeletesSection(data: seq<Token>, pos: nat, s: Snapshot, o: Orders, end: nat)
    requires Encodable(s, o)
    requires At(data, pos, EncodeDeletes(s.deletes, s.deletesMaxLoadFactor, o.hashes, o.words))
    requires end == pos + |EncodeDeletes(s.deletes, s.deletesMaxLoadFactor, o.hashes, o.words)|
    ensures DecodeDeletes(data, pos, o.words) == Success(((s.deletesMaxLoadFactor, s.deletes), end))
  {
    BucketWordsEnumerated(s, o);
    DeletesRoundTrip(data, pos, s.deletes, s.deletesMaxLoadFactor, o.hashes, o.words);
  }

  /** The four sections of the body, each written where the previous one ends, read back as the snapshot. */
  lemma SectionsRoundTrip(data: seq<Token>, pos: nat, s: Snapshot, o: Orders, p1: nat, p2: nat, p3: nat)
    requires Encodable(s, o) && InRange(s)
    requires At(data, pos, EncodeWordMap(s.belowThresholdWords, o.below))
    requires p1 == pos + |EncodeWordMap(s.belowThresholdWords, o.below)| && At(data, p1, EncodeWordMap(s.words, o.words))
    requires p2 == p1 + |EncodeWordMap(s.words, o.words)|
    requires At(data, p2, EncodeDeletes(s.deletes, s.deletesMaxLoadFactor, o.hashes, o.words))
    requires p3 == p2 + |EncodeDeletes(s.deletes, s.deletesMaxLoadFactor, o.hashes, o.words)|
    requires At(data, p3, EncodeTail(s))
    ensures DecodeBody(data, pos, s.config) == Success(s)
  {
    WordMapRoundTrip(data, pos, s.belowThresholdWords, o.below, p1);
    WordMapRoundTrip(data, p1, s.words, o.words, p2);
    DeletesSection(data, p2, s, o, p3);
    TailRoundTrip(data, p3, s);
    BodyUnfold(data, pos, s.config, s.belowThresholdWords, o.below, p1, s.words, o.words, p2,
               s.deletesMaxLoadFactor, s.deletes, p3,
               (s.bigrams, s.compactMask, s.maxDictionaryWordLength, s.bigramCountMin), p3 + 4);
  }

  /**
   * from_stream after to_stream: the stream written for a snapshot reads
   * back as that snapshot, whatever follows it in the stream.
   */
  lemma RoundTrip(s: Snapshot, o: Orders, rest: seq<Token>)
    requires Encodable(s, o) && InRange(s)
    ensures Decode(Encode(s, o) + rest) == Success(s)
  {
    var data := Encode(s, o) + rest;
    AtSplit(data, 0, EncodeConfig(s.config), EncodeBody(s, o));
    ConfigRoundTrip(data, s.config);
    BodyRoundTrip(data, |EncodeConfig(s.config)|, s, o);
  }

  /** data starts with the header's characters. */
  ghost predicate StartsWithHeader(data: seq<Token>) {
    |SerializedHeader| <= |data| && data[..|SerializedHeader|] == Chars(SerializedHeader)
  }

  lemma HeaderRead(data: seq<Token>)
    ensures DecodeChars(data, 0, |SerializedHeader|) == Success((SerializedHeader, |SerializedHeader|)) <==>
            StartsWithHeader(data)
  {
    var n := |SerializedHeader|;
    var header := DecodeChars(data, 0, n);
    if header.Success? && header.value.0 == SerializedHeader {
      forall i | 0 <= i < n
        ensures data[i] == Char(SerializedHeader[i])
      {
        assert data[0 + i] == Char(header.value.0[i]);
      }
      assert data[..n] == Chars(SerializedHeader);
    }
    if StartsWithHeader(data) {
      assert data[0..n] == data[..n];
      CharsRoundTrip(data, 0, SerializedHeader);
    }
  }

  /** from_stream reports an invalid header exactly when the stream does not start with the header. */
  lemma HeaderCheck(data: seq<Token>)
    ensures Decode(data) == Failure(InvalidHeader) <==> !StartsWithHeader(data)
  {
    HeaderRead(data);
  }

  /** After the header, from_stream reports an invalid version exactly when the next value is not version 1. */
  lemma VersionCheck(data: seq<Token>)
    requires StartsWithHeader(data)
    ensures Decode(data) == Failure(InvalidVersion) <==>
            |data| == |SerializedHeader| || data[|SerializedHeader|] != Size(SerializedVersion)
  {
    HeaderRead(data);
  }

  // ---------------------------------------------------------------------
  // serializer and deserializer
  // ---------------------------------------------------------------------

  /** Encoding entries one at a time at the end. */
  lemma {:induction false} EntriesAppend(m: map<string, int>, order: seq<string>, k: string)
    requires forall k' :: k' in order ==> k' in m
    requires k in m
    ensures EncodeEntries(m, order + [k]) == EncodeEntries(m, order) + EncodeString(k) + [Int64(m[k])]
  {
    if order != [] {
      assert (order + [k])[1..] == order[1..] + [k];
      EntriesAppend(m, order[1..], k);
    }
  }

  /** Encoding positions one at a time at the end. */
  lemma {:induction false} PositionsAppend(bucket: seq<string>, wordOrder: seq<string>, w: string)
    requires forall w' :: w' in bucket ==> w' in wordOrder
    requires w in wordOrder
    ensures EncodePositions(bucket + [w], wordOrder) == EncodePositions(bucket, wordOrder) + [Size(IndexOf(wordOrder, w))]
  {
    if bucket != [] {
      assert (bucket + [w])[1..] == bucket[1..] + [w];
      PositionsAppend(bucket[1..], wordOrder, w);
    }
  }

  /** Encoding buckets one at a time at the end. */
  lemma {:induction false} BucketsAppend(deletes: map<int, seq<string>>, hashOrder: seq<int>, wordOrder: seq<string>, h: int)
    requires forall h' :: h' in hashOrder ==> h' in deletes
    requires h in deletes
    requires forall h', w :: h' in deletes && w in deletes[h'] ==> w in wordOrder
    ensures EncodeBuckets(deletes, hashOrder + [h], wordOrder) ==
      EncodeBuckets(deletes, hashOrder, wordOrder) + [Int32(h), Size(|deletes[h]|)] + EncodePositions(deletes[h], wordOrder)
  {
    if hashOrder != [] {
      assert (hashOrder + [h])[1..] == hashOrder[1..] + [h];
      BucketsAppend(deletes, hashOrder[1..], wordOrder, h);
    }
  }

  /** The serializer: every value written is appended to the output stream. */
  class Serializer {
    var data: seq<Token>

    constructor ()
      ensures data == []
    {
      data := [];
    }

    /** serialize of an arithmetic or enum value: one token. */
    method Write(t: Token)
      modifies this
      ensures data == old(data) + [t]
    {
      data := data + [t];
    }

    /** serialize of a pointer and a size: each character, without a size. */
    method WriteChars(s: string)
      modifies this
      ensures data == old(data) + Chars(s)
    {
      for i := 0 to |s|
        invariant data == old(data) + Chars(s[..i])
      {
        assert Chars(s[..i + 1]) == Chars(s[..i]) + [Char(s[i])];
        Write(Char(s[i]));
      }
      assert s[..|s|] == s;
    }

    /** serialize of a string: its size, then its characters. */
    method WriteString(s: string)
      modifies this
      ensures data == old(data) + EncodeString(s)
    {
      Write(Size(|s|));
      WriteChars(s);
    }

    /** serialize of a pair: first, then second. */
    method WriteEntry(key: string, count: int)
      modifies this
      ensures data == old(data) + EncodeString(key) + [Int64(count)]
    {
      WriteString(key);
      Write(Int64(count));
    }

    /** The entry of order[i], written after those of the keys before it. */
    method WriteNextEntry(m: map<string, int>, order: seq<string>, i: nat, ghost start: seq<Token>)
      requires i < |order| && forall k :: k in order ==> k in m
      requires data == start + EncodeEntries(m, order[..i])
      modifies this
      ensures data == start + EncodeEntries(m, order[..i + 1])
    {
      assert order[..i + 1] == order[..i] + [order[i]];
      EntriesAppend(m, order[..i], order[i]);
      WriteEntry(order[i], m[order[i]]);
    }

    /** serialize of a word-count map: its size, then each entry in the table's order. */
    method WriteWordMap(m: map<string, int>, order: seq<string>)
      requires forall k :: k in order ==> k in m
      modifies this
      ensures data == old(data) + EncodeWordMap(m, order)
    {
      Write(Size(|m|));
      ghost var start := data;
      for i := 0 to |order|
        invariant data == start + EncodeEntries(m, order[..i])
      {
        WriteNextEntry(m, order, i, start);
      }
      assert order[..|order|] == order;
    }
  }

  /** Positions recorded while writing a sequence without repetitions are the words' indexes in it. */
  lemma PositionsAreIndexes(order: seq<string>, wordsPos: map<string, nat>)
    requires Distinct(order)
    requires forall j :: 0 <= j < |order| ==> order[j] in wordsPos && wordsPos[order[j]] == j
    ensures forall w :: w in order ==> w in wordsPos && wordsPos[w] == IndexOf(order, w)
  {
    forall w | w in order
      ensures w in wordsPos && wordsPos[w] == IndexOf(order, w)
    {
      IndexOfDistinct(order, IndexOf(order, w));
    }
  }

  /** One step of the words loop: the next word and its count, and its position recorded. */
  method WriteNextWord(ser: Serializer, m: map<string, int>, order: seq<string>, i: nat, wordsPos: map<string, nat>,
                       ghost start: seq<Token>)
    returns (wordsPos': map<string, nat>)
    requires Distinct(order) && i < |order| && forall k :: k in order ==> k in m
    requires ser.data == start + EncodeEntries(m, order[..i])
    requires forall j :: 0 <= j < i ==> order[j] in wordsPos && wordsPos[order[j]] == j
    modifies ser
    ensures ser.data == start + EncodeEntries(m, order[..i + 1])
    ensures forall j :: 0 <= j <= i ==> order[j] in wordsPos' && wordsPos'[order[j]] == j
  {
    ser.WriteNextEntry(m, order, i, start);
    wordsPos' := wordsPos[order[i] := i];
  }

  /**
   * The words loop of to_stream: the size, then each word and its count,
   * recording each word's position for the delete buckets.
   */
  method WriteWords(ser: Serializer, m: map<string, int>, order: seq<string>) returns (wordsPos: map<string, nat>)
    requires Enumerates(order, m.Keys)
    modifies ser
    ensures ser.data == old(ser.data) + EncodeWordMap(m, order)
    ensures forall w :: w in order ==> w in wordsPos && wordsPos[w] == IndexOf(order, w)
  {
    ser.Write(Size(|m|));
    wordsPos := WriteEntriesRecording(ser, m, order);
    PositionsAreIndexes(order, wordsPos);
  }

  /** Each word and its count, in order, recording the position each word is written at. */
  method WriteEntriesRecording(ser: Serializer, m: map<string, int>, order: seq<string>)
    returns (wordsPos: map<string, nat>)
    requires Distinct(order) && forall k :: k in order ==> k in m
    modifies ser
    ensures ser.data == old(ser.data) + EncodeEntries(m, order)
    ensures forall j :: 0 <= j < |order| ==> order[j] in wordsPos && wordsPos[order[j]] == j
  {
    ghost var start := ser.data;
    wordsPos := map[];
    for i := 0 to |order|
      invariant ser.data == start + EncodeEntries(m, order[..i])
      invariant forall j :: 0 <= j < i ==> order[j] in wordsPos && wordsPos[order[j]] == j
    {
      wordsPos := WriteNextWord(ser, m, order, i, wordsPos, start);
    }
    assert order[..|order|] == order;
  }

  /** The words of one delete bucket, as their positions in the words order. */
  method WritePositions(ser: Serializer, bucket: seq<string>, wordOrder: seq<string>, wordsPos: map<string, nat>)
    requires forall w :: w in bucket ==> w in wordOrder
    requires forall w :: w in wordOrder ==> w in wordsPos && wordsPos[w] == IndexOf(wordOrder, w)
    modifies ser
    ensures ser.data == old(ser.data) + EncodePositions(bucket, wordOrder)
  {
    for j := 0 to |bucket|
      invariant ser.data == old(ser.data) + EncodePositions(bucket[..j], wordOrder)
    {
      assert bucket[..j + 1] == bucket[..j] + [bucket[j]];
      PositionsAppend(bucket[..j], wordOrder, bucket[j]);
      ser.Write(Size(wordsPos[bucket[j]]));
    }
    assert bucket[..|bucket|] == bucket;
  }

  /** The bucket of hashOrder[i], written after those of the hashes before it. */
  method WriteNextBucket(ser: Serializer, deletes: map<int, seq<string>>, hashOrder: seq<int>, wordOrder: seq<string>,
                         wordsPos: map<string, nat>, i: nat, ghost start: seq<Token>)
    requires i < |hashOrder| && forall h :: h in hashOrder ==> h in deletes
    requires forall h, w :: h in deletes && w in deletes[h] ==> w in wordOrder
    requires forall w :: w in wordOrder ==> w in wordsPos && wordsPos[w] == IndexOf(wordOrder, w)
    requires ser.data == start + EncodeBuckets(deletes, hashOrder[..i], wordOrder)
    modifies ser
    ensures ser.data == start + EncodeBuckets(deletes, hashOrder[..i + 1], wordOrder)
  {
    var h := hashOrder[i];
    assert hashOrder[..i + 1] == hashOrder[..i] + [h];
    BucketsAppend(deletes, hashOrder[..i], wordOrder, h);
    ser.Write(Int32(h));
    ser.Write(Size(|deletes[h]|));
    WritePositions(ser, deletes[h], wordOrder, wordsPos);
  }

  /** The deletes loop of to_stream: each hash, its bucket's size and its words' positions. */
  method WriteBuckets(ser: Serializer, deletes: map<int, seq<string>>, hashOrder: seq<int>, wordOrder: seq<string>,
                      wordsPos: map<string, nat>)
    requires forall h :: h in hashOrder ==> h in deletes
    requires forall h, w :: h in deletes && w in deletes[h] ==> w in wordOrder
    requires forall w :: w in wordOrder ==> w in wordsPos && wordsPos[w] == IndexOf(wordOrder, w)
    modifies ser
    ensures ser.data == old(ser.data) + EncodeBuckets(deletes, hashOrder, wordOrder)
  {
    ghost var start := ser.data;
    for i := 0 to |hashOrder|
      invariant ser.data == start + EncodeBuckets(deletes, hashOrder[..i], wordOrder)
    {
      WriteNextBucket(ser, deletes, hashOrder, wordOrder, wordsPos, i, start);
    }
    assert hashOrder[..|hashOrder|] == hashOrder;
  }

  /** The start of to_stream: header, version and the constructor arguments, each widened to size_t. */
  method WriteConfig(ser: Serializer, c: Config)
    modifies ser
    ensures ser.data == old(ser.data) + EncodeConfig(c)
  {
    ser.WriteChars(SerializedHeader);
    ser.Write(Size(SerializedVersion));
    ser.Write(Size(ToSize(c.maxDictionaryEditDistance)));
    ser.Write(Size(ToSize(c.prefixLength)));
    ser.Write(Size(ToSize(c.countThreshold)));
    ser.Write(Enum(AlgorithmCode(c.distanceAlgorithm)));
  }

  /** The deletes section of to_stream: the number of buckets, the load factor, then the buckets. */
  method WriteDeletes(ser: Serializer, deletes: map<int, seq<string>>, loadFactor: real, hashOrder: seq<int>,
                      wordOrder: seq<string>, wordsPos: map<string, nat>)
    requires forall h :: h in hashOrder ==> h in deletes
    requires forall h, w :: h in deletes && w in deletes[h] ==> w in wordOrder
    requires forall w :: w in wordOrder ==> w in wordsPos && wordsPos[w] == IndexOf(wordOrder, w)
    modifies ser
    ensures ser.data == old(ser.data) + EncodeDeletes(deletes, loadFactor, hashOrder, wordOrder)
  {
    ser.Write(Size(|deletes|));
    ser.Write(Double(loadFactor));
    WriteBuckets(ser, deletes, hashOrder, wordOrder, wordsPos);
  }

  /** The end of to_stream: the bigram table, the compact mask, the longest word length and the least bigram count. */
  method WriteTail(ser: Serializer, s: Snapshot)
    modifies ser
    ensures ser.data == old(ser.data) + EncodeTail(s)
  {
    ser.Write(Bigrams(s.bigrams));
    ser.Write(Size(s.compactMask as int));
    ser.Write(Size(ToSize(s.maxDictionaryWordLength)));
    ser.Write(Size(ToSize(s.bigramCountMin)));
  }

  /** to_stream: writes exactly the stream Encode describes for the snapshot and the tables' orders. */
  method WriteStream(ser: Serializer, s: Snapshot, o: Orders)
    requires Encodable(s, o)
    modifies ser
    ensures ser.data == old(ser.data) + Encode(s, o)
  {
    ghost var d0 := ser.data;
    WriteConfig(ser, s.config);
    ghost var d1 := ser.data;
    ser.WriteWordMap(s.belowThresholdWords, o.below);
    ghost var d2 := ser.data;
    var wordsPos := WriteWords(ser, s.words, o.words);
    ghost var d3 := ser.data;
    WriteDeletes(ser, s.deletes, s.deletesMaxLoadFactor, o.hashes, o.words, wordsPos);
    ghost var d4 := ser.data;
    WriteTail(ser, s);
    Concat6(d0, EncodeConfig(s.config), EncodeWordMap(s.belowThresholdWords, o.below), EncodeWordMap(s.words, o.words),
            EncodeDeletes(s.deletes, s.deletesMaxLoadFactor, o.hashes, o.words), EncodeTail(s));
  }

  /** Appending six sequences in turn is appending the last five, grouped as the stream groups them. */
  lemma Concat6<T>(a: seq<T>, b: seq<T>, c: seq<T>, d: seq<T>, e: seq<T>, f: seq<T>)
    ensures a + b + c + d + e + f == a + (b + (c + d + e + f))
  {
  }

  /** r and pos are what the decoding function d gives: the value read and the position after it. */
  ghost predicate Follows<T>(r: Result<T>, pos: nat, d: Result<(T, nat)>) {
    match d
    case Success(vp) => r == Success(vp.0) && pos == vp.1
    case Failure(e) => r == Failure(e)
  }

  /** The deserializer: reads values in order from a position in the input stream. */
  class Deserializer {
    const data: seq<Token>
    var pos: nat

    constructor (data: seq<Token>)
      ensures this.data == data && pos == 0
    {
      this.data := data;
      pos := 0;
    }

    method ReadToken() returns (r: Result<Token>)
      modifies this
      ensures Follows(r, pos, DecodeToken(data, old(pos)))
    {
      if pos >= |data| {
        return Failure(Truncated);
      }
      r := Success(data[pos]);
      pos := pos + 1;
    }

    /** deserialize<size_t>. */
    method ReadSize() returns (r: Result<nat>)
      modifies this
      ensures Follows(r, pos, DecodeSize(data, old(pos)))
    {
      var t :- ReadToken();
      if !t.Size? {
        return Failure(Malformed);
      }
      r := Success(t.n);
    }

    /** deserialize<int64_t>. */
    method ReadInt64() returns (r: Result<int>)
      modifies this
      ensures Follows(r, pos, DecodeInt64(data, old(pos)))
    {
      var t :- ReadToken();
      if !t.Int64? {
        return Failure(Malformed);
      }
      r := Success(t.i);
    }

    /** deserialize<int>, the type of a delete hash. */
    method ReadInt32() returns (r: Result<int>)
      modifies this
      ensures Follows(r, pos, DecodeInt32(data, old(pos)))
    {
      var t :- ReadToken();
      if !t.Int32? {
        return Failure(Malformed);
      }
      r := Success(t.i);
    }

    /** deserialize<double>. */
    method ReadDouble() returns (r: Result<real>)
      modifies this
      ensures Follows(r, pos, DecodeDouble(data, old(pos)))
    {
      var t :- ReadToken();
      if !t.Double? {
        return Failure(Malformed);
      }
      r := Success(t.x);
    }

    /** bigram_map_t::deserialize. */
    method ReadBigrams() returns (r: Result<map<string, int>>)
      modifies this
      ensures Follows(r, pos, DecodeBigrams(data, old(pos)))
    {
      var t :- ReadToken();
      if !t.Bigrams? {
        return Failure(Malformed);
      }
      r := Success(t.table);
    }

    /** deserialize<DistanceAlgorithm>. */
    method ReadAlgorithm() returns (r: Result<DistanceAlgorithm>)
      modifies this
      ensures Follows(r, pos, DecodeAlgorithm(data, old(pos)))
    {
      var t :- ReadToken();
      if !(t.Enum? && (t.code == 0 || t.code == 1)) {
        return Failure(Malformed);
      }
      r := Success(AlgorithmOfCode(t.code));
    }

    /** deserialize of a pointer and a size: n raw characters. */
    method ReadChars(n: nat) returns (r: Result<string>)
      modifies this
      ensures Follows(r, pos, DecodeChars(data, old(pos), n))
    {
      if pos + n > |data| {
        return Failure(Truncated);
      }
      var s := [];
      for i := 0 to n
        invariant |s| == i && forall j :: 0 <= j < i ==> data[pos + j] == Char(s[j])
      {
        if !data[pos + i].Char? {
          AllCharsIff(data, pos, n);
          return Failure(Malformed);
        }
        s := s + [data[pos + i].c];
      }
      CharsAtOf(data, pos, s);
      pos := pos + n;
      r := Success(s);
    }

    /** deserialize<string>: the size, then that many characters. */
    method ReadString() returns (r: Result<string>)
      modifies this
      ensures Follows(r, pos, DecodeString(data, old(pos)))
    {
      var n :- ReadSize();
      r := ReadChars(n);
    }

    /** n entries, emplaced into a fresh map in the order read. */
    method ReadEntries(n: nat) returns (r: Result<(map<string, int>, seq<string>)>)
      modifies this
      ensures Follows(r, pos, DecodeEntries(data, old(pos), n, map[], []))
    {
      var counts: map<string, int> := map[];
      var keys: seq<string> := [];
      for i := 0 to n
        invariant DecodeEntries(data, old(pos), n, map[], []) == DecodeEntries(data, pos, n - i, counts, keys)
      {
        var key :- ReadString();
        var count :- ReadInt64();
        counts := Emplace(counts, key, count);
        keys := keys + [key];
      }
      r := Success((counts, keys));
    }

    /** deserialize of a word-count map: its size, then its entries. */
    method ReadWordMap() returns (r: Result<(map<string, int>, seq<string>)>)
      modifies this
      ensures Follows(r, pos, DecodeWordMap(data, old(pos)))
    {
      var n :- ReadSize();
      r := ReadEntries(n);
    }

    /** n positions appended to bucket, each replaced by the word read at that position. */
    method ReadPositions(n: nat, wordsPos: seq<string>, bucket: seq<string>) returns (r: Result<seq<string>>)
      modifies this
      ensures Follows(r, pos, DecodePositions(data, old(pos), n, wordsPos, bucket))
    {
      var value := bucket;
      for j := 0 to n
        invariant DecodePositions(data, old(pos), n, wordsPos, bucket) == DecodePositions(data, pos, n - j, wordsPos, value)
      {
        var p :- ReadSize();
        if p >= |wordsPos| {
          return Failure(OutOfRange);
        }
        value := value + [wordsPos[p]];
      }
      r := Success(value);
    }

    /** The deletes loop of from_stream: n buckets, a repeated hash appending to its bucket. */
    method ReadBuckets(n: nat, wordsPos: seq<string>) returns (r: Result<map<int, seq<string>>>)
      modifies this
      ensures Follows(r, pos, DecodeBuckets(data, old(pos), n, wordsPos, map[]))
    {
      var deletes: map<int, seq<string>> := map[];
      for i := 0 to n
        invariant DecodeBuckets(data, old(pos), n, wordsPos, map[]) == DecodeBuckets(data, pos, n - i, wordsPos, deletes)
      {
        var h :- ReadInt32();
        var size :- ReadSize();
        var start := if h in deletes then deletes[h] else [];
        var bucket :- ReadPositions(size, wordsPos, start);
        deletes := deletes[h := bucket];
      }
      r := Success(deletes);
    }
  }

  /** The start of from_stream: header, version and the constructor arguments. */
  method ReadConfig(dse: Deserializer) returns (r: Result<Config>)
    requires dse.pos == 0
    modifies dse
    ensures Follows(r, dse.pos, DecodeConfig(dse.data))
  {
    var header := dse.ReadChars(|SerializedHeader|);
    if header != Success(SerializedHeader) {
      return Failure(InvalidHeader);
    }
    var version := dse.ReadSize();
    if version != Success(SerializedVersion) {
      return Failure(InvalidVersion);
    }
    var maxDistance :- dse.ReadSize();
    var prefixLength :- dse.ReadSize();
    var countThreshold :- dse.ReadSize();
    var algorithm :- dse.ReadAlgorithm();
    r := Success(Config(SizeToInt32(maxDistance), SizeToInt32(prefixLength), SizeToInt32(countThreshold), algorithm));
  }

  /** The rest of from_stream: the count maps, the delete buckets and the trailing scalars. */
  method ReadBody(dse: Deserializer, config: Config) returns (r: Result<Snapshot>)
    modifies dse
    ensures r == DecodeBody(dse.data, old(dse.pos), config)
  {
    var below :- dse.ReadWordMap();
    var words :- dse.ReadWordMap();
    var deletesSize :- dse.ReadSize();
    var loadFactor :- dse.ReadDouble();
    var deletes :- dse.ReadBuckets(deletesSize, words.1);
    var bigrams :- dse.ReadBigrams();
    var compactMask :- dse.ReadSize();
    var maxLength :- dse.ReadSize();
    var bigramCountMin :- dse.ReadSize();
    r := Success(Snapshot(config, below.0, words.0, loadFactor, deletes, bigrams, (compactMask % TWO_32) as bv32,
                          SizeToInt32(maxLength), SizeToInt64(bigramCountMin)));
  }
}

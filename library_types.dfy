/**
 * The small value types of the library interface: the verbosity of a
 * lookup, the choice of distance algorithm, the result record of word
 * segmentation, and the emplace operation of the word-count maps.
 */
module LibraryTypes {

  /** How many suggestions a lookup returns. */
  datatype Verbosity =
    | Top      // the most frequent of the closest suggestions
    | Closest  // all suggestions at the smallest distance found
    | All      // all suggestions within the maximum distance

  /** The enumerators of DistanceAlgorithm, in declaration order (0 and 1 when stored). */
  datatype DistanceAlgorithm = LevenshteinDistance | DamerauOSADistance

  function AlgorithmCode(a: DistanceAlgorithm): (r: int)
    ensures r == 0 || r == 1
  {
    match a
    case LevenshteinDistance => 0
    case DamerauOSADistance => 1
  }

  function AlgorithmOfCode(code: int): (r: DistanceAlgorithm)
    requires code == 0 || code == 1
    ensures AlgorithmCode(r) == code
  {
    if code == 0 then LevenshteinDistance else DamerauOSADistance
  }

  /** Decoding a stored algorithm gives back the one that was stored. */
  lemma AlgorithmCodeRoundTrip(a: DistanceAlgorithm)
    ensures AlgorithmOfCode(AlgorithmCode(a)) == a
  {
  }

  /**
   * A word segmentation: the input with spaces inserted, the same with each
   * word corrected, the sum of edit distances, and the sum of the words'
   * log10 probabilities.
   */
  class Info {
    var segmentedstring: string
    var correctedstring: string
    var distanceSum: int
    var probabilityLogSum: real

    /** The value-initialised Info a new composition vector holds. */
    constructor Empty()
      ensures GetSegmented() == [] && GetCorrected() == [] && GetDistance() == 0 && GetProbability() == 0.0
    {
      segmentedstring := [];
      correctedstring := [];
      distanceSum := 0;
      probabilityLogSum := 0.0;
    }

    constructor (seg: string, cor: string, d: int, prob: real)
      ensures GetSegmented() == seg && GetCorrected() == cor && GetDistance() == d && GetProbability() == prob
    {
      segmentedstring := seg;
      correctedstring := cor;
      distanceSum := d;
      probabilityLogSum := prob;
    }

    /** set: the getters afterwards return exactly the values passed. */
    method Set(seg: string, cor: string, d: int, prob: real)
      modifies this
      ensures GetSegmented() == seg && GetCorrected() == cor && GetDistance() == d && GetProbability() == prob
    {
      segmentedstring := seg;
      correctedstring := cor;
      distanceSum := d;
      probabilityLogSum := prob;
    }

    function GetSegmented(): string
      reads this
    {
      segmentedstring
    }

    function GetCorrected(): string
      reads this
    {
      correctedstring
    }

    function GetDistance(): int
      reads this
    {
      distanceSum
    }

    function GetProbability(): real
      reads this
    {
      probabilityLogSum
    }
  }

  /** emplace on a words map (words_map_t): inserts key only when it is not there yet. */
  function Emplace(m: map<string, int>, key: string, value: int): (r: map<string, int>)
    ensures key in r && r.Keys == m.Keys + {key}
    ensures key in m ==> r == m
    ensures key !in m ==> r[key] == value && forall k :: k in m ==> r[k] == m[k]
  {
    if key in m then m else m[key := value]
  }
}

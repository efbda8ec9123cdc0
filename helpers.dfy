/**
 * The static helpers the distance computation and the dictionary share:
 * results for an empty operand, trimming of a common prefix and suffix,
 * three-way comparison, case mapping and casing transfer.
 */
module Helpers {
  import opened Wrappers
  import opened OsaSpec
  import Chars

  /**
   * The bounded distance when one of the strings is empty: the other length
   * if it is within maxDistance, two empty strings are at distance 0 whatever
   * the bound, and -1 stands for "farther than maxDistance".
   */
  function NullDistanceResults(string1: string, string2: string, maxDistance: int): (r: int)
    ensures string1 == [] || string2 == [] ==>
      r == (if string1 == string2 || Osa(string1, string2) <= maxDistance then Osa(string1, string2) else -1)
  {
    if string1 == [] then
      (if string2 == [] then 0 else if |string2| <= maxDistance then |string2| else -1)
    else if |string1| <= maxDistance then |string1| else -1
  }

  /**
   * Finds the part of string1 and string2 that remains once their longest
   * common suffix, and then the longest common prefix of what is left, are
   * set aside; string2 is the longer (or equally long) string.  The part is
   * string1[start..start + len1] and string2[start..start + len2].
   */
  method PrefixSuffixPrep(string1: string, string2: string) returns (len1: int, len2: int, start: int)
    requires |string1| <= |string2|
    ensures 0 <= start && 0 <= len1 <= len2
    ensures start + len1 <= |string1| && start + len2 <= |string2|
    ensures len2 - len1 == |string2| - |string1|
    ensures string1[..start] == string2[..start]
    ensures string1[start + len1..] == string2[start + len2..]
    ensures len1 > 0 ==> string1[start] != string2[start]
    ensures len1 > 0 ==> string1[start + len1 - 1] != string2[start + len2 - 1]
    ensures Osa(string1, string2) == Osa(string1[start..start + len1], string2[start..start + len2])
  {
    len2 := |string2|;
    len1 := |string1|;
    while len1 != 0 && string1[len1 - 1] == string2[len2 - 1]
      invariant 0 <= len1 <= |string1| && len2 - len1 == |string2| - |string1|
      invariant string1[len1..] == string2[len2..]
    {
      assert string1[len1 - 1..] == [string1[len1 - 1]] + string1[len1..];
      assert string2[len2 - 1..] == [string2[len2 - 1]] + string2[len2..];
      len1 := len1 - 1;
      len2 := len2 - 1;
    }
    start := 0;
    while start != len1 && string1[start] == string2[start]
      invariant 0 <= start <= len1
      invariant string1[..start] == string2[..start]
    {
      assert string1[..start + 1] == string1[..start] + [string1[start]];
      assert string2[..start + 1] == string2[..start] + [string2[start]];
      start := start + 1;
    }
    StripCommonSlices(string1, string2, start, len1, len2);
    if start != 0 {
      len2 := len2 - start;
      len1 := len1 - start;
    }
  }

  /** Three-way comparison of two 64-bit integers. */
  function CompareTo(mainValue: int, compareValue: int): (r: int)
    ensures r == 0 <==> mainValue == compareValue
    ensures r == 1 <==> mainValue > compareValue
    ensures r == -1 <==> mainValue < compareValue
  {
    if mainValue == compareValue then 0
    else if mainValue > compareValue then 1
    else -1
  }

  /** Swapping the operands of CompareTo negates its result. */
  lemma CompareToAntisymmetric(x: int, y: int)
    ensures CompareTo(x, y) == -CompareTo(y, x)
  {
  }

  /** The string with every character mapped by ::tolower. */
  function Lowered(a: string): (r: string)
    ensures |r| == |a|
    ensures forall i :: 0 <= i < |a| ==> r[i] == Chars.ToLower(a[i])
  {
    if a == [] then [] else [Chars.ToLower(a[0])] + Lowered(a[1..])
  }

  /** The string with every character mapped by ::toupper. */
  function Uppered(a: string): (r: string)
    ensures |r| == |a|
    ensures forall i :: 0 <= i < |a| ==> r[i] == Chars.ToUpper(a[i])
  {
    if a == [] then [] else [Chars.ToUpper(a[0])] + Uppered(a[1..])
  }

  /** string_lower: maps each character to lower case, in a copy of the string. */
  method StringLower(a: string) returns (aLower: string)
    ensures aLower == Lowered(a)
  {
    aLower := a;
    var i := 0;
    while i < |a|
      invariant 0 <= i <= |a| && |aLower| == |a|
      invariant forall k :: 0 <= k < i ==> aLower[k] == Chars.ToLower(a[k])
      invariant aLower[i..] == a[i..]
    {
      aLower := aLower[i := Chars.ToLower(a[i])];
      i := i + 1;
    }
  }

  /** string_upper: maps each character to upper case, in a copy of the string. */
  method StringUpper(a: string) returns (aUpper: string)
    ensures aUpper == Uppered(a)
  {
    aUpper := a;
    var i := 0;
    while i < |a|
      invariant 0 <= i <= |a| && |aUpper| == |a|
      invariant forall k :: 0 <= k < i ==> aUpper[k] == Chars.ToUpper(a[k])
      invariant aUpper[i..] == a[i..]
    {
      aUpper := aUpper[i := Chars.ToUpper(a[i])];
      i := i + 1;
    }
  }

  /** Lower-casing leaves no upper-case letter, and lower-casing again changes nothing. */
  lemma LoweredIsLower(a: string)
    ensures forall i :: 0 <= i < |a| ==> !Chars.IsUpper(Lowered(a)[i])
    ensures Lowered(Lowered(a)) == Lowered(a)
  {
  }

  /** Lower-casing forgets any earlier upper-casing. */
  lemma LoweredUppered(a: string)
    ensures Lowered(Uppered(a)) == Lowered(a)
  {
  }

  /** The casing of `withCasing` laid character by character over `withoutCasing`. */
  function CasingTransferred(withCasing: string, withoutCasing: string): (r: string)
    requires |withCasing| == |withoutCasing|
    ensures |r| == |withoutCasing|
    ensures forall i :: 0 <= i < |r| ==>
      r[i] == (if Chars.IsUpper(withCasing[i]) then Chars.ToUpper(withoutCasing[i]) else Chars.ToLower(withoutCasing[i]))
  {
    if withCasing == [] then []
    else [if Chars.IsUpper(withCasing[0]) then Chars.ToUpper(withoutCasing[0]) else Chars.ToLower(withoutCasing[0])]
         + CasingTransferred(withCasing[1..], withoutCasing[1..])
  }

  /**
   * transfer_casing_for_matching_text: rejects texts of different lengths;
   * otherwise the result spells `textWoCasing` with the casing of `textWCasing`.
   */
  method TransferCasingForMatchingText(textWCasing: string, textWoCasing: string) returns (r: Result<string>)
    ensures |textWCasing| != |textWoCasing| <==> r.Failure?
    ensures r.Success? ==> r.value == CasingTransferred(textWCasing, textWoCasing)
  {
    if |textWCasing| != |textWoCasing| {
      return Failure(InvalidArgument("The 'text_w_casing' and 'text_wo_casing' don't have the same length"));
    }
    var responseString := "";
    var i := 0;
    while i < |textWCasing|
      invariant 0 <= i <= |textWCasing|
      invariant |responseString| == i
      invariant forall k :: 0 <= k < i ==>
        responseString[k] == (if Chars.IsUpper(textWCasing[k]) then Chars.ToUpper(textWoCasing[k]) else Chars.ToLower(textWoCasing[k]))
    {
      if Chars.IsUpper(textWCasing[i]) {
        responseString := responseString + [Chars.ToUpper(textWoCasing[i])];
      } else {
        responseString := responseString + [Chars.ToLower(textWoCasing[i])];
      }
      i := i + 1;
    }
    return Success(responseString);
  }

  /** One character of the casing transfer: its letter is kept, its case is the template's. */
  lemma TransferredChar(withCasing: char, withoutCasing: char)
    ensures var t := if Chars.IsUpper(withCasing) then Chars.ToUpper(withoutCasing) else Chars.ToLower(withoutCasing);
            Chars.ToLower(t) == Chars.ToLower(withoutCasing) &&
            (Chars.IsUpper(withoutCasing) || Chars.IsLower(withoutCasing) ==> (Chars.IsUpper(t) <==> Chars.IsUpper(withCasing)))
  {
  }

  /**
   * The transferred text is the original text up to case, and each letter
   * is upper case exactly where the template character is.
   */
  lemma CasingTransferredProperties(withCasing: string, withoutCasing: string)
    requires |withCasing| == |withoutCasing|
    ensures Lowered(CasingTransferred(withCasing, withoutCasing)) == Lowered(withoutCasing)
    ensures forall i :: 0 <= i < |withoutCasing| && (Chars.IsUpper(withoutCasing[i]) || Chars.IsLower(withoutCasing[i])) ==>
      (Chars.IsUpper(CasingTransferred(withCasing, withoutCasing)[i]) <==> Chars.IsUpper(withCasing[i]))
  {
    var r := CasingTransferred(withCasing, withoutCasing);
    forall k | 0 <= k < |r|
      ensures Lowered(r)[k] == Lowered(withoutCasing)[k]
      ensures Chars.IsUpper(withoutCasing[k]) || Chars.IsLower(withoutCasing[k]) ==> (Chars.IsUpper(r[k]) <==> Chars.IsUpper(withCasing[k]))
    {
      TransferredChar(withCasing[k], withoutCasing[k]);
    }
  }

  /**
   * transfer_casing_for_similar_text: an empty target is returned as it is;
   * an empty template is rejected; otherwise the alignment of the two texts
   * (sequence matching, given here as `align`) decides the casing.
   */
  function TransferCasingForSimilarText(textWCasing: string, textWoCasing: string,
                                        align: (string, string) -> string): (r: Result<string>)
    ensures textWoCasing == [] ==> r == Success(textWoCasing)
    ensures r.Failure? <==> textWoCasing != [] && textWCasing == []
    ensures textWoCasing != [] && textWCasing != [] ==> r == Success(align(textWCasing, textWoCasing))
  {
    if textWoCasing == [] then Success(textWoCasing)
    else if textWCasing == [] then Failure(InvalidArgument("We need 'text_w_casing' to know what casing to transfer!"))
    else Success(align(textWCasing, textWoCasing))
  }
}

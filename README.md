# SymSpell (C++ core) in Dafny

This project models the core of SymSpellCppPy, a C++ port of the SymSpell
spelling corrector. It covers:

- The optimal-string-alignment (restricted Damerau-Levenshtein) distance of
  `DamerauOSA`. This includes its unbounded kernel and its banded kernel with
  the early exit.
- The helpers of `Helpers.h`: prefix/suffix stripping, casing, `SuggestItem`
  ordering, and the `SuggestionStage` staging area.
- The `SymSpell` dictionary:
  - the count bookkeeping of `CreateDictionaryEntryCheck` (the
    below-threshold words, saturation at `MAXINT`);
  - the prefix deletes of `Edits`/`EditsPrefix`;
  - the compacted FNV-1a hash `GetstringHash`;
  - the delete buckets kept by `CreateDictionaryEntry`, its staged variant,
    `CommitStaged` and `DeleteDictionaryEntry`.
- `Lookup`: the exact match, the breadth-first candidate search, the
  suggestion filters, the verbosity rules, the sort, the casing transfer and
  `includeUnknown`.
- The binary format of `to_stream`/`from_stream`, and the round trip between
  them.
- Two further structures:
  - `WordSegmentation`'s circular buffer of best compositions;
  - the final assembly of `LookupCompound`.

Modules, one per file:

- `Chars`: the C-locale character classes of the narrow build.
- `OsaSpec`: the reference recursive definition `D`/`Osa` and its lemmas.
- `DamerauOSA`: the `DamerauOsa` class and its kernels.
- `Helpers`, `SuggestItems`, `Staging` (the `SuggestionStage` class), `Trim`,
  and `LibraryTypes` (`Verbosity`, `DistanceAlgorithm`, the `Info` class).
- `Edits`, `Hashing` and `DeletePrefix`.
- `SymSpells`: the `SymSpell` class, its validity invariant `Valid()`, and
  the count and bucket bookkeeping.
- `Lookups`: the search loop of `Lookup`.
- `Persistence`: the token stream, the encoder and decoder functions, and the
  `Serializer`/`Deserializer` classes.
- `Segmentation`.

Methods that change state are proved against specification functions, for
example:

- `Osa` for the kernels;
- `Accumulate` for the count maps;
- `AppendedTo`, `PrependedTo` and `RemovedFrom` for the delete buckets;
- `Encode`/`Decode` for the stream.

The properties of those functions are proved as lemmas.

## Model

| member | source | states |
|---|---|---|
| OsaSpec.OsaSymmetric | include/DamerauOSA.h:34-35 | the distance does not depend on which string comes first, which is what makes the swap to put the shorter string first harmless |
| OsaSpec.Bounds | include/DamerauOSA.h:121-157 | the distance of two prefixes lies between the difference of their lengths and the larger length |
| OsaSpec.ZeroIffEqual | include/DamerauOSA.h:50 | the distance is 0 exactly when the strings are equal |
| OsaSpec.StripCommon | include/Helpers.h:49-64 | a common prefix and a common suffix do not change the distance |
| OsaSpec.StripCommonSlices | include/Helpers.h:49-64 | two strings that agree before start and after their ends have the distance of their middle parts |
| OsaSpec.Steps | include/DamerauOSA.h:135-154 | adjacent cells of the table differ by at most one |
| OsaSpec.DiagonalMonotone | include/DamerauOSA.h:164-178 | the distance does not decrease along a diagonal of the table (the fact behind the banded early exit) |
| OsaSpec.OsaSingle | include/DamerauOSA.h:121-157 | the distance to a one-character string is the length, minus one when the character occurs |
| Helpers.NullDistanceResults | include/Helpers.h:39-43 | when a string is empty the result is the OSA distance if it is within maxDistance, otherwise -1 |
| Helpers.PrefixSuffixPrep | include/Helpers.h:49-64 | start/len1/len2 delimit what is left after stripping the longest common suffix and then the longest common prefix; the remaining parts differ in their first and last characters, and the OSA distance is unchanged |
| Helpers.CompareTo | include/Helpers.h:74-81 | the result is 0, 1 or -1 exactly as the first value equals, exceeds or is below the second |
| Helpers.CompareToAntisymmetric | include/Helpers.h:74-81 | swapping the arguments negates the comparison |
| Helpers.StringLower | include/Helpers.h:83-87 | the result is the input with every character lowered |
| Helpers.StringUpper | include/Helpers.h:89-93 | the result is the input with every character raised |
| Helpers.LoweredIsLower | include/Helpers.h:83-87 | a lowered string has no upper-case letter, and lowering is idempotent |
| Helpers.LoweredUppered | include/Helpers.h:83-93 | lowering an upper-cased string gives the lowered original |
| Helpers.TransferCasingForMatchingText | include/Helpers.h:100-117 | fails exactly when the lengths differ; otherwise every character of the uncased text takes the case of the cased text at the same position |
| Helpers.CasingTransferredProperties | include/Helpers.h:100-117 | the recased text lowers to the lowered uncased text, and each of its letters is upper-case exactly when the cased text's letter there is |
| Helpers.TransferCasingForSimilarText | include/Helpers.h:119-184 | an empty uncased text is returned unchanged; the call fails exactly when the uncased text is non-empty and the cased text is empty; otherwise the result is the alignment's |
| DamerauOSA.DamerauOsa.WithCapacity | include/DamerauOSA.h:24-28 | fails exactly when the expected maximum length is not positive; otherwise both cost buffers have that length |
| DamerauOSA.DamerauOsa.Distance | include/DamerauOSA.h:30-46 | the result is the OSA distance of the two strings |
| DamerauOSA.DamerauOsa.DistanceBounded | include/DamerauOSA.h:48-71 | equal strings give 0; otherwise the result is the OSA distance when it is within the bound, else -1; the bound is maxDistance when a string is empty and maxDistance clamped to INT_MAX otherwise |
| DamerauOSA.DamerauOsa.DistanceKernel | include/DamerauOSA.h:121-157 | the last cell is the OSA distance of the two slices |
| DamerauOSA.DamerauOsa.Row | include/DamerauOSA.h:135-154 | after row i the cost buffer holds row i + 1 of the distance table, and the previous-row buffer holds row i |
| DamerauOSA.DamerauOsa.BandedDistanceKernel | include/DamerauOSA.h:159-202 | the result is the OSA distance of the slices when it is within maxDistance, else -1, with the early exit included |
| DamerauOSA.DamerauOsa.BandedRow | include/DamerauOSA.h:164-198 | after a row the buffers hold the band values of the next row |
| DamerauOSA.BandVerdict | include/DamerauOSA.h:199-201 | the last band cell is the distance when that is within maxDistance, and exceeds maxDistance otherwise |
| DamerauOSA.BandEarlyExit | include/DamerauOSA.h:199 | a value beyond maxDistance on the diagonal that ends in the last cell means the distance exceeds maxDistance |
| SuggestItems.CompareTo | include/Helpers.h:263-271 | the result is -1, 0 or 1, and 0 exactly when the items are equal |
| SuggestItems.CompareToKeys | include/Helpers.h:263-271 | a smaller distance comes first; at equal distance a larger count comes first; then the terms decide |
| SuggestItems.CompareToAntisymmetric | include/Helpers.h:263-271 | swapping the items negates the comparison |
| SuggestItems.CompareToTransitive | include/Helpers.h:263-271 | the order is transitive, so sorting by it is well defined |
| SuggestItems.Equals | include/Helpers.h:273-275 | true exactly when the items are equal |
| SuggestItems.TermCompare | include/Helpers.h:270 | the result is -1, 0 or 1, and 0 exactly when the terms are equal |
| SuggestItems.SortItems | library.cpp:493-494 | the result is sorted by CompareTo and is a permutation of the input |
| SuggestItems.SortItemsMembers | library.cpp:493-494 | sorting keeps the length and exactly the same members |
| Staging.SuggestionStage.constructor | include/Helpers.h:211-213 | a new stage has no deletes and no nodes |
| Staging.SuggestionStage.Clear | include/Helpers.h:219-222 | the stage is emptied |
| Staging.SuggestionStage.Add | include/Helpers.h:224-232 | one more node; the hash's entry exists and its count grows by one; the suggestion is in front of that hash's chain; every other chain is unchanged |
| Staging.SuggestionStage.CommitTo | include/Helpers.h:234-245 | every staged hash's chain is appended to its permanent bucket, creating missing buckets; other buckets are kept |
| Staging.ChainAppend | include/Helpers.h:224-232 | appending a node does not change an existing chain |
| Trim.LTrim | library.h:42-47 | the result is the input without its leading whitespace |
| Trim.RTrim | library.h:49-53 | the result is the input without its trailing whitespace |
| Trim.Trim | library.h:55-58 | the result is the input without leading or trailing whitespace |
| Trim.LTrimmed | library.h:42-47 | the result is a suffix of the input, everything removed is whitespace, and it does not start with whitespace |
| Trim.RTrimmed | library.h:49-53 | the result is a prefix of the input, everything removed is whitespace, and it does not end with whitespace |
| Trim.TrimIdempotent | library.h:55-58 | trimming twice is trimming once |
| LibraryTypes.Info.Set | library.h:68-73 | afterwards the four getters return exactly the values passed |
| LibraryTypes.Info.Empty | library.h:60-90 | a value-initialised Info has empty strings and zero sums |
| LibraryTypes.AlgorithmCodeRoundTrip | library.h:93-101 | the stored code of a distance algorithm decodes back to it |
| LibraryTypes.Emplace | library.cpp:89 | emplace inserts the key only when it is absent; otherwise the map is unchanged |
| Edits.Edits | library.cpp:532-549 | the result is the given set plus every string obtained from the word by deleting 1 to DeleteBound characters; closure under further deletion is kept |
| Edits.EditsSound | library.cpp:532-549 | every string Edits adds is non-empty and is obtained by deleting between 1 and DeleteBound characters |
| Edits.EditsComplete | library.cpp:532-549 | every non-empty string obtained by deleting between 1 and DeleteBound characters is added |
| Edits.EditsShorter | library.cpp:539-541 | every delete is non-empty and shorter than the word |
| Edits.DeleteBound | library.cpp:538-545 | the depth reached is maxDictionaryEditDistance - editDistance, and at least 1, because the distance is incremented before it is compared |
| Edits.KeyPrefix | library.cpp:555-557 | the key cut to prefixLength characters: a prefix of the key, of length prefixLength or the whole key |
| Edits.EditsPrefix | library.cpp:551-564 | the result is the key's prefix, plus the empty string when the key is no longer than maxDictionaryEditDistance, plus every delete of the prefix |
| Edits.EditsPrefixMembers | library.cpp:551-564 | a string is in the result exactly when it is the key's prefix, or the empty string and the key is no longer than maxDictionaryEditDistance, or a non-empty string obtained from the prefix by deleting 1 to max(1, maxDictionaryEditDistance) characters (so one-character deletes are filed even when maxDictionaryEditDistance is 0) |
| Edits.EditsPrefixShorter | library.cpp:551-564 | no member is longer than the prefix, nor than prefixLength |
| Hashing.CompactMask | library.cpp:54 | the mask keeps bits 2 to 30 - compactLevel |
| Hashing.GetStringHash | library.cpp:566-580 | the result is the FNV-1a hash of the string, masked, tagged with the capped length, and cast to int |
| Hashing.HashBounds | library.cpp:566-580 | the hash has no bit above 30 - compactLevel, its two low bits are the capped length, and it is never negative |
| Hashing.HashSeparatesLengths | library.cpp:577-578 | strings with equal hashes have equal capped lengths |
| DeletePrefix.DeleteInSuggestionPrefixAsWritten | library.cpp:506-517 | true exactly when every character of the delete matches some later-or-same position of the suggestion's prefix (a position may be reused) |
| DeletePrefix.ReuseAcceptsNonSubsequence | library.cpp:506-517 | the written test accepts the delete "aa" against the suggestion "ab", which is not a subsequence |
| DeletePrefix.DeleteInSuggestionPrefix | library.cpp:506-517 | true exactly when the delete is a subsequence of the suggestion's prefix |
| DeletePrefix.SubsequenceMatches | library.cpp:506-517 | every subsequence passes the written test, so the correction only rejects more |
| SymSpells.SaturatingAdd | library.cpp:70 | the sum, capped at MAXINT |
| SymSpells.AccumulateNonPositive | library.cpp:61-63 | a non-positive count changes nothing when there is a threshold |
| SymSpells.AccumulateExisting | library.cpp:80-86 | adding to a dictionary word raises only its count, saturating at MAXINT, and reports no insertion |
| SymSpells.AccumulatePromotion | library.cpp:68-79 | a below-threshold word moves to the dictionary exactly when its accumulated count reaches the threshold; until then its new count is stored |
| SymSpells.AccumulateNew | library.cpp:87-95 | a new word enters the dictionary exactly when its count reaches the threshold, and otherwise waits below it |
| SymSpells.AccumulateKeepsCountsOk | library.cpp:60-100 | the counts stay in range, below-threshold counts stay below the threshold, and the two maps stay disjoint |
| SymSpells.AccumulateGrows | library.cpp:60-100 | no dictionary word is removed; an insertion adds exactly the key |
| SymSpells.IndexedAppended | library.cpp:112-115 | appending a word to the buckets of its hashes keeps every bucket's words dictionary words filed under their own hashes |
| SymSpells.IndexedRemoved | library.cpp:155-174 | removing a word from the buckets of its hashes keeps the index valid for the remaining words |
| SymSpells.Removed | library.cpp:166-169 | every copy of the word is erased and the rest is kept in order |
| SymSpells.SymSpell.Create | library.cpp:38-58 | fails with invalid_argument exactly when maxDictionaryEditDistance < 0, prefixLength < 1, prefixLength <= maxDictionaryEditDistance, countThreshold < 0, or compactLevel > 16; otherwise returns a valid empty dictionary with that configuration |
| SymSpells.SymSpell.Init | library.cpp:38-58 | the new dictionary is valid and empty, with the given configuration and bigramCountMin = MAXINT |
| SymSpells.SymSpell.CreateDictionaryEntryCheck | library.cpp:60-100 | the count maps change as Accumulate says, the result reports an insertion, the deletes are untouched, and the dictionary stays valid |
| SymSpells.SymSpell.UpdateMaxLength | library.cpp:96-97 | the maximum word length stays the length of the longest word after an insertion |
| SymSpells.SymSpell.CreateDictionaryEntry | library.cpp:102-118 | counts as Accumulate; on insertion the word is appended to the bucket of every hash of its prefix deletes, and otherwise the deletes are unchanged |
| SymSpells.SymSpell.CreateDictionaryEntryStaged | library.cpp:120-136 | counts as Accumulate; on insertion the word is put in front of the staged chain of every hash of its prefix deletes, and only of those |
| SymSpells.SymSpell.CommitStaged | library.cpp:320-325 | every bucket becomes its old contents followed by the staged chain, the words are unchanged, and the dictionary stays valid |
| SymSpells.SymSpell.DeleteDictionaryEntry | library.cpp:138-177 | true exactly when the key was a word; then the word is erased and removed from the buckets of its hashes, emptied buckets are erased, the maximum length is recomputed, and no bucket still holds the word |
| SymSpells.SymSpell.LengthAfterErase | library.cpp:147-153 | the maximum word length is still the length of the longest remaining word, or 0 |
| SymSpells.SymSpell.LongestWordLength | library.cpp:148-152 | the length of the longest word, or 0 when there are none |
| SymSpells.SymSpell.PurgeBelowThresholdWords | library.cpp:316-318 | the below-threshold map is emptied and nothing else changes |
| SymSpells.SymSpell.Collect | library.cpp:342-494 | whether the search is skipped (the input is too long, an exact match outside All, or distance 0), and the suggestions found: sorted, each the exact match or similar to the input, with the exact match present when it exists; Top gives at most one, Closest one distance |
| SymSpells.SymSpell.Lookup | library.cpp:339-504 | an empty dictionary gives nothing, and a distance beyond the dictionary's is an error; otherwise the suggestions found, recased after the input when transferCasing applies, or the unknown input at distance maxEditDistance + 1 under includeUnknown; fails only when an empty input has a term to recase |
| SymSpells.SymSpell.ToStream | library.cpp:879-921 | appends exactly the encoding of the dictionary's state in the tables' iteration order |
| SymSpells.SymSpell.ValidEncodable | library.cpp:906-913 | in a valid dictionary every word of a bucket has a position among the written words |
| SymSpells.SymSpell.StreamRoundTrip | library.cpp:879-981 | what to_stream writes, from_stream reads back as the same state with an accepted configuration, whatever follows in the stream |
| SymSpells.SymSpell.FromStream | library.cpp:923-981 | a bad header, version or configuration fails with that error; a configuration the constructor rejects fails with invalid_argument; otherwise the dictionary returned holds exactly the state decoded, and is valid when some valid dictionary has that state |
| Lookups.AllDeletesClosed | library.cpp:478-490 | deleting one more character of a candidate stays among the deletes of the input prefix |
| Lookups.AllDeletesShorter | library.cpp:478-490 | no candidate is longer than the input prefix |
| Lookups.Consider | library.cpp:405-454 | a suggestion that passes the filters was not seen before, is not the input, its length is within the current bound of the input's, and its distance is sound; the prefix filter is the corrected subsequence test (see Findings) |
| Lookups.Accept | library.cpp:456-474 | All appends the item; Closest drops the farther kept items, then appends it and lowers the bound; Top keeps the closer or more frequent one; the search state is kept |
| Lookups.ScanBucket | library.cpp:404-476 | the loop over one bucket keeps the search state and only adds to the seen suggestions |
| Lookups.Expand | library.cpp:478-490 | the seen set gains every single-character delete of the candidate; the queue keeps its entries in front and gains exactly the deletes that were not seen before, each of them |
| Lookups.Search | library.cpp:389-491 | the initial items are kept in front; every added suggestion is similar to the input; Top ends with at most one, Closest with one distance |
| Lookups.SearchSorted | library.cpp:389-494 | the result is sorted, contains the initial items, and each member is initial or similar; Top gives at most one, Closest one distance |
| Lookups.RecaseTerms | library.cpp:496-500 | fails exactly when the input is empty and some term is not; otherwise every term is recased after the input |
| Persistence.Int32RoundTrip | library.cpp:885-887 | an int widened to size_t and narrowed back is unchanged |
| Persistence.Int64RoundTrip | library.cpp:920 | an int64_t widened to size_t and narrowed back is unchanged |
| Persistence.MaskRoundTrip | library.cpp:918 | the compact mask widened to size_t and narrowed back to 32 bits is unchanged |
| Persistence.EnumeratesCount | library.cpp:891 | an iteration order of a map is as long as the map |
| Persistence.IndexOfDistinct | library.cpp:893-900 | in an iteration order, the recorded position of a word is its index |
| Persistence.DecodeChars | library.h:390-399 | a successful read gives n characters and the position right after them; a failed one is a read error (truncation or a value of the wrong type) |
| Persistence.CharsRoundTrip | library.h:327-336 | raw characters read back as written |
| Persistence.StringRoundTrip | library.h:339-345 | a string, its size then its characters, reads back as written |
| Persistence.WordMapRoundTrip | library.cpp:890-901 | a word-count map reads back as the same map, its keys in the written order |
| Persistence.PositionsRoundTrip | library.cpp:969-971 | the positions written for a bucket read back as its words, in order |
| Persistence.BucketsRoundTrip | library.cpp:963-972 | the buckets read back as the delete map that was written |
| Persistence.DeletesRoundTrip | library.cpp:957-972 | the deletes section reads back as the load factor and the delete map |
| Persistence.TailRoundTrip | library.cpp:974-978 | the trailing scalars read back as written |
| Persistence.ConfigRoundTrip | library.cpp:926-940 | the header, version and configuration read back as written, and reading stops right after them |
| Persistence.BodyRoundTrip | library.cpp:944-978 | the body reads back as the state it was written from |
| Persistence.RoundTrip | library.cpp:879-981 | the stream written for a state reads back as that state, whatever follows |
| Persistence.HeaderCheck | library.cpp:926-931 | decoding reports an invalid header exactly when the stream does not start with the header |
| Persistence.VersionCheck | library.cpp:933-935 | after the header, decoding reports an invalid version exactly when the next value is not version 1 |
| Persistence.Serializer.Write | library.h:339-341 | a value appends one token |
| Persistence.Serializer.WriteChars | library.h:327-336 | appends each character, without a size |
| Persistence.Serializer.WriteString | library.h:343-345 | appends the size, then the characters |
| Persistence.Serializer.WriteEntry | library.h:347-349 | appends the key, then the count |
| Persistence.Serializer.WriteWordMap | library.cpp:890 | appends the size, then each entry in the table's order |
| Persistence.WriteWords | library.cpp:891-901 | appends the word map's encoding and records each word's index in the iteration order |
| Persistence.WriteBuckets | library.cpp:906-914 | appends each hash, its bucket's size and its words' positions |
| Persistence.WriteConfig | library.cpp:882-888 | appends the header, the version and the configuration |
| Persistence.WriteStream | library.cpp:879-921 | appends exactly the encoding of the state in the given orders |
| Persistence.Deserializer.ReadChars | library.h:390-399 | reads what DecodeChars decodes and advances past it, or fails as it does |
| Persistence.Deserializer.ReadString | library.h:374-376 | reads what DecodeString decodes and advances past it |
| Persistence.Deserializer.ReadWordMap | library.cpp:944-955 | reads what DecodeWordMap decodes and advances past it |
| Persistence.Deserializer.ReadBuckets | library.cpp:963-972 | reads what DecodeBuckets decodes, a repeated hash appending to its bucket |
| Persistence.ReadConfig | library.cpp:926-940 | reads what DecodeConfig decodes: the header and version checks, then the configuration |
| Persistence.ReadBody | library.cpp:944-978 | reads what DecodeBody decodes |
| Segmentation.Probe | library.cpp:780-818 | without whitespace, the candidate's part is the input slice without whitespace, and a separator is needed exactly when the slice does not start with whitespace |
| Segmentation.StripRemoveBlanks | library.cpp:795 | erasing the spaces loses nothing a segmentation keeps |
| Segmentation.AdjacentOnlyPunctuation | library.cpp:850-853 | a word is kept adjacent exactly when it is one punctuation character; the quote test never holds |
| Segmentation.Combine | library.cpp:836-869 | the slot is kept, or becomes the circular composition followed by a blank separator and the part; at the maximum word length it is always the latter |
| Segmentation.CombineCovers | library.cpp:836-869 | a written slot covers the input up to j + i |
| Segmentation.JoinCovers | library.cpp:846-866 | a covering of the first j characters, a blank separator and a covering of the next i cover the first j + i |
| Segmentation.ModSlot | library.cpp:820 | the destination index (i + circularIndex) % arraySize is the slot i places after circularIndex |
| Segmentation.WindowAdvance | library.cpp:872-874 | after circularIndex advances, each slot ahead of it holds the covering of the prefix ending there |
| Segmentation.Extend | library.cpp:779-870 | one candidate step keeps every slot a covering of the prefix it records, and writes the slot i places ahead |
| Segmentation.Advance | library.cpp:776-875 | one outer step keeps every slot a covering, and the window ahead of the next circularIndex is complete |
| Segmentation.WordSegmentation | library.cpp:765-877 | for non-empty input, the segmented string without whitespace is the input without whitespace |
| Segmentation.TrimmedLine | library.cpp:740-746 | when the last term does not end in whitespace, the trimmed line is the terms separated by single spaces |
| Segmentation.CompoundResult | library.cpp:737-754 | exactly one item; fails exactly when recasing an empty input is asked for a non-empty line; its term is the right-trimmed line, recased after the input when asked; its count is N times the product of the parts' count ratios, truncated toward zero; its distance is the comparer's |
| Segmentation.ProductNonNegative | library.cpp:737-743 | with no negative part count, the compound count before truncation is not negative |

## Left out

- Segmentation.WordSegmentation: requires a non-empty input and a
  positive maximum word length. For an empty input the source reads
  `compositions[-1]` (library.cpp:876), which is undefined behaviour.
- SuggestItems.SortItems: assumes that `std::sort` on suggestions orders
  them by `CompareTo(...) < 0`. The `operator<` it uses is not part of this
  model.
- Floating point:
  - Scores are exact reals.
  - `log10`, the single-term lookups of `WordSegmentation`, and the
    comparer of `LookupCompound` are parameters.
  - `Segmentation.WordSegmentation` states coverage of the input and keeps
    `circularIndex` in range. It does not state that the composition
    chosen is optimal.
- Not part of this model:
  - `Similarity` and the similarity/distance conversions of
    `DamerauOSA.h`;
  - the Levenshtein distance;
  - the `EditDistance.h` dispatch.
- File and text input are not modelled:
  - `LoadDictionary`, `LoadBigramDictionary`, `CreateDictionary`;
  - the regex word splitter `ParseWords`;
  - the Python bindings;
  - the stream `operator<<`.
- `strings_join` is not part of this model. It is taken to be plain
  concatenation.
- The overloads that only supply default arguments are not modelled
  separately.
- LookupCompound: only the assembly after the parts are chosen
  (library.cpp:737-754) is modelled. The part selection loop before it is
  not.
- Bigrams and the delete table's load factor are carried as opaque values
  through the stream.
- Hash-table iteration orders are parameters (`Persistence.Orders`).
- SymSpells.SymSpell.ToStream: requires `Encodable`. `ValidEncodable`
  proves that every valid dictionary meets it.
- SymSpells.SymSpell.StreamRoundTrip: requires the longest word length to
  fit an int and `bigramCountMin` to fit an int64_t. Otherwise the narrowing
  on reading changes them.
- The stream is modelled as a sequence of typed tokens, not bytes. The
  byte layout of each value is abstracted away. A token read as the wrong
  type gives `Malformed`; the source has no such failure, because it
  reinterprets whatever bytes come next.
- SymSpells.SymSpell.CreateDictionaryEntry: the contract says that copies
  of the word are appended to exactly the buckets of its deletes' hashes,
  but not how many. The body appends one copy per delete with that hash,
  as library.cpp:112-115 does.
- Persistence.DecodeBody: reading past the end gives `Failure(Truncated)`.
  The source's stream reads zeros there instead, and sets its fail bit,
  which `from_stream` does not check.
- Persistence.DecodeAlgorithm: an algorithm code other than 0 or 1 gives
  `Malformed`. In the source that value is undefined.
- Persistence.DecodePositions: a word position out of range gives
  `OutOfRange`. The source's `words_pos[...]` has undefined behaviour there.
- SymSpells.SymSpell.FromStream: the dictionary it returns is proved valid
  only when some valid dictionary has the state decoded. An arbitrary
  stream can describe an inconsistent index.
- The serializer and deserializer declared in library.h have no branch
  for maps, although `to_stream` and `from_stream` (library.cpp:890, 945)
  pass them a words map. That code is not part of this model. The
  model assumes that a map is written as its size followed by its
  (key, count) pairs and read back the same way.
- The delete buckets of library.cpp hold iterators into the words table
  (library.cpp:114, 131, 166-169, 404-406, 909-913, 969-971), not strings.
  The model stores the words themselves. `DeleteDictionaryEntry` removes
  every copy of the word from a bucket where the source's `std::remove`
  compares iterators. The two agree because each word has exactly one
  entry in the words table. Iterator invalidation on rehashing is not
  modelled.
- Persistence.DecodeConfig: a stream that ends inside the header or the
  configuration gives `Failure(Truncated)`, as the body does. The source
  reads zeros there and does not check the stream's state.
- The constructor's declaration in library.h (library.h:151-155) does not
  match its definition in library.cpp. The model follows library.cpp:38-58.
- The casts of input sizes from `size_t` to `int` are not modelled. Strings
  are assumed shorter than 2^31 characters.
- DamerauOSA.DamerauOsa.DistanceBounded: takes an integer bound. The
  source's `ceil` of a double bound (DamerauOSA.h:51) is then the identity.
- SuggestItems.CompareTo: the term comparison gives only the sign of
  `std::string::compare` (-1, 0 or 1). The sort only tests that sign.
- Helpers.TransferCasingForSimilarText: the difflib alignment of the two
  texts is passed in as a function, `align`.
- Lookups.Consider: filters candidates with the corrected
  `DeletePrefix.DeleteInSuggestionPrefix` (a subsequence test), not with
  the test as written at library.cpp:506-517 that library.cpp:449 calls.
  This is deliberate (see Findings). The written test accepts more
  suggestions, for example "ab" for the candidate "aa" when their hashes
  collide. The source then computes such a suggestion's distance and may
  keep it, where the model skips it. Under Top, `Accept` keeps the first of
  several equally good items, so the model's result can differ from the
  program's. Both filters accept only suggestions whose distance is then
  verified, so the soundness, Top and Closest properties hold for either.
- SymSpells.SymSpell.Lookup: proves soundness and the shape of the
  result. It does not prove completeness, i.e. that every dictionary word
  within the distance is found.
- The right single quotation mark test of WordSegmentation
  (library.cpp:850-853) compares a two-character word with a three-byte
  prefix in the narrow build. It never holds, and the model keeps it as
  written.
- The Unicode build (`UNICODE_SUPPORT`) is not modelled. Characters are
  classified as in the C locale of the narrow build.

## Findings

| source | as written | input that shows it | evidently intended | confidence | as-written member | corrected member |
|---|---|---|---|---|---|---|
| library.cpp:506-517 | after a character of the delete matches, the position in the suggestion does not advance, so one position can match several characters of the delete | delete "aa" against suggestion prefix "ab" is accepted although "aa" is not a subsequence of "ab" | every character of the delete occurs in the suggestion's prefix in order, at distinct positions (a subsequence test) | not executed | DeletePrefix.DeleteInSuggestionPrefixAsWritten, DeletePrefix.ReuseAcceptsNonSubsequence | DeletePrefix.DeleteInSuggestionPrefix |

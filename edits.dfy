/**
 * The deletes of a dictionary word: the strings obtained by deleting up to
 * maxDictionaryEditDistance characters from the word's prefix.  The
 * dictionary files the word under the hash of each of them.
 */
module Edits {
  /** word with the character at position i deleted. */
  function Without(word: string, i: int): (r: string)
    requires 0 <= i < |word|
    ensures |r| == |word| - 1
  {
    word[..i] + word[i + 1..]
  }

  /**
   * s is obtained from w by deleting k characters, one after the other.
   */
  ghost predicate ObtainedByDeleting(s: string, w: string, k: nat)
    decreases k
  {
    if k == 0 then s == w
    else exists i :: 0 <= i < |w| && ObtainedByDeleting(s, Without(w, i), k - 1)
  }

  /** Deleting k characters shortens the string by k. */
  lemma {:induction false} ObtainedLength(s: string, w: string, k: nat)
    requires ObtainedByDeleting(s, w, k)
    ensures |s| == |w| - k
    decreases k
  {
    if k > 0 {
      var i :| 0 <= i < |w| && ObtainedByDeleting(s, Without(w, i), k - 1);
      ObtainedLength(s, Without(w, i), k - 1);
    }
  }

  /**
   * What Edits(word, editDistance) adds to an empty set: every one-character
   * delete of a word longer than one character, and, while editDistance + 1
   * is below maxDistance, the deletes of each of those in turn.
   */
  ghost function EditsSet(word: string, editDistance: int, maxDistance: int): set<string>
    decreases |word|, 1
  {
    if |word| > 1 then EditsUpTo(word, editDistance, maxDistance, |word|) else {}
  }

  /** The part of EditsSet(word, ...) that comes from deleting one of the first n positions. */
  ghost function EditsUpTo(word: string, editDistance: int, maxDistance: int, n: int): set<string>
    requires 0 <= n <= |word|
    decreases |word|, 0, n
  {
    if n == 0 then {}
    else
      var del := Without(word, n - 1);
      EditsUpTo(word, editDistance, maxDistance, n - 1) + {del} +
      (if editDistance + 1 < maxDistance then EditsSet(del, editDistance + 1, maxDistance) else {})
  }

  /** What a call Edits(s, depth) would add: nothing when the depth is not below maxDistance. */
  ghost function Expansion(s: string, depth: int, maxDistance: int): set<string> {
    if depth < maxDistance then EditsSet(s, depth, maxDistance) else {}
  }

  /** Every delete is a non-empty string shorter than the word. */
  lemma {:induction false} EditsShorter(word: string, editDistance: int, maxDistance: int, s: string)
    requires s in EditsSet(word, editDistance, maxDistance)
    ensures 1 <= |s| < |word|
    decreases |word|, 1
  {
    EditsUpToShorter(word, editDistance, maxDistance, |word|, s);
  }

  lemma {:induction false} EditsUpToShorter(word: string, editDistance: int, maxDistance: int, n: int, s: string)
    requires |word| > 1 && 0 <= n <= |word|
    requires s in EditsUpTo(word, editDistance, maxDistance, n)
    ensures 1 <= |s| < |word|
    decreases |word|, 0, n
  {
    var del := Without(word, n - 1);
    if s in EditsUpTo(word, editDistance, maxDistance, n - 1) {
      EditsUpToShorter(word, editDistance, maxDistance, n - 1, s);
    } else if s != del {
      EditsShorter(del, editDistance + 1, maxDistance, s);
    }
  }

  /**
   * How many characters Edits(word, editDistance) deletes at most: down to
   * maxDistance, but always at least one.
   */
  function DeleteBound(editDistance: int, maxDistance: int): (r: int)
    ensures r >= 1 && r >= maxDistance - editDistance
    ensures r == 1 || r == maxDistance - editDistance
  {
    if maxDistance - editDistance > 1 then maxDistance - editDistance else 1
  }

  /**
   * The deletes Edits(word, editDistance) produces are exactly the
   * non-empty strings obtained by deleting between 1 and
   * max(1, maxDistance - editDistance) characters of the word.
   */
  lemma EditsSetMembers(word: string, editDistance: int, maxDistance: int, s: string)
    ensures s in EditsSet(word, editDistance, maxDistance) <==>
      1 <= |s| && exists k: nat :: 1 <= k <= DeleteBound(editDistance, maxDistance) && ObtainedByDeleting(s, word, k)
  {
    if s in EditsSet(word, editDistance, maxDistance) {
      EditsSound(word, editDistance, maxDistance, s);
    }
    if 1 <= |s| && exists k: nat :: 1 <= k <= DeleteBound(editDistance, maxDistance) && ObtainedByDeleting(s, word, k) {
      var k: nat :| 1 <= k <= DeleteBound(editDistance, maxDistance) && ObtainedByDeleting(s, word, k);
      EditsComplete(word, editDistance, maxDistance, s, k);
    }
  }

  lemma {:induction false} EditsSound(word: string, editDistance: int, maxDistance: int, s: string)
    requires s in EditsSet(word, editDistance, maxDistance)
    ensures 1 <= |s| && exists k: nat :: 1 <= k <= DeleteBound(editDistance, maxDistance) && ObtainedByDeleting(s, word, k)
    decreases |word|, 1
  {
    EditsShorter(word, editDistance, maxDistance, s);
    EditsUpToSound(word, editDistance, maxDistance, |word|, s);
  }

  lemma {:induction false} EditsUpToSound(word: string, editDistance: int, maxDistance: int, n: int, s: string)
    requires |word| > 1 && 0 <= n <= |word|
    requires s in EditsUpTo(word, editDistance, maxDistance, n)
    ensures exists k: nat :: 1 <= k <= DeleteBound(editDistance, maxDistance) && ObtainedByDeleting(s, word, k)
    decreases |word|, 0, n
  {
    var del := Without(word, n - 1);
    if s in EditsUpTo(word, editDistance, maxDistance, n - 1) {
      EditsUpToSound(word, editDistance, maxDistance, n - 1, s);
    } else if s == del {
      assert ObtainedByDeleting(s, del, 0);
      assert ObtainedByDeleting(s, word, 1);
    } else {
      EditsSound(del, editDistance + 1, maxDistance, s);
      var k: nat :| 1 <= k <= DeleteBound(editDistance + 1, maxDistance) && ObtainedByDeleting(s, del, k);
      assert ObtainedByDeleting(s, word, k + 1);
    }
  }

  lemma {:induction false} EditsComplete(word: string, editDistance: int, maxDistance: int, s: string, k: nat)
    requires 1 <= |s| && 1 <= k <= DeleteBound(editDistance, maxDistance) && ObtainedByDeleting(s, word, k)
    ensures s in EditsSet(word, editDistance, maxDistance)
    decreases |word|
  {
    var i :| 0 <= i < |word| && ObtainedByDeleting(s, Without(word, i), k - 1);
    var del := Without(word, i);
    ObtainedLength(s, del, k - 1);
    if k == 1 {
      assert s == del;
    } else {
      EditsComplete(del, editDistance + 1, maxDistance, s, k - 1);
    }
    EditsUpToHas(word, editDistance, maxDistance, |word|, i);
  }

  /** EditsUpTo(word, ..., n) holds the delete at each position below n, and what it expands to. */
  lemma {:induction false} EditsUpToHas(word: string, editDistance: int, maxDistance: int, n: int, i: int)
    requires 0 <= i < n <= |word|
    ensures Without(word, i) in EditsUpTo(word, editDistance, maxDistance, n)
    ensures Expansion(Without(word, i), editDistance + 1, maxDistance) <= EditsUpTo(word, editDistance, maxDistance, n)
    decreases n
  {
    if i < n - 1 {
      EditsUpToHas(word, editDistance, maxDistance, n - 1, i);
    }
  }

  /**
   * Every string of `deleteWords` shorter than a word at this depth has
   * already had its own deletes added (the depth of a string is fixed by its
   * length, `top` minus its length).
   */
  ghost predicate Closed(deleteWords: set<string>, top: int, below: int, maxDistance: int) {
    forall s :: s in deleteWords && |s| < below ==> Expansion(s, top - |s|, maxDistance) <= deleteWords
  }

  /**
   * Edits: adds every one-character delete of word to deleteWords and, for
   * each delete not already there, recurses while editDistance + 1 is below
   * maxDictionaryEditDistance.  The result is deleteWords with EditsSet
   * added, given that the shorter strings already present are expanded.
   */
  method Edits(word: string, editDistance: int, deleteWords: set<string>, maxDictionaryEditDistance: int)
    returns (r: set<string>)
    requires Closed(deleteWords, editDistance + |word|, |word|, maxDictionaryEditDistance)
    ensures r == deleteWords + EditsSet(word, editDistance, maxDictionaryEditDistance)
    ensures Closed(r, editDistance + |word|, |word|, maxDictionaryEditDistance)
    decreases |word|, 0
  {
    r := deleteWords;
    if |word| > 1 {
      for i := 0 to |word|
        invariant r == deleteWords + EditsUpTo(word, editDistance, maxDictionaryEditDistance, i)
        invariant Closed(r, editDistance + |word|, |word|, maxDictionaryEditDistance)
      {
        EditsUpToStep(word, editDistance, maxDictionaryEditDistance, i);
        r := AddDelete(Without(word, i), editDistance + 1, editDistance + |word|, |word|, r, maxDictionaryEditDistance);
      }
    }
  }

  /**
   * One iteration of Edits' loop: del is added and, when it was not there
   * yet and the depth allows, its own deletes with it.
   */
  method AddDelete(del: string, depth: int, top: int, below: int, deleteWords: set<string>, maxDictionaryEditDistance: int)
    returns (r: set<string>)
    requires |del| < below && depth == top - |del|
    requires Closed(deleteWords, top, below, maxDictionaryEditDistance)
    ensures r == deleteWords + {del} + Expansion(del, depth, maxDictionaryEditDistance)
    ensures Closed(r, top, below, maxDictionaryEditDistance)
    decreases |del|, 1
  {
    r := deleteWords;
    if del !in r {
      r := r + {del};
      if depth < maxDictionaryEditDistance {
        r := Edits(del, depth, r, maxDictionaryEditDistance);
        forall s | s in r && s !in deleteWords && s != del ensures |s| < |del| {
          EditsShorter(del, depth, maxDictionaryEditDistance, s);
        }
      }
      ClosedAfterAdding(deleteWords, r, del, top, below, maxDictionaryEditDistance);
    }
  }

  /** One more position: its delete and what that delete expands to. */
  lemma EditsUpToStep(word: string, editDistance: int, maxDistance: int, i: int)
    requires 0 <= i < |word|
    ensures EditsUpTo(word, editDistance, maxDistance, i + 1) ==
      EditsUpTo(word, editDistance, maxDistance, i) + {Without(word, i)} + Expansion(Without(word, i), editDistance + 1, maxDistance)
  {
  }

  /**
   * Adding del, its expansion and strings shorter than del (themselves
   * expanded) keeps every string below `below` expanded.
   */
  lemma ClosedAfterAdding(before: set<string>, r: set<string>, del: string, top: int, below: int, maxDistance: int)
    requires Closed(before, top, below, maxDistance) && before <= r && del in r
    requires |del| < below && Expansion(del, top - |del|, maxDistance) <= r
    requires Closed(r, top, |del|, maxDistance)
    requires forall s :: s in r && s !in before && s != del ==> |s| < |del|
    ensures Closed(r, top, below, maxDistance)
  {
  }

  /** The part of a key that is indexed: its first prefixLength characters. */
  function KeyPrefix(key: string, prefixLength: int): (r: string)
    ensures |r| <= |key| && r == key[..|r|]
    ensures |r| == |key| || |r| == prefixLength
  {
    if |key| > prefixLength && prefixLength >= 0 then key[..prefixLength] else key
  }

  /**
   * Everything EditsPrefix(key) returns: the key's prefix, its deletes, and
   * the empty string when the key is no longer than maxDictionaryEditDistance.
   */
  ghost function EditsPrefixSet(key: string, prefixLength: int, maxDictionaryEditDistance: int): set<string> {
    var p := KeyPrefix(key, prefixLength);
    (if |key| <= maxDictionaryEditDistance then {[]} else {}) + {p} + EditsSet(p, 0, maxDictionaryEditDistance)
  }

  /**
   * EditsPrefix: starts from the key's prefix (and the empty string for a
   * short key) and adds the prefix's deletes.
   */
  method EditsPrefix(key: string, prefixLength: int, maxDictionaryEditDistance: int) returns (r: set<string>)
    ensures r == EditsPrefixSet(key, prefixLength, maxDictionaryEditDistance)
  {
    r := {};
    if |key| <= maxDictionaryEditDistance {
      r := r + {[]};
    }
    var subKey := KeyPrefix(key, prefixLength);
    r := r + {subKey};
    r := Edits(subKey, 0, r, maxDictionaryEditDistance);
  }

  /**
   * A string is filed for key exactly when it is the key's prefix, the empty
   * string for a key no longer than maxDictionaryEditDistance, or a
   * non-empty string obtained by deleting 1 to max(1,
   * maxDictionaryEditDistance) characters of the prefix.
   */
  lemma EditsPrefixMembers(key: string, prefixLength: int, maxDictionaryEditDistance: int, s: string)
    ensures s in EditsPrefixSet(key, prefixLength, maxDictionaryEditDistance) <==>
      (s == [] && |key| <= maxDictionaryEditDistance) ||
      s == KeyPrefix(key, prefixLength) ||
      (1 <= |s| && exists k: nat ::
        1 <= k <= DeleteBound(0, maxDictionaryEditDistance) && ObtainedByDeleting(s, KeyPrefix(key, prefixLength), k))
  {
    EditsSetMembers(KeyPrefix(key, prefixLength), 0, maxDictionaryEditDistance, s);
  }

  /** Every string filed for a key is at most as long as the key's prefix, and never longer than prefixLength. */
  lemma EditsPrefixShorter(key: string, prefixLength: int, maxDictionaryEditDistance: int, s: string)
    requires prefixLength >= 1
    requires s in EditsPrefixSet(key, prefixLength, maxDictionaryEditDistance)
    ensures |s| <= |KeyPrefix(key, prefixLength)| <= prefixLength
  {
    var p := KeyPrefix(key, prefixLength);
    if s in EditsSet(p, 0, maxDictionaryEditDistance) {
      EditsShorter(p, 0, maxDictionaryEditDistance, s);
    }
  }
}

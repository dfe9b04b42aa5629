/**
 * The PHP string built-ins the spellcheck area relies on: `str_replace` with a
 * single search string, `strtolower`, and what `empty()` says of a string.
 */
module PhpStrings {

  /** `pat` occurs in `s` starting at index `i`. */
  predicate OccursAt(s: string, pat: string, i: int) {
    0 <= i && i + |pat| <= |s| && s[i..i + |pat|] == pat
  }

  /** `pat` occurs somewhere in `s`. */
  ghost predicate Occurs(s: string, pat: string) {
    exists i :: OccursAt(s, pat, i)
  }

  /**
   * `str_replace(pat, rep, s)`: scanning `s` from the left, every occurrence of
   * `pat` that does not overlap an occurrence already replaced becomes `rep`.
   * An empty search string leaves the subject as it is.
   */
  function Replace(s: string, pat: string, rep: string): string
    decreases |s|
  {
    if pat == [] || |s| < |pat| then s
    else if s[..|pat|] == pat then rep + Replace(s[|pat|..], pat, rep)
    else [s[0]] + Replace(s[1..], pat, rep)
  }

  /** PHP's `empty()` on a string: true of "" and of "0". */
  function Empty(s: string): bool
  {
    s == "" || s == "0"
  }

  function LowerChar(ch: char): char {
    if 'A' <= ch <= 'Z' then (ch as int + 32) as char else ch
  }

  /** `strtolower`: ASCII upper-case letters become lower-case, nothing else changes. */
  function ToLower(s: string): (r: string)
    ensures |r| == |s|
    ensures forall i :: 0 <= i < |r| ==> !('A' <= r[i] <= 'Z')
    ensures forall i :: 0 <= i < |r| && !('A' <= s[i] <= 'Z') ==> r[i] == s[i]
    ensures forall i :: 0 <= i < |r| && 'A' <= s[i] <= 'Z' ==> r[i] as int == s[i] as int + 32
  {
    seq(|s|, i requires 0 <= i < |s| => LowerChar(s[i]))
  }

  lemma ToLowerIdempotent(s: string)
    ensures ToLower(ToLower(s)) == ToLower(s)
  {
  }

  // ---------------------------------------------------------------------------
  // Occurrences in a suffix

  lemma OccursInSuffix(s: string, pat: string, k: nat)
    requires k <= |s|
    ensures Occurs(s[k..], pat) ==> Occurs(s, pat)
  {
    if Occurs(s[k..], pat) {
      var i :| OccursAt(s[k..], pat, i);
      assert s[k..][i..i + |pat|] == s[k + i..k + i + |pat|];
      assert OccursAt(s, pat, k + i);
    }
  }

  lemma OccursPastHead(s: string, pat: string)
    requires |s| > 0 && Occurs(s, pat) && !OccursAt(s, pat, 0)
    ensures Occurs(s[1..], pat)
  {
    var i :| OccursAt(s, pat, i);
    assert s[1..][i - 1..i - 1 + |pat|] == s[i..i + |pat|];
    assert OccursAt(s[1..], pat, i - 1);
  }

  // ---------------------------------------------------------------------------
  // str_replace

  /** A search string that does not occur leaves the subject unchanged. */
  lemma {:induction false} ReplaceAbsent(s: string, pat: string, rep: string)
    requires !Occurs(s, pat)
    ensures Replace(s, pat, rep) == s
    decreases |s|
  {
    if pat != [] && |s| >= |pat| {
      assert !OccursAt(s, pat, 0);
      OccursInSuffix(s, pat, 1);
      ReplaceAbsent(s[1..], pat, rep);
    }
  }

  /** Replacing a string by itself changes nothing. */
  lemma {:induction false} ReplaceBySelf(s: string, pat: string)
    ensures Replace(s, pat, pat) == s
    decreases |s|
  {
    if pat != [] && |s| >= |pat| {
      if s[..|pat|] == pat {
        ReplaceBySelf(s[|pat|..], pat);
        assert s == s[..|pat|] + s[|pat|..];
      } else {
        ReplaceBySelf(s[1..], pat);
        assert s == [s[0]] + s[1..];
      }
    }
  }

  /**
   * Each replacement changes the length by |rep| - |pat|: a longer replacement
   * never shortens the subject, a shorter one never lengthens it, and when the
   * search string occurs and the lengths differ, the length changes.
   */
  lemma {:induction false} ReplaceLength(s: string, pat: string, rep: string)
    requires pat != []
    ensures |rep| >= |pat| ==> |Replace(s, pat, rep)| >= |s|
    ensures |rep| <= |pat| ==> |Replace(s, pat, rep)| <= |s|
    ensures Occurs(s, pat) && |rep| != |pat| ==> |Replace(s, pat, rep)| != |s|
    decreases |s|
  {
    if |s| < |pat| {
    } else if s[..|pat|] == pat {
      ReplaceLength(s[|pat|..], pat, rep);
    } else {
      ReplaceLength(s[1..], pat, rep);
      if Occurs(s, pat) {
        OccursPastHead(s, pat);
      }
    }
  }

  /** With lengths equal, an unchanged subject means the search string is absent or equals its replacement. */
  lemma {:induction false} ReplaceUnchangedSameLength(s: string, pat: string, rep: string)
    requires pat != [] && |rep| == |pat|
    requires Replace(s, pat, rep) == s
    ensures rep == pat || !Occurs(s, pat)
    decreases |s|
  {
    if |s| < |pat| {
    } else if s[..|pat|] == pat {
      assert Replace(s, pat, rep)[..|pat|] == rep;
    } else {
      assert Replace(s, pat, rep) == [s[0]] + Replace(s[1..], pat, rep);
      assert Replace(s[1..], pat, rep) == s[1..];
      ReplaceUnchangedSameLength(s[1..], pat, rep);
      if rep != pat && Occurs(s, pat) {
        OccursPastHead(s, pat);
        assert false;
      }
    }
  }

  /**
   * A non-empty search string leaves the subject unchanged exactly when it does
   * not occur in it or it equals its replacement.
   */
  lemma ReplaceUnchangedIff(s: string, pat: string, rep: string)
    requires pat != []
    ensures Replace(s, pat, rep) == s <==> (rep == pat || !Occurs(s, pat))
  {
    if rep == pat {
      ReplaceBySelf(s, pat);
    } else if !Occurs(s, pat) {
      ReplaceAbsent(s, pat, rep);
    } else if |rep| != |pat| {
      ReplaceLength(s, pat, rep);
    } else if Replace(s, pat, rep) == s {
      ReplaceUnchangedSameLength(s, pat, rep);
    }
  }

  /**
   * `Replace` splits `s` at an occurrence of `pat` at `i`: the text before `i`
   * is kept, that occurrence becomes `rep`, and the scan resumes after it.
   */
  ghost predicate SplitsAt(s: string, pat: string, rep: string, i: nat) {
    i + |pat| <= |s| && Replace(s, pat, rep) == s[..i] + rep + Replace(s[i + |pat|..], pat, rep)
  }

  /**
   * Left-to-right scanning: `Replace` splits the subject at the first
   * occurrence of `pat`.
   */
  lemma {:induction false} ReplaceAtFirstOccurrence(s: string, pat: string, rep: string, i: nat)
    requires pat != [] && OccursAt(s, pat, i)
    requires forall j :: 0 <= j < i ==> !OccursAt(s, pat, j)
    ensures SplitsAt(s, pat, rep, i)
    decreases i
  {
    if i == 0 {
      ReplaceAtHead(s, pat, rep);
    } else {
      assert !OccursAt(s, pat, 0);
      FirstOccurrenceInTail(s, pat, i);
      ReplaceAtFirstOccurrence(s[1..], pat, rep, i - 1);
      ReplaceStepPastHead(s, pat, rep, i);
    }
  }

  /** Where `pat` starts the subject, it is replaced and the scan resumes after it. */
  lemma ReplaceAtHead(s: string, pat: string, rep: string)
    requires pat != [] && OccursAt(s, pat, 0)
    ensures SplitsAt(s, pat, rep, 0)
  {
    assert s[..|pat|] == pat;
    assert s[..0] + rep == rep;
  }

  /** One step of `ReplaceAtFirstOccurrence`: from the subject's tail to the subject. */
  lemma ReplaceStepPastHead(s: string, pat: string, rep: string, i: nat)
    requires pat != [] && 0 < i <= |s| && !OccursAt(s, pat, 0)
    requires SplitsAt(s[1..], pat, rep, i - 1)
    ensures SplitsAt(s, pat, rep, i)
  {
    ReplaceSkipsHead(s, pat, rep);
    assert s[1..][i - 1 + |pat|..] == s[i + |pat|..];
    PrependToSplit(s, i, rep, Replace(s, pat, rep), Replace(s[1..], pat, rep), Replace(s[i + |pat|..], pat, rep));
  }

  /** Putting back the head of `s` in front of a split of its tail. */
  lemma PrependToSplit(s: string, i: nat, rep: string, whole: string, tailPart: string, rest: string)
    requires 0 < i <= |s|
    requires whole == [s[0]] + tailPart
    requires tailPart == s[1..][..i - 1] + rep + rest
    ensures whole == s[..i] + rep + rest
  {
    assert [s[0]] + s[1..][..i - 1] == s[..i];
  }

  /** Where `pat` does not start the subject, its first character is kept. */
  lemma ReplaceSkipsHead(s: string, pat: string, rep: string)
    requires pat != [] && |s| > 0 && !OccursAt(s, pat, 0)
    ensures Replace(s, pat, rep) == [s[0]] + Replace(s[1..], pat, rep)
  {
    if |s| < |pat| {
      ReplaceShort(s[1..], pat, rep);
      assert s == [s[0]] + s[1..];
    }
  }

  lemma ReplaceShort(s: string, pat: string, rep: string)
    requires |s| < |pat|
    ensures Replace(s, pat, rep) == s
  {
  }

  lemma FirstOccurrenceInTail(s: string, pat: string, i: nat)
    requires 0 < i && OccursAt(s, pat, i)
    requires forall j :: 0 <= j < i ==> !OccursAt(s, pat, j)
    ensures OccursAt(s[1..], pat, i - 1)
    ensures forall j :: 0 <= j < i - 1 ==> !OccursAt(s[1..], pat, j)
  {
    forall j | 0 <= j < i - 1
      ensures !OccursAt(s[1..], pat, j)
    {
      assert !OccursAt(s, pat, j + 1);
      assert s[1..][j..j + |pat|] == s[j + 1..j + 1 + |pat|];
    }
    assert s[1..][i - 1..i - 1 + |pat|] == s[i..i + |pat|];
  }

  /** Replacing one character by one character maps the subject character by character. */
  lemma {:induction false} ReplaceChar(s: string, c: char, d: char)
    ensures |Replace(s, [c], [d])| == |s|
    ensures forall i :: 0 <= i < |s| ==> Replace(s, [c], [d])[i] == if s[i] == c then d else s[i]
    decreases |s|
  {
    if |s| > 0 {
      ReplaceChar(s[1..], c, d);
      assert s[..1] == [s[0]];
      if s[0] == c {
        assert Replace(s, [c], [d]) == [d] + Replace(s[1..], [c], [d]);
      } else {
        assert Replace(s, [c], [d]) == [s[0]] + Replace(s[1..], [c], [d]);
      }
    }
  }
}

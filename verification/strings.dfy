/**
  The three JavaScript string operations the feed page relies on, on `string`
  (`seq<char>`): `s.includes(p)`, the first-match search behind it, and
  `s.replace(p, r)` with a string pattern, which replaces only the FIRST match.
 */
module Strings {
  import opened Wrappers

  /** `pat` occurs in `s` starting at position `i`. */
  predicate OccursAt(s: string, pat: string, i: nat) {
    i + |pat| <= |s| && s[i..i + |pat|] == pat
  }

  /** Independent, declarative reading of "s contains pat". */
  ghost predicate Occurs(s: string, pat: string) {
    exists i: nat :: OccursAt(s, pat, i)
  }

  /** `i` is the position of the first occurrence of `pat` in `s`. */
  ghost predicate FirstOccurrence(s: string, pat: string, i: nat) {
    OccursAt(s, pat, i) && forall j: nat :: j < i ==> !OccursAt(s, pat, j)
  }

  /** Left-to-right search for `pat` in `s`, starting at `from`. */
  function IndexOfFrom(s: string, pat: string, from: nat): (r: Option<nat>)
    ensures r.Some? ==> from <= r.value && OccursAt(s, pat, r.value)
    ensures r.Some? ==> forall j: nat :: from <= j < r.value ==> !OccursAt(s, pat, j)
    ensures r.None? ==> forall j: nat :: from <= j ==> !OccursAt(s, pat, j)
    decreases |s| - from
  {
    if |s| < from + |pat| then None
    else if s[from..from + |pat|] == pat then Some(from)
    else IndexOfFrom(s, pat, from + 1)
  }

  /** JavaScript `s.indexOf(pat)`, with `None` for -1. */
  function IndexOf(s: string, pat: string): (r: Option<nat>)
    ensures r.Some? <==> Occurs(s, pat)
    ensures r.Some? ==> FirstOccurrence(s, pat, r.value)
  {
    var r := IndexOfFrom(s, pat, 0);
    assert r.Some? ==> OccursAt(s, pat, r.value);
    r
  }

  /** JavaScript `s.includes(pat)`. */
  predicate Contains(s: string, pat: string) {
    IndexOf(s, pat).Some?
  }

  /** `Contains` agrees with the declarative definition, in both directions. */
  lemma ContainsIffOccurs(s: string, pat: string)
    ensures Contains(s, pat) <==> Occurs(s, pat)
  {
  }

  /** A witness position is enough to show containment. */
  lemma ContainsAt(s: string, pat: string, i: nat)
    requires OccursAt(s, pat, i)
    ensures Contains(s, pat)
  {
    assert Occurs(s, pat);
  }

  /**
    JavaScript `s.replace(pat, rep)` for a string pattern (and a replacement
    without `$` patterns): the first occurrence of `pat` is replaced by `rep`,
    and `s` is returned unchanged when `pat` does not occur.
   */
  function ReplaceFirst(s: string, pat: string, rep: string): (r: string)
    ensures !Occurs(s, pat) ==> r == s
    ensures Occurs(s, pat) ==> |r| == |s| - |pat| + |rep|
  {
    match IndexOf(s, pat)
    case None => s
    case Some(i) => s[..i] + rep + s[i + |pat|..]
  }

  /**
    The replacement splits `s` around the first occurrence: what precedes it
    and what follows it are kept, and `rep` stands in its place.
   */
  lemma ReplaceFirstSplit(s: string, pat: string, rep: string, i: nat)
    requires FirstOccurrence(s, pat, i)
    ensures ReplaceFirst(s, pat, rep) == s[..i] + rep + s[i + |pat|..]
  {
    assert Occurs(s, pat);
  }

  /** Replacing inserts `rep` at the first occurrence, so `rep` then occurs there. */
  lemma ReplaceFirstPlacesRep(s: string, pat: string, rep: string, i: nat)
    requires FirstOccurrence(s, pat, i)
    ensures OccursAt(ReplaceFirst(s, pat, rep), rep, i)
  {
    ReplaceFirstSplit(s, pat, rep, i);
    var r := ReplaceFirst(s, pat, rep);
    assert r[i..i + |rep|] == rep;
  }

  /** A pattern with a character that `s` lacks does not occur in `s`. */
  lemma AbsentByMissingChar(s: string, pat: string, c: char)
    requires c in pat && c !in s
    ensures !Contains(s, pat)
  {
    var k :| 0 <= k < |pat| && pat[k] == c;
    forall i: nat | i + |pat| <= |s|
      ensures !OccursAt(s, pat, i)
    {
      assert s[i..i + |pat|][k] == s[i + k];
    }
  }

  /** An occurrence is the first one when the prefix before it lacks the pattern's first character. */
  lemma FirstByMissingChar(s: string, pat: string, i: nat)
    requires OccursAt(s, pat, i) && |pat| > 0 && pat[0] !in s[..i]
    ensures FirstOccurrence(s, pat, i)
  {
    forall j: nat | j < i
      ensures !OccursAt(s, pat, j)
    {
      assert s[..i][j] == s[j];
    }
  }
}

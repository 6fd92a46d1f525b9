/**
 * The part of ECMAScript's String.prototype.replace that the page script uses:
 * a replace with a string pattern, which looks the pattern up with indexOf and
 * replaces only the FIRST match. The replacement strings used by the script
 * contain no `$`, so the substitution patterns of GetSubstitution do not arise.
 */
module JsString {

  datatype Option<T> = None | Some(value: T)

  /** `pat` occurs in `s` starting at index `i`. */
  predicate OccursAt(s: string, pat: string, i: nat)
  {
    i + |pat| <= |s| && s[i..i + |pat|] == pat
  }

  /** `pat` occurs somewhere in `s` (String.prototype.includes). */
  predicate Contains(s: string, pat: string)
  {
    exists i: nat | i <= |s| :: OccursAt(s, pat, i)
  }

  /**
   * ECMAScript's abstract operation StringIndexOf(s, pat, from), which `replace`
   * calls with `from` = 0: the first index at or after `from` where `pat`
   * occurs. Unlike the method `s.indexOf(pat, from)`, it does not clamp `from`
   * to the length of `s`, so an empty pattern past the end is not found.
   */
  function IndexOf(s: string, pat: string, from: nat): (r: Option<nat>)
    decreases |s| - from
    ensures r.Some? ==> from <= r.value && OccursAt(s, pat, r.value)
    ensures forall i: nat :: from <= i && (r.None? || i < r.value) ==> !OccursAt(s, pat, i)
  {
    if from + |pat| > |s| then None
    else if s[from..from + |pat|] == pat then Some(from)
    else IndexOf(s, pat, from + 1)
  }

  /** `s.replace(pat, rep)` for a string pattern: only the first match is replaced. */
  function ReplaceFirst(s: string, pat: string, rep: string): (r: string)
    ensures !Contains(s, pat) ==> r == s
    ensures Contains(s, pat) ==> |r| == |s| - |pat| + |rep|
  {
    match IndexOf(s, pat, 0)
    case None => s
    case Some(i) => s[..i] + rep + s[i + |pat|..]
  }

  /** When `i` is the first match, the replacement splices `rep` in at `i`. */
  lemma ReplaceFirstAt(s: string, pat: string, rep: string, i: nat)
    requires OccursAt(s, pat, i)
    requires forall j: nat :: j < i ==> !OccursAt(s, pat, j)
    ensures ReplaceFirst(s, pat, rep) == s[..i] + rep + s[i + |pat|..]
  {
    var r := IndexOf(s, pat, 0);
    assert r.Some?;
    assert r.value == i;
  }

  /**
   * Only the first match is replaced: a later match that does not overlap the
   * first one is still in the result, shifted by the change in length.
   */
  lemma {:induction false} ReplaceFirstKeepsLater(s: string, pat: string, rep: string, i: nat, j: nat)
    requires OccursAt(s, pat, i)
    requires forall k: nat :: k < i ==> !OccursAt(s, pat, k)
    requires OccursAt(s, pat, j) && i + |pat| <= j
    ensures OccursAt(ReplaceFirst(s, pat, rep), pat, j - |pat| + |rep|)
  {
    ReplaceFirstAt(s, pat, rep, i);
    var r := s[..i] + rep + s[i + |pat|..];
    var j' := j - |pat| + |rep|;
    var front := s[..i] + rep;
    var back := s[i + |pat|..];
    assert r == front + back;
    assert |front| == i + |rep| <= j';
    assert r[j'..j' + |pat|] == back[j - i - |pat|..j - i];
    assert back[j - i - |pat|..j - i] == s[j..j + |pat|];
  }

  /**
   * The first character of `pat` does not occur again in `pat`, so no match
   * can start inside `a` and end inside a trailing copy of `pat`.
   */
  predicate NoSelfOverlap(pat: string)
  {
    pat != [] && forall j :: 0 < j < |pat| ==> pat[j] != pat[0]
  }

  /**
   * Removing a pattern from a string that ends with it and has no other match
   * gives back the string in front of it.
   */
  lemma {:induction false} ReplaceTrailing(a: string, pat: string)
    requires NoSelfOverlap(pat)
    requires !Contains(a, pat)
    ensures ReplaceFirst(a + pat, pat, "") == a
  {
    var s := a + pat;
    var n := |a|;
    assert s[n..n + |pat|] == pat;
    assert OccursAt(s, pat, n);
    forall i: nat | i < n
      ensures !OccursAt(s, pat, i)
    {
      if i + |pat| <= n {
        assert s[i..i + |pat|] == a[i..i + |pat|];
        assert !OccursAt(a, pat, i);
      } else {
        assert s[n] == pat[0] != pat[n - i];
        assert s[i..i + |pat|][n - i] != pat[n - i];
      }
    }
    ReplaceFirstAt(s, pat, "", n);
    assert s[..n] == a;
  }

  /** `s.endsWith(suffix)`. */
  predicate EndsWith(s: string, suffix: string)
  {
    |suffix| <= |s| && s[|s| - |suffix|..] == suffix
  }

  /** A string ending with a non-empty pattern contains it. */
  lemma EndsWithContains(s: string, pat: string)
    requires EndsWith(s, pat)
    ensures Contains(s, pat)
  {
    assert OccursAt(s, pat, |s| - |pat|);
  }
}

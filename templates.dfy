/**
 * String substitution as the e-mail bodies use it:
 * `template.replace("{{otp}}", otp).replace("{{email}}", email)`.
 * JavaScript's `replace` with a string pattern replaces the FIRST
 * occurrence only, and returns the string unchanged when there is none.
 * The replacement string is not inserted literally: its `$$`, `$&`,
 * `` $` `` and `$'` stand for a dollar sign, the matched text, the text
 * before the match and the text after it (ECMAScript's GetSubstitution;
 * with a string pattern there are no capture groups, so `$1` or `$<`
 * stay as they are).
 */
module Templates {
  import opened Prelude

  /** `pat` occurs in `s` starting at position `i`. */
  predicate OccursAt(s: string, pat: string, i: nat)
  {
    i + |pat| <= |s| && s[i..i + |pat|] == pat
  }

  predicate Contains(s: string, pat: string)
  {
    exists i: nat :: i <= |s| && OccursAt(s, pat, i)
  }

  /** `i` is the leftmost position at which `pat` occurs in `s`. */
  predicate FirstOccurrence(s: string, pat: string, i: nat)
  {
    OccursAt(s, pat, i) && forall j: nat :: j < i ==> !OccursAt(s, pat, j)
  }

  /** `s.indexOf(pat, from)`: the first occurrence at or after `from`, if any. */
  function IndexFrom(s: string, pat: string, from: nat): (r: Option<nat>)
    ensures r.Some? ==> from <= r.value && OccursAt(s, pat, r.value)
    ensures r.Some? ==> forall j: nat :: from <= j < r.value ==> !OccursAt(s, pat, j)
    ensures r.None? ==> forall j: nat :: from <= j ==> !OccursAt(s, pat, j)
    decreases |s| - from
  {
    if from + |pat| > |s| then None
    else if OccursAt(s, pat, from) then Some(from)
    else IndexFrom(s, pat, from + 1)
  }

  /** `s.indexOf(pat)`: the leftmost occurrence, or none when `pat` does not occur. */
  function IndexOf(s: string, pat: string): (r: Option<nat>)
    ensures r.Some? ==> FirstOccurrence(s, pat, r.value)
    ensures r.None? <==> !Contains(s, pat)
  {
    IndexFrom(s, pat, 0)
  }

  /**
   * The text a replacement string stands for, given the matched text and
   * the text before and after the match; left to right, each `$` special
   * consumes two characters and any other character stands for itself.
   */
  function Expand(rep: string, matched: string, before: string, after: string): (r: string)
    ensures '$' !in rep ==> r == rep
    decreases |rep|
  {
    if |rep| == 0 then ""
    else if rep[0] == '$' && |rep| >= 2 && rep[1] == '$' then "$" + Expand(rep[2..], matched, before, after)
    else if rep[0] == '$' && |rep| >= 2 && rep[1] == '&' then matched + Expand(rep[2..], matched, before, after)
    else if rep[0] == '$' && |rep| >= 2 && rep[1] == '`' then before + Expand(rep[2..], matched, before, after)
    else if rep[0] == '$' && |rep| >= 2 && rep[1] == '\'' then after + Expand(rep[2..], matched, before, after)
    else
      assert '$' !in rep ==> '$' !in rep[1..];
      [rep[0]] + Expand(rep[1..], matched, before, after)
  }

  /** What replaces the occurrence of `pat` at `i`. */
  function Substitute(s: string, pat: string, rep: string, i: nat): string
    requires i + |pat| <= |s|
  {
    Expand(rep, pat, s[..i], s[i + |pat|..])
  }

  /** `s.replace(pat, rep)` for a string pattern. */
  function ReplaceFirst(s: string, pat: string, rep: string): (r: string)
    ensures !Contains(s, pat) ==> r == s
    ensures forall i: nat :: FirstOccurrence(s, pat, i) ==>
              r == s[..i] + Substitute(s, pat, rep, i) + s[i + |pat|..]
    ensures '$' !in rep ==> forall i: nat :: FirstOccurrence(s, pat, i) ==> r == s[..i] + rep + s[i + |pat|..]
  {
    match IndexOf(s, pat)
    case None => s
    case Some(i) =>
      assert forall k: nat :: FirstOccurrence(s, pat, k) ==> k == i;
      s[..i] + Substitute(s, pat, rep, i) + s[i + |pat|..]
  }

  /** In `"<p>{{email}}</p>"` the placeholder first occurs at position 3. */
  lemma PlaceholderAtThree()
    ensures FirstOccurrence("<p>{{email}}</p>", "{{email}}", 3)
  {
    var s := "<p>{{email}}</p>";
    assert s[3..12] == "{{email}}";
    forall j: nat | j < 3
      ensures !OccursAt(s, "{{email}}", j)
    {
      assert s[j..j + 9][0] == s[j] != '{';
    }
  }

  /** Any replacement of the placeholder in `"<p>{{email}}</p>"` keeps the surrounding tags. */
  lemma ReplacedBetweenTags(rep: string)
    ensures ReplaceFirst("<p>{{email}}</p>", "{{email}}", rep)
            == "<p>" + Substitute("<p>{{email}}</p>", "{{email}}", rep, 3) + "</p>"
  {
    PlaceholderAtThree();
    var s := "<p>{{email}}</p>";
    assert s[..3] == "<p>" && s[12..] == "</p>";
  }

  /** `$&` in an address substituted into a template stands for the placeholder itself. */
  lemma MatchedTextExpands()
    ensures ReplaceFirst("<p>{{email}}</p>", "{{email}}", "a$&b") == "<p>" + "a{{email}}b" + "</p>"
  {
    ReplacedBetweenTags("a$&b");
    SubstitutesMatched();
  }

  /** At position 3 the replacement `a$&b` stands for the placeholder between `a` and `b`. */
  lemma SubstitutesMatched()
    ensures Substitute("<p>{{email}}</p>", "{{email}}", "a$&b", 3) == "a{{email}}b"
  {
    var s := "<p>{{email}}</p>";
    assert s[..3] == "<p>" && s[12..] == "</p>";
    assert "a$&b"[1..] == "$&b" && "$&b"[2..] == "b" && "b"[1..] == "";
    assert Expand("b", "{{email}}", "<p>", "</p>") == "b";
    assert Expand("$&b", "{{email}}", "<p>", "</p>") == "{{email}}b";
  }

  /** `$$` in an address substituted into a template stands for one dollar sign. */
  lemma DoubleDollarExpands()
    ensures ReplaceFirst("<p>{{email}}</p>", "{{email}}", "$$") == "<p>" + "$" + "</p>"
  {
    ReplacedBetweenTags("$$");
    var s := "<p>{{email}}</p>";
    assert s[..3] == "<p>" && s[12..] == "</p>";
    assert "$$"[2..] == "";
    assert Substitute(s, "{{email}}", "$$", 3) == "$";
  }

  /** After a replacement without `$`, the replacement text occurs where the pattern first did. */
  lemma ReplaceFirstInserts(s: string, pat: string, rep: string, i: nat)
    requires FirstOccurrence(s, pat, i)
    requires '$' !in rep
    ensures OccursAt(ReplaceFirst(s, pat, rep), rep, i)
  {
    var r := ReplaceFirst(s, pat, rep);
    assert r[i..i + |rep|] == rep;
  }

  /**
   * Replacing a non-empty pattern cannot destroy a non-empty occurrence of
   * `sub` when no character of `sub` appears in the pattern: the occurrence
   * survives, possibly shifted.
   */
  lemma ReplaceFirstKeeps(s: string, pat: string, rep: string, sub: string, k: nat)
    requires |pat| > 0 && |sub| > 0
    requires OccursAt(s, sub, k)
    requires forall c :: c in sub ==> c !in pat
    ensures Contains(ReplaceFirst(s, pat, rep), sub)
  {
    match IndexOf(s, pat)
    case None =>
      assert OccursAt(ReplaceFirst(s, pat, rep), sub, k);
    case Some(i) =>
      if k + |sub| <= i {
        KeptBefore(s, pat, rep, sub, i, k);
      } else if i + |pat| <= k {
        KeptAfter(s, pat, rep, sub, i, k);
      } else {
        OverlapSharesChar(s, pat, sub, i, k);
        assert false;
      }
  }

  /** An occurrence that ends before the replaced one stays in place. */
  lemma KeptBefore(s: string, pat: string, rep: string, sub: string, i: nat, k: nat)
    requires FirstOccurrence(s, pat, i) && OccursAt(s, sub, k)
    requires k + |sub| <= i
    ensures OccursAt(ReplaceFirst(s, pat, rep), sub, k)
  {
    var r := ReplaceFirst(s, pat, rep);
    assert r == s[..i] + Substitute(s, pat, rep, i) + s[i + |pat|..];
    assert r[k..k + |sub|] == s[k..k + |sub|];
  }

  /** An occurrence that starts after the replaced one moves by the change in length. */
  lemma KeptAfter(s: string, pat: string, rep: string, sub: string, i: nat, k: nat)
    requires FirstOccurrence(s, pat, i) && OccursAt(s, sub, k)
    requires i + |pat| <= k
    ensures OccursAt(ReplaceFirst(s, pat, rep), sub, k - |pat| + |Substitute(s, pat, rep, i)|)
  {
    var r := ReplaceFirst(s, pat, rep);
    var x := Substitute(s, pat, rep, i);
    var m := k - |pat| + |x|;
    assert r == s[..i] + x + s[i + |pat|..];
    assert r[m..m + |sub|] == s[k..k + |sub|];
  }

  /** Two occurrences that overlap share a character. */
  lemma OverlapSharesChar(s: string, pat: string, sub: string, i: nat, k: nat)
    requires OccursAt(s, pat, i) && OccursAt(s, sub, k)
    requires |pat| > 0 && |sub| > 0
    requires k < i + |pat| && i < k + |sub|
    ensures exists c :: c in sub && c in pat
  {
    var p := if k < i then i else k;
    assert s[k..k + |sub|][p - k] == s[p];
    assert s[i..i + |pat|][p - i] == s[p];
    assert sub[p - k] in sub && sub[p - k] in pat;
  }
}

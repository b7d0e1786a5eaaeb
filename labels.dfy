/** Label normalisation and de-duplication: `normalizeLabel` and `unique`
    (src/context/RecipesContext.tsx), and the filter that drops one label
    that the removal operations apply to label lists. */
module Labels {

  /** The characters `String.prototype.trim` strips: the ECMAScript WhiteSpace
      and LineTerminator code points (all of them lie in the Basic Multilingual
      Plane, so UTF-16 code units and Dafny characters agree on them). */
  const WhitespaceCodes: set<int> := {
    0x09, 0x0A, 0x0B, 0x0C, 0x0D, 0x20, 0xA0, 0x1680,
    0x2000, 0x2001, 0x2002, 0x2003, 0x2004, 0x2005, 0x2006, 0x2007, 0x2008, 0x2009, 0x200A,
    0x2028, 0x2029, 0x202F, 0x205F, 0x3000, 0xFEFF
  }

  predicate IsWhitespace(c: char) {
    c as int in WhitespaceCodes
  }

  /** Visible ASCII characters are never white space. */
  lemma VisibleAsciiIsNotWhitespace(c: char)
    requires 0x21 <= c as int <= 0x7E
    ensures !IsWhitespace(c)
  {
  }

  /** A string made only of white space (the empty string included). */
  predicate IsBlank(s: string) {
    forall i :: 0 <= i < |s| ==> IsWhitespace(s[i])
  }

  /** No white space at either end. */
  predicate IsTrimmed(s: string) {
    s == [] || (!IsWhitespace(s[0]) && !IsWhitespace(s[|s| - 1]))
  }

  /** What the store accepts as a registered label: trimmed and not empty. */
  predicate IsLabel(s: string) {
    s != [] && IsTrimmed(s)
  }

  predicate NoDuplicates(s: seq<string>) {
    forall i, j :: 0 <= i < j < |s| ==> s[i] != s[j]
  }

  /** A duplicate-free list of labels: the shape `unique` always returns. */
  predicate IsLabelList(s: seq<string>) {
    NoDuplicates(s) && forall i :: 0 <= i < |s| ==> IsLabel(s[i])
  }

  /** `normalizeLabel`: strips white space from both ends of the value. The result has no white space at either end, and a value that is
      already trimmed is returned as is (so normalising is idempotent). */
  function NormalizeLabel(value: string): (r: string)
    ensures IsTrimmed(r)
    ensures IsTrimmed(value) ==> r == value
  {
    if value != [] && IsWhitespace(value[0]) then NormalizeLabel(value[1..])
    else if value != [] && IsWhitespace(value[|value| - 1]) then NormalizeLabel(value[..|value| - 1])
    else value
  }

  /** Normalising yields the empty string exactly for blank values. */
  lemma {:induction false} NormalizeLabelEmptyIffBlank(value: string)
    ensures NormalizeLabel(value) == [] <==> IsBlank(value)
  {
    if value != [] && IsWhitespace(value[0]) {
      NormalizeLabelEmptyIffBlank(value[1..]);
      assert forall i :: 1 <= i < |value| ==> value[i] == value[1..][i - 1];
    } else if value != [] && IsWhitespace(value[|value| - 1]) {
      var init := value[..|value| - 1];
      NormalizeLabelEmptyIffBlank(init);
      assert forall i :: 0 <= i < |init| ==> value[i] == init[i];
    }
  }

  /** What `trim` cuts off is white space, and what it keeps is the middle of
      `value`, untouched. */
  lemma {:induction false} NormalizeLabelKeepsMiddle(value: string)
    ensures exists a, b :: 0 <= a <= b <= |value| && NormalizeLabel(value) == value[a..b]
                           && IsBlank(value[..a]) && IsBlank(value[b..])
  {
    if value != [] && IsWhitespace(value[0]) {
      var tail := value[1..];
      NormalizeLabelKeepsMiddle(tail);
      var a, b :| 0 <= a <= b <= |tail| && NormalizeLabel(tail) == tail[a..b]
                  && IsBlank(tail[..a]) && IsBlank(tail[b..]);
      MiddleAfterFirst(value, a, b);
    } else if value != [] && IsWhitespace(value[|value| - 1]) {
      var init := value[..|value| - 1];
      NormalizeLabelKeepsMiddle(init);
      var a, b :| 0 <= a <= b <= |init| && NormalizeLabel(init) == init[a..b]
                  && IsBlank(init[..a]) && IsBlank(init[b..]);
      MiddleBeforeLast(value, a, b);
    } else {
      assert NormalizeLabel(value) == value[0..|value|];
      assert value[..0] == [] && value[|value|..] == [];
    }
  }

  /** The step of the proof above where a leading white-space character is cut. */
  lemma MiddleAfterFirst(value: string, a: nat, b: nat)
    requires value != [] && IsWhitespace(value[0]) && a <= b <= |value| - 1
    requires IsBlank(value[1..][..a]) && IsBlank(value[1..][b..])
    ensures value[1..][a..b] == value[a + 1..b + 1]
    ensures IsBlank(value[..a + 1]) && IsBlank(value[b + 1..])
  {
    var tail := value[1..];
    forall i | 1 <= i < a + 1 ensures IsWhitespace(value[i]) {
      assert value[i] == tail[..a][i - 1];
    }
    assert value[b + 1..] == tail[b..];
  }

  /** The step of the proof above where a trailing white-space character is cut. */
  lemma MiddleBeforeLast(value: string, a: nat, b: nat)
    requires value != [] && IsWhitespace(value[|value| - 1]) && a <= b <= |value| - 1
    requires IsBlank(value[..|value| - 1][..a]) && IsBlank(value[..|value| - 1][b..])
    ensures value[..|value| - 1][a..b] == value[a..b]
    ensures IsBlank(value[..a]) && IsBlank(value[b..])
  {
    var init := value[..|value| - 1];
    assert value[..a] == init[..a];
    forall i | b <= i < |value| - 1 ensures IsWhitespace(value[i]) {
      assert value[i] == init[b..][i - b];
    }
  }

  /** `x` is the normalised form of some element of `vs`. */
  ghost predicate Occurs(vs: seq<string>, x: string) {
    exists i :: 0 <= i < |vs| && NormalizeLabel(vs[i]) == x
  }

  lemma OccursSnoc(vs: seq<string>, v: string, x: string)
    ensures Occurs(vs + [v], x) <==> Occurs(vs, x) || NormalizeLabel(v) == x
  {
    if Occurs(vs + [v], x) {
      var i :| 0 <= i < |vs| + 1 && NormalizeLabel((vs + [v])[i]) == x;
      if i < |vs| {
        assert (vs + [v])[i] == vs[i];
      }
    }
    if Occurs(vs, x) {
      var i :| 0 <= i < |vs| && NormalizeLabel(vs[i]) == x;
      assert (vs + [v])[i] == vs[i];
    }
    if NormalizeLabel(v) == x {
      assert (vs + [v])[|vs|] == v;
    }
  }

  /** `unique`: trim every element, drop the empty ones, and keep the first
      occurrence of each, in order (the insertion order of a JavaScript `Set`).
      The result is a duplicate-free list of labels holding exactly the
      non-empty normalised forms of the input's elements. */
  function Unique(vs: seq<string>): (r: seq<string>)
    ensures IsLabelList(r)
    ensures |r| <= |vs|
  {
    if vs == [] then []
    else
      var t := NormalizeLabel(vs[|vs| - 1]);
      var prev := Unique(vs[..|vs| - 1]);
      if t == [] || t in prev then prev
      else
        LabelListSnoc(prev, t);
        prev + [t]
  }

  lemma LabelListSnoc(s: seq<string>, t: string)
    requires IsLabelList(s) && IsLabel(t) && t !in s
    ensures IsLabelList(s + [t])
  {
    var r := s + [t];
    assert forall i :: 0 <= i < |s| ==> r[i] == s[i];
  }

  /** The elements of `unique(vs)` are exactly the non-empty normalised forms
      of the elements of `vs`. */
  lemma {:induction false} UniqueMembers(vs: seq<string>, x: string)
    ensures x in Unique(vs) <==> x != [] && Occurs(vs, x)
  {
    if vs != [] {
      var init := vs[..|vs| - 1];
      assert vs == init + [vs[|vs| - 1]];
      UniqueMembers(init, x);
      OccursSnoc(init, vs[|vs| - 1], x);
    }
  }

  lemma UniqueSnoc(vs: seq<string>, v: string)
    ensures Unique(vs + [v]) ==
      var t := NormalizeLabel(v);
      if t == [] || t in Unique(vs) then Unique(vs) else Unique(vs) + [t]
    ensures Unique(vs) <= Unique(vs + [v])
  {
    assert (vs + [v])[..|vs|] == vs;
  }

  /** On a list that is already a duplicate-free list of labels, `unique`
      changes nothing. */
  lemma {:induction false} UniqueOfLabelList(s: seq<string>)
    requires IsLabelList(s)
    ensures Unique(s) == s
  {
    if s != [] {
      var init := s[..|s| - 1];
      assert s == init + [s[|s| - 1]];
      assert IsLabelList(init);
      UniqueOfLabelList(init);
      UniqueSnoc(init, s[|s| - 1]);
      assert s[|s| - 1] !in init;
    }
  }

  /** `unique` is idempotent. */
  lemma UniqueIdempotent(vs: seq<string>)
    ensures Unique(Unique(vs)) == Unique(vs)
  {
    UniqueOfLabelList(Unique(vs));
  }

  /** De-duplicating a longer list keeps the de-duplication of its front part
      as a prefix: labels of the front part come first, before anything only
      the rest adds. */
  lemma {:induction false} UniqueKeepsPrefix(front: seq<string>, s: seq<string>)
    requires front <= s
    ensures Unique(front) <= Unique(s)
    decreases |s|
  {
    if |front| < |s| {
      var init := s[..|s| - 1];
      UniqueKeepsPrefix(front, init);
      UniqueDropLast(s);
      PrefixTransitive(Unique(front), Unique(init), Unique(s));
    } else {
      assert front == s;
    }
  }

  lemma UniqueDropLast(s: seq<string>)
    requires s != []
    ensures Unique(s[..|s| - 1]) <= Unique(s)
  {
  }

  lemma PrefixTransitive(r: seq<string>, s: seq<string>, t: seq<string>)
    requires r <= s && s <= t
    ensures r <= t
  {
    assert t[..|r|] == s[..|r|];
  }

  /** The position of the first element of `vs` whose normalised form is `x`,
      or `|vs|` when there is none. */
  function FirstOccurrence(vs: seq<string>, x: string): (k: nat)
    ensures k <= |vs|
    ensures k < |vs| ==> NormalizeLabel(vs[k]) == x
    ensures forall i :: 0 <= i < k ==> NormalizeLabel(vs[i]) != x
  {
    if vs == [] then 0
    else
      var init := vs[..|vs| - 1];
      var k := FirstOccurrence(init, x);
      assert forall i :: 0 <= i < |init| ==> init[i] == vs[i];
      if k < |init| then k
      else if NormalizeLabel(vs[|vs| - 1]) == x then |vs| - 1
      else |vs|
  }

  /** First-occurrence order: the elements of `unique(vs)` are listed in the
      order in which they first occur (after normalisation) in `vs`. */
  lemma {:induction false} UniqueKeepsFirstOccurrenceOrder(vs: seq<string>, i: nat, j: nat)
    requires i < j < |Unique(vs)|
    ensures FirstOccurrence(vs, Unique(vs)[i]) < FirstOccurrence(vs, Unique(vs)[j]) < |vs|
  {
    var init := vs[..|vs| - 1];
    var prev := Unique(init);
    var t := NormalizeLabel(vs[|vs| - 1]);
    var r := Unique(vs);
    if j < |prev| {
      UniqueKeepsFirstOccurrenceOrder(init, i, j);
      assert r[i] == prev[i] && r[j] == prev[j];
    } else {
      assert r == prev + [t] && t != [] && t !in prev;
      UniqueMembers(init, prev[i]);
      UniqueMembers(init, t);
      assert FirstOccurrence(init, t) == |init|;
    }
  }

  /** The list with every element equal to `x` left out, the rest in order. */
  function Without(s: seq<string>, x: string): (r: seq<string>)
    ensures x !in r && |r| <= |s|
  {
    if s == [] then []
    else
      assert s == [s[0]] + s[1..];
      if s[0] == x then Without(s[1..], x) else [s[0]] + Without(s[1..], x)
  }

  /** `r` is `s` with some elements left out and the rest in their order. */
  ghost predicate IsSubsequence(r: seq<string>, s: seq<string>) {
    if r == [] then true
    else if s == [] then false
    else (r[0] == s[0] && IsSubsequence(r[1..], s[1..])) || IsSubsequence(r, s[1..])
  }

  /** The filter removes every copy of `x` and keeps every other element as
      often as it occurred. */
  lemma {:induction false} WithoutCounts(s: seq<string>, x: string)
    ensures multiset(Without(s, x)) == multiset(s)[x := 0]
  {
    if s != [] {
      WithoutCounts(s[1..], x);
      assert s == [s[0]] + s[1..];
    }
  }

  /** The elements that survive the filter keep their relative order. */
  lemma {:induction false} WithoutKeepsOrder(s: seq<string>, x: string)
    ensures IsSubsequence(Without(s, x), s)
  {
    if s != [] {
      WithoutKeepsOrder(s[1..], x);
      var rest := Without(s[1..], x);
      if s[0] != x {
        assert ([s[0]] + rest)[1..] == rest;
      } else {
        SubsequenceOfTail(rest, s);
      }
    }
  }

  lemma SubsequenceOfTail(r: seq<string>, s: seq<string>)
    requires s != [] && IsSubsequence(r, s[1..])
    ensures IsSubsequence(r, s)
  {
  }

  /** Filtering out a label keeps a duplicate-free label list one. */
  lemma {:induction false} WithoutKeepsLabelList(s: seq<string>, x: string)
    requires IsLabelList(s)
    ensures IsLabelList(Without(s, x))
  {
    if s != [] {
      assert IsLabelList(s[1..]);
      WithoutKeepsLabelList(s[1..], x);
      var rest := Without(s[1..], x);
      WithoutCounts(s[1..], x);
      assert s[0] !in s[1..];
      assert s[0] !in multiset(rest);
    }
  }

  /** Filtering out a label that is not there changes nothing. */
  lemma {:induction false} WithoutAbsent(s: seq<string>, x: string)
    requires x !in s
    ensures Without(s, x) == s
  {
    if s != [] {
      WithoutAbsent(s[1..], x);
      assert s == [s[0]] + s[1..];
    }
  }

  /** Filtering distributes over concatenation. */
  lemma {:induction false} WithoutAppend(a: seq<string>, b: seq<string>, x: string)
    ensures Without(a + b, x) == Without(a, x) + Without(b, x)
  {
    if a != [] {
      var ab := a + b;
      assert ab[1..] == a[1..] + b;
      WithoutAppend(a[1..], b, x);
      if a[0] == x {
        assert Without(ab, x) == Without(ab[1..], x);
        assert Without(a, x) == Without(a[1..], x);
      } else {
        assert Without(ab, x) == [a[0]] + Without(ab[1..], x);
        assert Without(a, x) == [a[0]] + Without(a[1..], x);
      }
    } else {
      assert a + b == b;
    }
  }
}

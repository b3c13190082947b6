/**
 * The string primitives the scraper relies on: whitespace as `str.strip` sees it,
 * lower-casing, and the substring test written `pat in text`.
 */
module Strings {

  /** The characters Python's `str.isspace` accepts, which `str.strip()` removes. */
  predicate IsSpace(c: char) {
    var n := c as int;
    (9 <= n <= 13) || (28 <= n <= 32) || n == 0x85 || n == 0xA0 || n == 0x1680 ||
    (0x2000 <= n <= 0x200A) || n == 0x2028 || n == 0x2029 || n == 0x202F ||
    n == 0x205F || n == 0x3000
  }

  predicate AllSpace(s: string) {
    forall i :: 0 <= i < |s| ==> IsSpace(s[i])
  }

  /** No whitespace at either end: what `str.strip` leaves. */
  predicate NoOuterSpace(s: string) {
    s == [] || (!IsSpace(s[0]) && !IsSpace(s[|s| - 1]))
  }

  predicate IsUpper(c: char) {
    'A' <= c <= 'Z'
  }

  function LowerChar(c: char): (d: char)
    ensures !IsUpper(d)
    ensures IsUpper(c) ==> d as int == c as int + 32
    ensures !IsUpper(c) ==> d == c
  {
    if IsUpper(c) then (c as int + 32) as char else c
  }

  /** `str.lower`, restricted to ASCII letters. */
  function Lower(s: string): string {
    seq(|s|, i requires 0 <= i < |s| => LowerChar(s[i]))
  }

  lemma {:induction false} LowerIdempotent(s: string)
    ensures Lower(Lower(s)) == Lower(s)
  {
    var l := Lower(s);
    forall i | 0 <= i < |s| ensures Lower(l)[i] == l[i] {
      assert !IsUpper(l[i]);
    }
  }

  /** `pat` stands at position `i` of `text`. */
  predicate OccursAt(text: string, pat: string, i: int) {
    0 <= i && i + |pat| <= |text| && text[i..i + |pat|] == pat
  }

  /** `pat` stands at some position of `text`: the meaning of Python's `pat in text`. */
  ghost predicate Occurs(text: string, pat: string) {
    exists i :: OccursAt(text, pat, i)
  }

  /** Python's `pat in text` on strings, as a left-to-right scan. */
  function Contains(text: string, pat: string): bool
    decreases |text|
  {
    if |pat| > |text| then false
    else if pat <= text then true
    else Contains(text[1..], pat)
  }

  /** Dropping the first character of `text` moves every occurrence one place left. */
  lemma OccursShift(text: string, pat: string, i: nat)
    requires text != []
    ensures OccursAt(text[1..], pat, i) <==> OccursAt(text, pat, i + 1)
  {
    if i + 1 + |pat| <= |text| {
      assert text[1..][i..i + |pat|] == text[i + 1..i + 1 + |pat|];
    }
  }

  lemma {:induction false} ContainsOccurs(text: string, pat: string)
    ensures Contains(text, pat) <==> Occurs(text, pat)
    decreases |text|
  {
    if |pat| > |text| {
    } else if pat <= text {
      assert OccursAt(text, pat, 0);
    } else {
      ContainsOccurs(text[1..], pat);
      if Occurs(text, pat) {
        var i :| OccursAt(text, pat, i);
        assert i != 0 by { assert pat <= text <== OccursAt(text, pat, 0); }
        OccursShift(text, pat, i - 1);
      }
      if Occurs(text[1..], pat) {
        var i :| OccursAt(text[1..], pat, i);
        OccursShift(text, pat, i);
      }
    }
  }

  /** The empty string is in every string, as `"" in text` is always true. */
  lemma EmptyContained(text: string)
    ensures Contains(text, "")
  {
  }

  lemma ContainsSelf(s: string)
    ensures Contains(s, s)
  {
  }

  /** Every infix of a string is contained in it. */
  lemma InfixContained(a: string, b: string, c: string)
    ensures Contains(a + b + c, b)
  {
    assert (a + b + c)[|a|..|a| + |b|] == b;
    assert OccursAt(a + b + c, b, |a|);
    ContainsOccurs(a + b + c, b);
  }

  /** A string with no upper-case letter is its own lower-cased form. */
  lemma LowerOfLowerCase(s: string)
    requires forall i :: 0 <= i < |s| ==> !IsUpper(s[i])
    ensures Lower(s) == s
  {
  }

  /** A substring of a substring is a substring. */
  lemma ContainsTransitive(a: string, b: string, c: string)
    requires Contains(b, a) && Contains(c, b)
    ensures Contains(c, a)
  {
    ContainsOccurs(b, a);
    ContainsOccurs(c, b);
    var i :| OccursAt(b, a, i);
    var j :| OccursAt(c, b, j);
    forall k | 0 <= k < |a| ensures c[j + i + k] == a[k] {
      assert a[k] == b[i..i + |a|][k] == b[i + k];
      assert b[i + k] == c[j..j + |b|][i + k] == c[j + i + k];
    }
    assert c[j + i..j + i + |a|] == a;
    assert OccursAt(c, a, j + i);
    ContainsOccurs(c, a);
  }

  /** Two strings that contain each other are equal. */
  lemma MutualContainment(a: string, b: string)
    requires Contains(a, b) && Contains(b, a)
    ensures a == b
  {
    ContainsOccurs(a, b);
    ContainsOccurs(b, a);
    var i :| OccursAt(a, b, i);
    var j :| OccursAt(b, a, j);
  }
}

/**
 * The seed-term parser: the comma-separated text the user enters is split on
 * every comma (`str.split(',')`) and each piece is stripped (`str.strip()`).
 */
module TermInput {
  import opened Strings

  /** `s.split(',')`: the pieces between commas, empty pieces included. */
  function Split(s: string): (r: seq<string>)
    ensures |r| >= 1
    decreases |s|
  {
    if s == [] then [""]
    else
      var rest := Split(s[1..]);
      if s[0] == ',' then [""] + rest
      else [[s[0]] + rest[0]] + rest[1..]
  }

  /** No piece contains a comma. */
  lemma {:induction false} SplitPiecesCommaFree(s: string)
    ensures forall k :: 0 <= k < |Split(s)| ==> ',' !in Split(s)[k]
    decreases |s|
  {
    if s != [] {
      SplitPiecesCommaFree(s[1..]);
      var rest := Split(s[1..]);
      if s[0] != ',' {
        assert ',' !in [s[0]] + rest[0];
        assert Split(s)[1..] == rest[1..];
      } else {
        assert Split(s)[1..] == rest;
      }
    }
  }

  /** There is one more piece than there are commas. */
  lemma {:induction false} SplitCount(s: string)
    ensures |Split(s)| == multiset(s)[','] + 1
    decreases |s|
  {
    if s != [] {
      SplitCount(s[1..]);
      assert s == [s[0]] + s[1..];
    }
  }

  /** `','.join(ps)`, the inverse of Split. */
  function Join(ps: seq<string>): string
    requires |ps| >= 1
  {
    if |ps| == 1 then ps[0] else ps[0] + [','] + Join(ps[1..])
  }

  /** Joining the pieces back with commas gives the input again. */
  lemma {:induction false} JoinSplit(s: string)
    ensures Join(Split(s)) == s
    decreases |s|
  {
    if s != [] {
      var rest := Split(s[1..]);
      JoinSplit(s[1..]);
      if s[0] != ',' && |rest| > 1 {
        assert Join(rest) == rest[0] + [','] + Join(rest[1..]);
        assert rest[1..][..] == rest[1..];
      }
    }
  }

  /** One step of the split: a leading comma starts a new piece, any other character joins the first piece. */
  lemma SplitCons(c: char, rest: string)
    ensures c == ',' ==> Split([c] + rest) == [""] + Split(rest)
    ensures c != ',' ==> Split([c] + rest) == [[c] + Split(rest)[0]] + Split(rest)[1..]
  {
    assert ([c] + rest)[1..] == rest;
  }

  /** A comma splits the string into the pieces before it followed by the pieces after it. */
  lemma {:induction false} SplitConcat(a: string, b: string)
    ensures Split(a + [','] + b) == Split(a) + Split(b)
    decreases |a|
  {
    if a == [] {
      assert a + [','] + b == [','] + b;
      SplitCons(',', b);
    } else {
      var c, a' := a[0], a[1..];
      assert a == [c] + a';
      assert a + [','] + b == [c] + (a' + [','] + b);
      SplitConcat(a', b);
      SplitCons(c, a' + [','] + b);
      SplitCons(c, a');
      if c != ',' {
        ExtendFirst([c], Split(a'), Split(b));
      }
    }
  }

  /** Prefixing the first piece of `x + y` is prefixing the first piece of `x`. */
  lemma ExtendFirst(p: string, x: seq<string>, y: seq<string>)
    requires |x| >= 1
    ensures [p + (x + y)[0]] + (x + y)[1..] == ([p + x[0]] + x[1..]) + y
  {
    assert (x + y)[1..] == x[1..] + y;
  }

  lemma {:induction false} SplitCommaFree(p: string)
    requires ',' !in p
    ensures Split(p) == [p]
    decreases |p|
  {
    if p != [] {
      SplitCommaFree(p[1..]);
      assert p == [p[0]] + p[1..];
    }
  }

  /** Splitting a join of comma-free pieces gives the pieces back. */
  lemma {:induction false} SplitJoin(ps: seq<string>)
    requires |ps| >= 1
    requires forall k :: 0 <= k < |ps| ==> ',' !in ps[k]
    ensures Split(Join(ps)) == ps
    decreases |ps|
  {
    SplitCommaFree(ps[0]);
    if |ps| > 1 {
      SplitJoin(ps[1..]);
      SplitConcat(ps[0], Join(ps[1..]));
      assert [ps[0]] + ps[1..] == ps;
    }
  }

  /** `str.lstrip()`: drops the longest all-whitespace prefix. */
  function TrimStart(s: string): (r: string)
    ensures |r| <= |s| && r == s[|s| - |r|..]
    ensures AllSpace(s[..|s| - |r|])
    ensures r == [] || !IsSpace(r[0])
    decreases |s|
  {
    if s != [] && IsSpace(s[0]) then
      var r := TrimStart(s[1..]);
      SpaceBefore(s, r);
      r
    else s
  }

  /** A suffix of `s[1..]` preceded there by whitespace is preceded by whitespace in `s`, if `s[0]` is whitespace. */
  lemma SpaceBefore(s: string, r: string)
    requires s != [] && IsSpace(s[0]) && |r| < |s|
    requires r == s[1..][|s| - 1 - |r|..] && AllSpace(s[1..][..|s| - 1 - |r|])
    ensures r == s[|s| - |r|..] && AllSpace(s[..|s| - |r|])
  {
    assert s[..|s| - |r|] == [s[0]] + s[1..][..|s| - 1 - |r|];
  }

  /** `str.rstrip()`: drops the longest all-whitespace suffix. */
  function TrimEnd(s: string): (r: string)
    ensures |r| <= |s| && r == s[..|r|]
    ensures AllSpace(s[|r|..])
    ensures r == [] || !IsSpace(r[|r| - 1])
    decreases |s|
  {
    if s != [] && IsSpace(s[|s| - 1]) then
      var r := TrimEnd(s[..|s| - 1]);
      SpaceAfter(s, r);
      r
    else s
  }

  /** A prefix of `s[..|s| - 1]` followed there by whitespace is followed by whitespace in `s`, if `s`'s last character is whitespace. */
  lemma SpaceAfter(s: string, r: string)
    requires s != [] && IsSpace(s[|s| - 1]) && |r| < |s|
    requires r == s[..|s| - 1][..|r|] && AllSpace(s[..|s| - 1][|r|..])
    ensures r == s[..|r|] && AllSpace(s[|r|..])
  {
    assert s[|r|..] == s[..|s| - 1][|r|..] + [s[|s| - 1]];
  }

  /** `r` is `s` with the all-whitespace prefix `s[..i]` and an all-whitespace suffix removed. */
  predicate StrippedAt(s: string, r: string, i: int) {
    0 <= i <= |s| - |r| && s[i..i + |r|] == r && AllSpace(s[..i]) && AllSpace(s[i + |r|..])
  }

  /** `str.strip()`: the input with its leading and trailing whitespace removed. */
  function Strip(s: string): (r: string)
    ensures NoOuterSpace(r)
    ensures exists i :: StrippedAt(s, r, i)
    ensures forall c :: c in r ==> c in s
  {
    var t := TrimStart(s);
    var r := TrimEnd(t);
    TrimBoth(s, t, r);
    r
  }

  lemma TrimBoth(s: string, t: string, r: string)
    requires |t| <= |s| && t == s[|s| - |t|..] && AllSpace(s[..|s| - |t|]) && (t == [] || !IsSpace(t[0]))
    requires |r| <= |t| && r == t[..|r|] && AllSpace(t[|r|..]) && (r == [] || !IsSpace(r[|r| - 1]))
    ensures NoOuterSpace(r)
    ensures StrippedAt(s, r, |s| - |t|)
    ensures forall c :: c in r ==> c in s
  {
    var i := |s| - |t|;
    assert s[i..i + |r|] == r;
    assert s[i + |r|..] == t[|r|..];
    assert r != [] ==> r[0] == t[0];
    forall c | c in r ensures c in s {
      var k :| 0 <= k < |r| && r[k] == c;
      assert s[i + k] == c;
    }
  }

  /** The parsed seed terms: every comma-separated piece, stripped. */
  function ParseTerms(userTerms: string): (terms: seq<string>)
    ensures |terms| == multiset(userTerms)[','] + 1
    ensures forall k :: 0 <= k < |terms| ==> ',' !in terms[k] && NoOuterSpace(terms[k])
    ensures |terms| == |Split(userTerms)| && forall k :: 0 <= k < |terms| ==> terms[k] == Strip(Split(userTerms)[k])
  {
    var parts := Split(userTerms);
    SplitCount(userTerms);
    SplitPiecesCommaFree(userTerms);
    seq(|parts|, k requires 0 <= k < |parts| => Strip(parts[k]))
  }

  /** A trailing comma yields an empty last term. */
  lemma TrailingCommaGivesEmptyTerm(s: string)
    ensures var terms := ParseTerms(s + [',']); terms[|terms| - 1] == ""
  {
    SplitConcat(s, "");
    assert s + [','] + "" == s + [','];
    var parts := Split(s + [',']);
    assert parts[|parts| - 1] == "";
    var i :| StrippedAt("", Strip(""), i);
  }

  /** Two adjacent commas yield an empty term between them. */
  lemma DoubledCommaGivesEmptyTerm(a: string, b: string)
    ensures "" in ParseTerms(a + [',', ','] + b)
  {
    assert a + [',', ','] + b == a + [','] + ([','] + b);
    SplitConcat(a, [','] + b);
    SplitConcat("", b);
    assert "" + [','] + b == [','] + b;
    var k := |Split(a)|;
    assert Split(a + [',', ','] + b)[k] == "";
    assert ParseTerms(a + [',', ','] + b)[k] == "";
  }
}

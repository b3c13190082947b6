/**
 * Expansion of the seed terms through the MeSH vocabulary. The Entrez search and
 * fetch are replaced by one lookup function that reports, for a query, a failure
 * (any exception raised while searching, fetching or reading the record), an empty
 * identifier list, or the record of the first identifier found.
 */
module TermExpander {

  /** One concept of a MeSH descriptor with the strings of its TermList. */
  datatype Concept = Concept(termList: seq<string>)

  /** The parts of a MeSH descriptor record that the expansion reads. */
  datatype MeshRecord = MeshRecord(descriptorName: string, concepts: seq<Concept>)

  datatype Lookup = LookupError | NoIds | Found(record: MeshRecord)

  /** Every TermList string of every concept, concept by concept, in order. */
  function ConceptTerms(cs: seq<Concept>): seq<string>
  {
    if cs == [] then [] else ConceptTerms(cs[..|cs| - 1]) + cs[|cs| - 1].termList
  }

  /** What `fetch_mesh_terms` returns for `query` when the service answers `res`. */
  function MeshTerms(query: string, res: Lookup): seq<string>
  {
    match res
    case Found(rec) => [rec.descriptorName] + ConceptTerms(rec.concepts)
    case _ => [query]
  }

  function Elems(s: seq<string>): set<string> {
    set x | x in s
  }

  /** The union of the strings that `termsOf` gives for each seed. */
  function Gather(seeds: seq<string>, termsOf: string -> seq<string>): set<string>
  {
    if seeds == [] then {}
    else Gather(seeds[..|seeds| - 1], termsOf) + Elems(termsOf(seeds[|seeds| - 1]))
  }

  /** What `expand_disease_terms` returns: the union of every seed's terms. */
  function Expansion(seeds: seq<string>, lookup: string -> Lookup): set<string>
  {
    Gather(seeds, q => MeshTerms(q, lookup(q)))
  }

  lemma {:induction false} ConceptTermsMembers(cs: seq<Concept>, x: string)
    ensures x in ConceptTerms(cs) <==> exists k :: 0 <= k < |cs| && x in cs[k].termList
  {
    if cs != [] {
      var init := cs[..|cs| - 1];
      ConceptTermsMembers(init, x);
      if exists k :: 0 <= k < |init| && x in init[k].termList {
        var k :| 0 <= k < |init| && x in init[k].termList;
        assert x in cs[k].termList;
      }
      if exists k :: 0 <= k < |cs| && x in cs[k].termList {
        var k :| 0 <= k < |cs| && x in cs[k].termList;
        if k < |init| {
          assert x in init[k].termList;
        }
      }
    }
  }

  /**
   * A successful lookup yields the descriptor name first, then exactly the TermList
   * strings of the record's concepts; any other answer yields the query alone.
   */
  lemma MeshTermsMembers(query: string, res: Lookup, x: string)
    ensures |MeshTerms(query, res)| >= 1
    ensures !res.Found? ==> MeshTerms(query, res) == [query]
    ensures res.Found? ==> MeshTerms(query, res)[0] == res.record.descriptorName
    ensures res.Found? ==>
      (x in MeshTerms(query, res) <==>
        x == res.record.descriptorName ||
        exists k :: 0 <= k < |res.record.concepts| && x in res.record.concepts[k].termList)
  {
    if res.Found? {
      ConceptTermsMembers(res.record.concepts, x);
    }
  }

  /** `fetch_mesh_terms`: the primary descriptor name, then the synonyms, appended concept by concept. */
  method FetchMeshTerms(query: string, lookup: string -> Lookup) returns (termList: seq<string>)
    ensures termList == MeshTerms(query, lookup(query))
  {
    var res := lookup(query);
    if !res.Found? {
      return [query];
    }
    var rec := res.record;
    termList := [rec.descriptorName];
    for i := 0 to |rec.concepts|
      invariant termList == [rec.descriptorName] + ConceptTerms(rec.concepts[..i])
    {
      var concept := rec.concepts[i];
      for j := 0 to |concept.termList|
        invariant termList == [rec.descriptorName] + ConceptTerms(rec.concepts[..i]) + concept.termList[..j]
      {
        termList := termList + [concept.termList[j]];
        assert concept.termList[..j + 1] == concept.termList[..j] + [concept.termList[j]];
      }
      assert concept.termList[..|concept.termList|] == concept.termList;
      assert rec.concepts[..i + 1][..i] == rec.concepts[..i];
    }
    assert rec.concepts[..|rec.concepts|] == rec.concepts;
  }

  /** A string is gathered exactly when `termsOf` gives it for some seed. */
  lemma {:induction false} GatherMembers(seeds: seq<string>, termsOf: string -> seq<string>, x: string)
    ensures x in Gather(seeds, termsOf) <==> exists k :: 0 <= k < |seeds| && x in termsOf(seeds[k])
  {
    if seeds != [] {
      var n := |seeds| - 1;
      var init := seeds[..n];
      GatherMembers(init, termsOf, x);
      if exists k :: 0 <= k < |init| && x in termsOf(init[k]) {
        var k :| 0 <= k < |init| && x in termsOf(init[k]);
        assert seeds[k] == init[k];
      }
      if exists k :: 0 <= k < |seeds| && x in termsOf(seeds[k]) {
        var k :| 0 <= k < |seeds| && x in termsOf(seeds[k]);
        if k < n {
          assert init[k] == seeds[k];
        }
      }
    }
  }

  /** A string is in the expansion exactly when the lookup of some seed yields it. */
  lemma ExpansionMembers(seeds: seq<string>, lookup: string -> Lookup, x: string)
    ensures x in Expansion(seeds, lookup) <==>
      exists k :: 0 <= k < |seeds| && x in MeshTerms(seeds[k], lookup(seeds[k]))
  {
    GatherMembers(seeds, q => MeshTerms(q, lookup(q)), x);
  }

  /**
   * The fallback: a seed whose lookup fails or finds no identifier contributes
   * exactly itself, and so is in the expansion.
   */
  lemma ExpansionFallback(seeds: seq<string>, lookup: string -> Lookup, k: nat)
    requires k < |seeds| && !lookup(seeds[k]).Found?
    ensures Elems(MeshTerms(seeds[k], lookup(seeds[k]))) == {seeds[k]}
    ensures seeds[k] in Expansion(seeds, lookup)
  {
    ExpansionMembers(seeds, lookup, seeds[k]);
  }

  /** `expand_disease_terms`: the union, seed by seed, of what `fetch_mesh_terms` returns. */
  method ExpandDiseaseTerms(seeds: seq<string>, lookup: string -> Lookup) returns (expanded: set<string>)
    ensures expanded == Expansion(seeds, lookup)
    ensures forall x :: x in expanded <==>
      exists k :: 0 <= k < |seeds| && x in MeshTerms(seeds[k], lookup(seeds[k]))
  {
    expanded := {};
    for i := 0 to |seeds|
      invariant expanded == Expansion(seeds[..i], lookup)
    {
      var meshTerms := FetchMeshTerms(seeds[i], lookup);
      expanded := expanded + Elems(meshTerms);
      assert seeds[..i + 1][..i] == seeds[..i];
    }
    assert seeds[..|seeds|] == seeds;
    forall x ensures x in expanded <==> exists k :: 0 <= k < |seeds| && x in MeshTerms(seeds[k], lookup(seeds[k])) {
      ExpansionMembers(seeds, lookup, x);
    }
  }
}

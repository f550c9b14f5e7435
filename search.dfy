/**
 * The portal search as the driver runs it: the number alone first, then
 * candidate by candidate, stopping at the first lookup that finds a
 * certificate. Defined here step by step, the way the driver's loops go,
 * and proved equal to running the flat lookup plan of `Records` until its
 * first hit.
 */
module PortalSearch {
  import opened Wrappers
  import opened AdaPortal
  import opened Records

  /** The lookups made before `s`, followed by those of `s`. */
  function After(before: seq<Query>, s: SearchOutcome): SearchOutcome {
    SearchOutcome(s.image, before + s.tried)
  }

  /**
   * The lookups for one candidate: the name alone and, when there is a
   * number and the name alone found nothing, name and number. This is the
   * flat search over that candidate's part of the plan.
   */
  function TryName(category: string, year: string, c: Candidate, number: Option<string>, lookup: Lookup): (s: SearchOutcome)
    ensures s == Search(NameStep(category, year, c, number), lookup)
  {
    var q := Query(category, year, Some(SearchName(c)), None);
    var step := NameStep(category, year, c, number);
    if lookup(q).Some? || number.None? then
      assert step[0] == q;
      SearchStopsAt(step, lookup, 0);
      if lookup(q).Some? then SearchOutcome(lookup(q), [q])
      else
        SearchStopsAt(step, lookup, 1);
        assert step[..1] == [q];
        SearchOutcome(lookup(q), [q])
    else
      var q' := Query(category, year, Some(SearchName(c)), number);
      assert step == [q, q'];
      SearchStopsAt(step, lookup, 1);
      if lookup(q').None? then
        SearchStopsAt(step, lookup, 2);
        SearchOutcome(lookup(q'), [q, q'])
      else
        assert step[..2] == step;
        SearchOutcome(lookup(q'), [q, q'])
  }

  /** The name lookups, candidate after candidate, up to the first hit. */
  function SearchNames(category: string, year: string, candidates: seq<Candidate>, number: Option<string>, lookup: Lookup): SearchOutcome
    decreases |candidates|
  {
    if candidates == [] then SearchOutcome(None, [])
    else
      var first := TryName(category, year, candidates[0], number, lookup);
      if first.image.Some? then first
      else After(first.tried, SearchNames(category, year, candidates[1..], number, lookup))
  }

  /** The whole search for one record: the number alone when there is one, then the names. */
  function CertSearch(category: string, year: string, candidates: seq<Candidate>, number: Option<string>, lookup: Lookup): SearchOutcome {
    if number.Some? then
      var q := Query(category, year, None, number);
      if lookup(q).Some? then SearchOutcome(lookup(q), [q])
      else After([q], SearchNames(category, year, candidates, number, lookup))
    else SearchNames(category, year, candidates, number, lookup)
  }

  /** A hit in the first part of a plan ends the search there. */
  lemma SearchAppendHit(a: seq<Query>, b: seq<Query>, lookup: Lookup)
    requires Search(a, lookup).image.Some?
    ensures Search(a + b, lookup) == Search(a, lookup)
  {
    var s := Search(a, lookup);
    var k := |s.tried| - 1;
    forall t | 0 <= t < k
      ensures lookup((a + b)[t]).None?
    {
      assert (a + b)[t] == s.tried[t];
    }
    assert (a + b)[k] == s.tried[k];
    SearchStopsAt(a + b, lookup, k);
    assert (a + b)[..k + 1] == s.tried;
  }

  /** With no hit in the first part of a plan, the search goes on with the second part. */
  lemma SearchAppendMiss(a: seq<Query>, b: seq<Query>, lookup: Lookup)
    requires Search(a, lookup).image.None?
    ensures Search(a + b, lookup) == After(a, Search(b, lookup))
  {
    var u := Search(b, lookup);
    forall t | 0 <= t < |a|
      ensures lookup((a + b)[t]).None?
    {
      assert (a + b)[t] == a[t];
    }
    if u.image.Some? {
      var j := |u.tried| - 1;
      forall t | 0 <= t < |a| + j
        ensures lookup((a + b)[t]).None?
      {
        if t >= |a| {
          assert (a + b)[t] == u.tried[t - |a|];
        }
      }
      assert (a + b)[|a| + j] == u.tried[j];
      SearchStopsAt(a + b, lookup, |a| + j);
      assert (a + b)[..|a| + j + 1] == a + u.tried;
    } else {
      forall t | 0 <= t < |a + b|
        ensures lookup((a + b)[t]).None?
      {
        if t >= |a| {
          assert (a + b)[t] == b[t - |a|];
        }
      }
      SearchStopsAt(a + b, lookup, |a + b|);
    }
  }

  /** Searching a plan made of two parts: the second part is reached only when the first finds nothing. */
  lemma SearchAppend(a: seq<Query>, b: seq<Query>, lookup: Lookup)
    ensures Search(a + b, lookup) == if Search(a, lookup).image.Some? then Search(a, lookup) else After(a, Search(b, lookup))
  {
    if Search(a, lookup).image.Some? {
      SearchAppendHit(a, b, lookup);
    } else {
      SearchAppendMiss(a, b, lookup);
    }
  }

  /** A plan of one lookup makes that lookup and gives back its answer. */
  lemma SearchOne(q: Query, lookup: Lookup)
    ensures Search([q], lookup) == SearchOutcome(lookup(q), [q])
  {
    SearchStopsAt([q], lookup, 0);
    if lookup(q).None? {
      SearchStopsAt([q], lookup, 1);
    } else {
      assert [q][..1] == [q];
    }
  }

  /** Going candidate by candidate is searching their lookups in plan order. */
  lemma {:induction false} SearchNamesFollowsSteps(category: string, year: string, candidates: seq<Candidate>, number: Option<string>, lookup: Lookup)
    ensures SearchNames(category, year, candidates, number, lookup) == Search(NameSteps(category, year, candidates, number), lookup)
    decreases |candidates|
  {
    if candidates == [] {
      SearchStopsAt([], lookup, 0);
    } else {
      var step := NameStep(category, year, candidates[0], number);
      var rest := NameSteps(category, year, candidates[1..], number);
      SearchAppend(step, rest, lookup);
      SearchNamesFollowsSteps(category, year, candidates[1..], number, lookup);
    }
  }

  /**
   * The driver's search makes the lookups of the plan in order and stops at
   * the first one that finds a certificate: it is the flat search over
   * `LookupPlan`.
   */
  lemma CertSearchFollowsPlan(category: string, year: string, candidates: seq<Candidate>, number: Option<string>, lookup: Lookup)
    ensures CertSearch(category, year, candidates, number, lookup) == Search(LookupPlan(category, year, candidates, number), lookup)
  {
    var names := NameSteps(category, year, candidates, number);
    SearchNamesFollowsSteps(category, year, candidates, number, lookup);
    if number.Some? {
      var q := Query(category, year, None, number);
      SearchAppend([q], names, lookup);
      SearchOne(q, lookup);
    } else {
      assert LookupPlan(category, year, candidates, number) == names;
    }
  }

  /**
   * The answers the portal client can give: `DownloadCertImage` raises for
   * a lookup without names, so such a lookup never finds a certificate.
   */
  ghost predicate PortalAnswers(lookup: Lookup) {
    forall q: Query :: q.name.None? ==> lookup(q).None?
  }

  /**
   * With the portal's own answers, the lookup by number alone is made but
   * never finds anything: the search's result is that of the names alone.
   */
  lemma NumberAloneNeverFinds(category: string, year: string, candidates: seq<Candidate>, number: Option<string>, lookup: Lookup)
    requires PortalAnswers(lookup)
    ensures var s := CertSearch(category, year, candidates, number, lookup);
      var names := SearchNames(category, year, candidates, number, lookup);
      && s.image == names.image
      && s.tried == (if number.Some? then [Query(category, year, None, number)] else []) + names.tried
  {
    if number.Some? {
      var q := Query(category, year, None, number);
      assert lookup(q).None?;
    }
  }
}

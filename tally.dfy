/** The server's term counter: a Python dict filled by `term_counter[term] =
    term_counter.get(term, 0) + 1` for every non-empty segment. Its keys keep insertion order
    (first occurrence); its values count occurrences. */
module Tally {
  import opened Seqs

  /** `d.get(t, 0)`. */
  function Get(m: map<string, nat>, t: string): nat {
    if t in m then m[t] else 0
  }

  /** The counts the dict holds after the segments `segs` have been read in order. */
  function TallyOf(segs: seq<string>): map<string, nat> {
    if segs == [] then map[]
    else
      var m, t := TallyOf(segs[..|segs| - 1]), segs[|segs| - 1];
      if t == "" then m else m[t := Get(m, t) + 1]
  }

  /** The dict's keys in insertion order: each non-empty segment at its first occurrence. */
  function DistinctTerms(segs: seq<string>): seq<string> {
    if segs == [] then []
    else
      var d, t := DistinctTerms(segs[..|segs| - 1]), segs[|segs| - 1];
      if t == "" || t in d then d else d + [t]
  }

  /** The keys are exactly the non-empty segments, each listed once. */
  lemma {:induction false} DistinctTermsSpec(segs: seq<string>)
    ensures forall t :: t in DistinctTerms(segs) <==> t in segs && t != ""
    ensures Distinct(DistinctTerms(segs))
  {
    if segs != [] {
      var p, u := segs[..|segs| - 1], segs[|segs| - 1];
      DistinctTermsSpec(p);
      assert segs == p + [u];
    }
  }

  /** The count of every non-empty term is its number of occurrences among the segments
      (duplicates count separately), the keys are exactly the non-empty segments, and so
      every key counts at least once and the empty segment is never a key. */
  lemma {:induction false} TallyCounts(segs: seq<string>, t: string)
    ensures t != "" ==> Get(TallyOf(segs), t) == multiset(segs)[t]
    ensures t in TallyOf(segs) <==> t != "" && t in segs
    ensures t in TallyOf(segs) ==> TallyOf(segs)[t] >= 1
  {
    if segs != [] {
      var p, u := segs[..|segs| - 1], segs[|segs| - 1];
      TallyCounts(p, t);
      assert segs == p + [u];
      assert multiset(segs) == multiset(p) + multiset{u};
      assert t in segs <==> t in p || t == u;
    }
  }

  /** `TallyCounts` for every term at once, and the dict's keys are exactly `DistinctTerms`. */
  lemma TallyAllCounts(segs: seq<string>)
    ensures forall t :: t != "" ==> Get(TallyOf(segs), t) == multiset(segs)[t]
    ensures forall t :: t in TallyOf(segs) <==> t in DistinctTerms(segs)
  {
    DistinctTermsSpec(segs);
    forall t ensures t != "" ==> Get(TallyOf(segs), t) == multiset(segs)[t]
      ensures t in TallyOf(segs) <==> t in DistinctTerms(segs)
    {
      TallyCounts(segs, t);
    }
  }

  /** One iteration of the counting loop: a non-empty term that is not yet a key is appended
      to the keys, and its count goes up by one. */
  lemma CountOne(before: seq<string>, term: string)
    ensures DistinctTerms(before + [term]) ==
      if term == "" || term in TallyOf(before) then DistinctTerms(before) else DistinctTerms(before) + [term]
    ensures TallyOf(before + [term]) ==
      if term == "" then TallyOf(before) else TallyOf(before)[term := Get(TallyOf(before), term) + 1]
  {
    assert (before + [term])[..|before|] == before;
    TallyCounts(before, term);
  }

  /** The counter depends only on how often each non-empty segment occurs. */
  lemma TallySameCounts(a: seq<string>, b: seq<string>)
    requires forall t :: t != "" ==> multiset(a)[t] == multiset(b)[t]
    ensures TallyOf(a) == TallyOf(b)
  {
    forall t ensures t in TallyOf(a) <==> t in TallyOf(b) {
      TallyCounts(a, t);
      TallyCounts(b, t);
      assert t in a <==> multiset(a)[t] > 0;
      assert t in b <==> multiset(b)[t] > 0;
    }
    forall t | t in TallyOf(a) ensures TallyOf(a)[t] == TallyOf(b)[t] {
      TallyCounts(a, t);
      TallyCounts(b, t);
    }
  }

  /** The number of keys is the number of distinct non-empty segments. */
  lemma DistinctTermsCount(segs: seq<string>)
    ensures |DistinctTerms(segs)| == |TallyOf(segs)|
  {
    var d := DistinctTerms(segs);
    DistinctTermsSpec(segs);
    DistinctCardinality(d);
    forall t ensures t in Elems(d) <==> t in TallyOf(segs) {
      TallyCounts(segs, t);
    }
    assert Elems(d) == TallyOf(segs).Keys;
  }
}

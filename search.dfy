/** The search effect of the front end: a capped, order-preserving,
    case-insensitive substring filter over the problem knowledge base. */
module Search {
  import opened Text
  import opened Seqs
  import opened Records

  /** The fixed cap on shown results (`slice(0, 7)`). */
  const MaxResults: nat := 7

  /** Entry `p` matches the lower-cased query `lq` when its term or one of its
      variations, lower-cased, includes `lq`. */
  predicate MatchesQuery(p: ProblemTerm, lq: string)
  {
    Includes(Lower(p.term), lq) ||
    exists i :: 0 <= i < |p.variations| && Includes(Lower(p.variations[i]), lq)
  }

  /** A knowledge-base entry matches exactly when the query occurs at some
      position of its lower-cased term or of one lower-cased variation. */
  lemma MatchesQueryIffOccurs(p: ProblemTerm, lq: string)
    ensures MatchesQuery(p, lq) <==>
              (exists i :: OccursAt(Lower(p.term), lq, i)) ||
              (exists j, i :: 0 <= j < |p.variations| && OccursAt(Lower(p.variations[j]), lq, i))
  {
    IncludesIffOccurs(Lower(p.term), lq);
    forall j | 0 <= j < |p.variations| {
      IncludesIffOccurs(Lower(p.variations[j]), lq);
    }
  }

  /** `db.filter(...)`: exactly the matching entries, in knowledge-base order. */
  function Matching(db: seq<ProblemTerm>, lq: string): (r: seq<ProblemTerm>)
    ensures |r| <= |db|
    ensures forall x :: x in r <==> x in db && MatchesQuery(x, lq)
    ensures IsSubseq(r, db)
  {
    if db == [] then []
    else if MatchesQuery(db[0], lq) then [db[0]] + Matching(db[1..], lq)
    else Matching(db[1..], lq)
  }

  /** The filter keeps each matching entry as often as it occurs, and no
      other entry. */
  lemma {:induction false} MatchingCount(db: seq<ProblemTerm>, lq: string, x: ProblemTerm)
    ensures multiset(Matching(db, lq))[x] == if MatchesQuery(x, lq) then multiset(db)[x] else 0
  {
    if db != [] {
      var rest := Matching(db[1..], lq);
      MatchingCount(db[1..], lq, x);
      assert multiset(db)[x] == multiset([db[0]])[x] + multiset(db[1..])[x] by {
        assert db == [db[0]] + db[1..];
      }
      if MatchesQuery(db[0], lq) {
        assert Matching(db, lq) == [db[0]] + rest;
        assert multiset([db[0]] + rest)[x] == multiset([db[0]])[x] + multiset(rest)[x];
      } else {
        assert Matching(db, lq) == rest;
      }
    }
  }

  /** The results the search effect stores for `query`: none for a blank
      query, otherwise the first matching entries up to the cap. The match
      uses the lower-cased query as typed: only the blank test trims. */
  function SearchResults(db: seq<ProblemTerm>, query: string): (r: seq<ProblemTerm>)
    ensures Trim(query) == [] ==> r == []
    ensures |r| <= MaxResults
  {
    if Trim(query) == [] then []
    else
      var m := Matching(db, Lower(query));
      if |m| <= MaxResults then m else m[..MaxResults]
  }

  /** A blank query gives no results; otherwise at most seven matching
      entries, in knowledge-base order, forming a prefix of all matches; and
      when fewer than seven are shown, every matching entry is shown. */
  lemma SearchResultsSpec(db: seq<ProblemTerm>, query: string)
    ensures var r := SearchResults(db, query);
            && (forall x :: x in r ==> x in db && MatchesQuery(x, Lower(query)))
            && IsSubseq(r, db)
            && (Trim(query) != [] && |r| < MaxResults ==>
                  forall x :: x in db && MatchesQuery(x, Lower(query)) ==> x in r)
            && (Trim(query) != [] ==>
                  var m := Matching(db, Lower(query));
                  && |r| == (if |m| < MaxResults then |m| else MaxResults)
                  && r == m[..|r|])
  {
    if Trim(query) != [] {
      var m := Matching(db, Lower(query));
      if |m| > MaxResults {
        SubseqPrefix(m, db, MaxResults);
        forall x | x in m[..MaxResults]
          ensures x in m
        {
          var i :| 0 <= i < MaxResults && m[..MaxResults][i] == x;
          assert m[i] == x;
        }
      } else {
        assert m[..|m|] == m;
      }
    }
  }

  /** A whitespace-only query, however long, gives no results. */
  lemma BlankQueryGivesNothing(db: seq<ProblemTerm>, query: string)
    requires IsBlank(query)
    ensures SearchResults(db, query) == []
  {
    TrimEmptyIffBlank(query);
  }

  /** Every result contains the lower-cased query as a substring of its
      lower-cased term or of one of its lower-cased variations. */
  lemma ResultsContainQuery(db: seq<ProblemTerm>, query: string, x: ProblemTerm)
    requires x in SearchResults(db, query)
    ensures (exists i: nat :: OccursAt(Lower(x.term), Lower(query), i)) ||
            (exists j :: 0 <= j < |x.variations| &&
               exists i: nat :: OccursAt(Lower(x.variations[j]), Lower(query), i))
  {
    SearchResultsSpec(db, query);
    IncludesIffOccurs(Lower(x.term), Lower(query));
    if !Includes(Lower(x.term), Lower(query)) {
      var j :| 0 <= j < |x.variations| && Includes(Lower(x.variations[j]), Lower(query));
      IncludesIffOccurs(Lower(x.variations[j]), Lower(query));
    }
  }
}

/** `groupProblems`: the candidates partitioned by category for display,
    built by pushing each candidate onto its category's list. */
module Grouping {
  import opened Records
  import opened Seqs

  /** `problem.category || 'Other'`. */
  function CategoryOf(c: Candidate): (k: string)
    ensures k != ""
    ensures c.category == "" ==> k == "Other"
    ensures c.category != "" ==> k == c.category
  {
    if c.category == "" then "Other" else c.category
  }

  /** The category of every candidate, in candidate order. */
  function CategoriesOf(cs: seq<Candidate>): (ks: seq<string>)
    ensures |ks| == |cs| && forall i :: 0 <= i < |cs| ==> ks[i] == CategoryOf(cs[i])
  {
    seq(|cs|, i requires 0 <= i < |cs| => CategoryOf(cs[i]))
  }

  /** The candidates of category `k`, in candidate order. */
  function InCategory(cs: seq<Candidate>, k: string): (r: seq<Candidate>)
    ensures |r| <= |cs|
    ensures forall c :: c in r <==> c in cs && CategoryOf(c) == k
  {
    if cs == [] then []
    else
      var last := cs[|cs| - 1];
      assert cs == cs[..|cs| - 1] + [last];
      InCategory(cs[..|cs| - 1], k) + (if CategoryOf(last) == k then [last] else [])
  }

  /** A category's list is a subsequence of the candidates. */
  lemma {:induction false} InCategoryInOrder(cs: seq<Candidate>, k: string)
    ensures IsSubseq(InCategory(cs, k), cs)
  {
    if cs != [] {
      var n := |cs| - 1;
      var init := InCategory(cs[..n], k);
      InCategoryInOrder(cs[..n], k);
      assert cs == cs[..n] + [cs[n]];
      SubseqAppend(init, cs[..n], cs[n]);
      if CategoryOf(cs[n]) == k {
        assert InCategory(cs, k) == init + [cs[n]];
      } else {
        assert InCategory(cs, k) == init;
      }
    }
  }

  /** A category's list holds each candidate of the category as often as it
      occurs, and no other candidate. */
  lemma {:induction false} InCategoryCount(cs: seq<Candidate>, k: string, c: Candidate)
    ensures multiset(InCategory(cs, k))[c] == if CategoryOf(c) == k then multiset(cs)[c] else 0
  {
    if cs != [] {
      var n := |cs| - 1;
      var last := cs[n];
      var init := InCategory(cs[..n], k);
      InCategoryCount(cs[..n], k, c);
      assert cs == cs[..n] + [last];
      if CategoryOf(last) == k {
        assert InCategory(cs, k) == init + [last];
      } else {
        assert InCategory(cs, k) == init;
      }
    }
  }

  /** The accumulator object: its keys in insertion order (the order
      `Object.keys` reports) and the list under each key. */
  datatype Groups = Groups(order: seq<string>, members: map<string, seq<Candidate>>)

  /** The number of candidates held under the listed keys. */
  function TotalSize(order: seq<string>, members: map<string, seq<Candidate>>): nat
    requires forall k :: k in order ==> k in members
  {
    if order == [] then 0 else |members[order[0]]| + TotalSize(order[1..], members)
  }

  lemma {:induction false} TotalSizeAppend(order: seq<string>, members: map<string, seq<Candidate>>, k: string)
    requires forall j :: j in order ==> j in members
    requires k in members
    ensures TotalSize(order + [k], members) == TotalSize(order, members) + |members[k]|
  {
    if order != [] {
      assert (order + [k])[1..] == order[1..] + [k];
      TotalSizeAppend(order[1..], members, k);
    }
  }

  lemma {:induction false} TotalSizeOther(order: seq<string>, members: map<string, seq<Candidate>>, k: string, v: seq<Candidate>)
    requires forall j :: j in order ==> j in members
    requires k !in order
    ensures TotalSize(order, members[k := v]) == TotalSize(order, members)
  {
    if order != [] {
      TotalSizeOther(order[1..], members, k, v);
    }
  }

  lemma {:induction false} TotalSizeGrow(order: seq<string>, members: map<string, seq<Candidate>>, k: string, c: Candidate)
    requires forall j :: j in order ==> j in members
    requires NoDup(order) && k in order
    ensures TotalSize(order, members[k := members[k] + [c]]) == TotalSize(order, members) + 1
  {
    var m' := members[k := members[k] + [c]];
    if order[0] == k {
      assert k !in order[1..] by {
        forall j | 0 <= j < |order[1..]| ensures order[1..][j] != k {
          assert order[1..][j] == order[j + 1];
        }
      }
      TotalSizeOther(order[1..], members, k, members[k] + [c]);
    } else {
      assert NoDup(order[1..]) by {
        forall i, j | 0 <= i < j < |order[1..]| ensures order[1..][i] != order[1..][j] {
          assert order[1..][i] == order[i + 1] && order[1..][j] == order[j + 1];
        }
      }
      TotalSizeGrow(order[1..], members, k, c);
    }
  }

  /** Taking one more candidate adds its category at the end of the
      first-seen order unless it was already there. */
  lemma FirstSeenStep(problems: seq<Candidate>, i: nat)
    requires i < |problems|
    ensures FirstSeen(CategoriesOf(problems[..i + 1])) ==
              var p := FirstSeen(CategoriesOf(problems[..i]));
              var k := CategoryOf(problems[i]);
              if k in p then p else p + [k]
  {
    var ks := CategoriesOf(problems[..i + 1]);
    assert ks[..i] == CategoriesOf(problems[..i]);
  }

  /** Taking one more candidate appends it to its own category only. */
  lemma InCategoryStep(problems: seq<Candidate>, i: nat, k: string)
    requires i < |problems|
    ensures InCategory(problems[..i + 1], k) ==
              InCategory(problems[..i], k) + (if CategoryOf(problems[i]) == k then [problems[i]] else [])
  {
    assert problems[..i + 1][..i] == problems[..i];
  }

  /** A category not seen yet holds no candidate yet. */
  lemma UnseenCategoryIsEmpty(problems: seq<Candidate>, k: string)
    requires k !in FirstSeen(CategoriesOf(problems))
    ensures InCategory(problems, k) == []
  {
  }

  /** The accumulator after the first `i` candidates. */
  ghost predicate GroupedUpTo(problems: seq<Candidate>, i: nat, order: seq<string>, members: map<string, seq<Candidate>>)
    requires i <= |problems|
  {
    && order == FirstSeen(CategoriesOf(problems[..i]))
    && (forall k :: k in members <==> k in order)
    && (forall k :: k in members ==> members[k] == InCategory(problems[..i], k))
    && TotalSize(order, members) == i
  }

  /** Pushing candidate `i` onto its category's list keeps every list exact. */
  lemma MembersStep(problems: seq<Candidate>, i: nat, base: map<string, seq<Candidate>>, k: string)
    requires i < |problems| && k == CategoryOf(problems[i]) && k in base
    requires forall j :: j in base ==> base[j] == InCategory(problems[..i], j)
    ensures var members' := base[k := base[k] + [problems[i]]];
            forall j :: j in members' ==> members'[j] == InCategory(problems[..i + 1], j)
  {
    forall j | j in base
      ensures base[k := base[k] + [problems[i]]][j] == InCategory(problems[..i + 1], j)
    {
      InCategoryStep(problems, i, j);
    }
  }

  /** Pushing candidate `i` onto a category seen before. */
  lemma GroupStepSeen(problems: seq<Candidate>, i: nat, order: seq<string>, members: map<string, seq<Candidate>>)
    requires i < |problems| && GroupedUpTo(problems, i, order, members)
    requires CategoryOf(problems[i]) in members
    ensures var members' := members[CategoryOf(problems[i]) := members[CategoryOf(problems[i])] + [problems[i]]];
      && order == FirstSeen(CategoriesOf(problems[..i + 1]))
      && (forall j :: j in members' <==> j in order)
      && (forall j :: j in members' ==> members'[j] == InCategory(problems[..i + 1], j))
      && TotalSize(order, members') == i + 1
  {
    var k := CategoryOf(problems[i]);
    var members' := members[k := members[k] + [problems[i]]];
    assert order == FirstSeen(CategoriesOf(problems[..i + 1])) by {
      FirstSeenStep(problems, i);
    }
    assert forall j :: j in members' <==> j in order;
    assert TotalSize(order, members') == i + 1 by {
      TotalSizeGrow(order, members, k, problems[i]);
    }
    assert forall j :: j in members' ==> members'[j] == InCategory(problems[..i + 1], j) by {
      MembersStep(problems, i, members, k);
    }
  }

  /** Pushing candidate `i` onto a category seen for the first time. */
  lemma GroupStepUnseen(problems: seq<Candidate>, i: nat, order: seq<string>, members: map<string, seq<Candidate>>)
    requires i < |problems| && GroupedUpTo(problems, i, order, members)
    requires CategoryOf(problems[i]) !in members
    ensures var order' := order + [CategoryOf(problems[i])];
      var members' := members[CategoryOf(problems[i]) := [problems[i]]];
      && order' == FirstSeen(CategoriesOf(problems[..i + 1]))
      && (forall j :: j in members' <==> j in order')
      && (forall j :: j in members' ==> members'[j] == InCategory(problems[..i + 1], j))
      && TotalSize(order', members') == i + 1
  {
    var k := CategoryOf(problems[i]);
    var members' := members[k := [problems[i]]];
    assert order + [k] == FirstSeen(CategoriesOf(problems[..i + 1])) by {
      FirstSeenStep(problems, i);
    }
    assert forall j :: j in members' <==> j in order + [k];
    assert TotalSize(order + [k], members') == i + 1 by {
      TotalSizeOther(order, members, k, [problems[i]]);
      TotalSizeAppend(order, members', k);
    }
    assert forall j :: j in members' ==> members'[j] == InCategory(problems[..i + 1], j) by {
      UnseenCategoryIsEmpty(problems[..i], k);
      forall j | j in members'
        ensures members'[j] == InCategory(problems[..i + 1], j)
      {
        InCategoryStep(problems, i, j);
      }
    }
  }

  /** The accumulator after every candidate holds the whole grouping. */
  lemma GroupedAll(problems: seq<Candidate>, order: seq<string>, members: map<string, seq<Candidate>>)
    requires GroupedUpTo(problems, |problems|, order, members)
    ensures order == FirstSeen(CategoriesOf(problems))
    ensures forall k :: k in members <==> k in order
    ensures forall k :: k in order ==> k != ""
    ensures forall k :: k in members ==> members[k] == InCategory(problems, k)
    ensures TotalSize(order, members) == |problems|
  {
    assert problems[..|problems|] == problems;
    forall k | k in order
      ensures k != ""
    {
      var j :| 0 <= j < |problems| && CategoriesOf(problems)[j] == k;
    }
  }

  /** The categories occur once each, in the order they are first seen, and no
      category is empty; each category holds exactly its candidates in their
      insertion order; and the group sizes add up to the number of candidates. */
  method GroupProblems(problems: seq<Candidate>) returns (g: Groups)
    ensures g.order == FirstSeen(CategoriesOf(problems))
    ensures forall k :: k in g.members <==> k in g.order
    ensures forall k :: k in g.order ==> k != ""
    ensures forall k :: k in g.members ==> g.members[k] == InCategory(problems, k)
    ensures TotalSize(g.order, g.members) == |problems|
  {
    var order: seq<string> := [];
    var members: map<string, seq<Candidate>> := map[];
    var i := 0;
    while i < |problems|
      invariant 0 <= i <= |problems|
      invariant GroupedUpTo(problems, i, order, members)
    {
      var problem := problems[i];
      var category := CategoryOf(problem);
      if category in members {
        GroupStepSeen(problems, i, order, members);
        members := members[category := members[category] + [problem]];
      } else {
        GroupStepUnseen(problems, i, order, members);
        order := order + [category];
        members := members[category := [problem]];
      }
      i := i + 1;
    }
    GroupedAll(problems, order, members);
    g := Groups(order, members);
  }
}

/** Problem detection in the back end: the variation map built from the
    knowledge base, and the de-duplication of the matches found in a note.
    The regular expression is not modelled; detection starts from the
    matched variation strings in the order the matcher reports them. */
module Detection {
  import opened Text
  import opened Seqs
  import opened Records

  /** Some variation in `vs` lower-cases to `k` (defined on the last
      variation, the way the build loop reaches it). */
  predicate WritesKey(vs: seq<string>, k: string)
  {
    vs != [] && (WritesKey(vs[..|vs| - 1], k) || Lower(vs[|vs| - 1]) == k)
  }

  /** The knowledge-base item has a variation that lower-cases to `k`. */
  predicate HasVariation(item: ProblemTerm, k: string)
  {
    WritesKey(item.variations, k)
  }

  /** The same, stated by position. */
  ghost predicate Mentions(item: ProblemTerm, k: string)
  {
    exists j :: 0 <= j < |item.variations| && Lower(item.variations[j]) == k
  }

  lemma {:induction false} WritesKeyAt(vs: seq<string>, k: string)
    ensures WritesKey(vs, k) <==> exists j :: 0 <= j < |vs| && Lower(vs[j]) == k
  {
    if vs != [] {
      var n := |vs| - 1;
      WritesKeyAt(vs[..n], k);
      assert forall j :: 0 <= j < n ==> vs[..n][j] == vs[j];
    }
  }

  /** The inner loop of the build: each variation, lower-cased, is mapped to
      the item's `{term, category}`, in order. */
  function WriteVariations(m: map<string, Candidate>, vs: seq<string>, info: Candidate): map<string, Candidate>
  {
    if vs == [] then m
    else WriteVariations(m, vs[..|vs| - 1], info)[Lower(vs[|vs| - 1]) := info]
  }

  /** The outer loop of the build: the items' variations written item by item. */
  function WriteItems(m: map<string, Candidate>, kb: seq<ProblemTerm>): map<string, Candidate>
  {
    if kb == [] then m
    else WriteVariations(WriteItems(m, kb[..|kb| - 1]), kb[|kb| - 1].variations, CandidateOf(kb[|kb| - 1]))
  }

  /** The lower-cased variations of an item, in order. */
  function LowerAll(vs: seq<string>): (r: seq<string>)
    ensures |r| == |vs| && forall j :: 0 <= j < |vs| ==> r[j] == Lower(vs[j])
  {
    seq(|vs|, j requires 0 <= j < |vs| => Lower(vs[j]))
  }

  /** `all_variations`: every lower-cased variation of every item, in
      knowledge-base order (before escaping for the pattern). */
  function AllVariations(kb: seq<ProblemTerm>): seq<string>
  {
    if kb == [] then [] else AllVariations(kb[..|kb| - 1]) + LowerAll(kb[|kb| - 1].variations)
  }

  /** Writing one item's variations adds exactly their lower-cased forms as
      keys, all mapped to the item; other keys keep their values. */
  lemma {:induction false} WriteVariationsSpec(m: map<string, Candidate>, vs: seq<string>, info: Candidate, k: string)
    ensures k in WriteVariations(m, vs, info) <==> k in m || WritesKey(vs, k)
    ensures WritesKey(vs, k) ==> WriteVariations(m, vs, info)[k] == info
    ensures !WritesKey(vs, k) && k in m ==> WriteVariations(m, vs, info)[k] == m[k]
  {
    if vs != [] {
      WriteVariationsSpec(m, vs[..|vs| - 1], info, k);
    }
  }

  /** Some item of the knowledge base writes `k`. */
  predicate SomeItemWrites(kb: seq<ProblemTerm>, k: string)
  {
    kb != [] && (SomeItemWrites(kb[..|kb| - 1], k) || HasVariation(kb[|kb| - 1], k))
  }

  lemma {:induction false} SomeItemWritesAt(kb: seq<ProblemTerm>, k: string)
    ensures SomeItemWrites(kb, k) <==> exists i :: 0 <= i < |kb| && HasVariation(kb[i], k)
  {
    if kb != [] {
      var n := |kb| - 1;
      SomeItemWritesAt(kb[..n], k);
      assert forall i :: 0 <= i < n ==> kb[..n][i] == kb[i];
    }
  }

  /** `kb[i]` writes `k` and no later item does. */
  predicate LastWriter(kb: seq<ProblemTerm>, k: string, i: int)
  {
    0 <= i < |kb| && HasVariation(kb[i], k) && !SomeItemWrites(kb[i + 1..], k)
  }

  /** After the build the keys are the old keys and the lower-cased
      variations of the items; a key no item writes keeps its old value. */
  lemma {:induction false} WriteItemsKeys(m: map<string, Candidate>, kb: seq<ProblemTerm>, k: string)
    ensures k in WriteItems(m, kb) <==> k in m || SomeItemWrites(kb, k)
    ensures !SomeItemWrites(kb, k) && k in m ==> WriteItems(m, kb)[k] == m[k]
  {
    if kb != [] {
      var n := |kb| - 1;
      WriteItemsKeys(m, kb[..n], k);
      WriteVariationsSpec(WriteItems(m, kb[..n]), kb[n].variations, CandidateOf(kb[n]), k);
    }
  }

  /** After the build a key some item writes maps to the `{term, category}`
      of the last item that writes it. */
  lemma {:induction false} WriteItemsLastWins(m: map<string, Candidate>, kb: seq<ProblemTerm>, k: string)
    requires SomeItemWrites(kb, k)
    ensures exists i :: LastWriter(kb, k, i) && k in WriteItems(m, kb) && WriteItems(m, kb)[k] == CandidateOf(kb[i])
  {
    var n := |kb| - 1;
    var init := kb[..n];
    WriteVariationsSpec(WriteItems(m, init), kb[n].variations, CandidateOf(kb[n]), k);
    if HasVariation(kb[n], k) {
      assert kb[n + 1..] == [];
      assert LastWriter(kb, k, n);
    } else {
      WriteItemsLastWins(m, init, k);
      var i' :| LastWriter(init, k, i') && k in WriteItems(m, init) && WriteItems(m, init)[k] == CandidateOf(init[i']);
      LastWriterExtends(kb, k, i');
    }
  }

  /** The last writer of a prefix stays the last writer when the next item
      does not write the key. */
  lemma LastWriterExtends(kb: seq<ProblemTerm>, k: string, i: int)
    requires kb != [] && LastWriter(kb[..|kb| - 1], k, i) && !HasVariation(kb[|kb| - 1], k)
    ensures LastWriter(kb, k, i) && kb[..|kb| - 1][i] == kb[i]
  {
    var n := |kb| - 1;
    assert kb[i + 1..][..n - i - 1] == kb[..n][i + 1..];
  }

  /** The variation map of a knowledge base, built from nothing. */
  function VariationMapOf(kb: seq<ProblemTerm>): map<string, Candidate>
  {
    WriteItems(map[], kb)
  }

  /** An item has a variation lowering to `k` in the recursive sense exactly
      when it has one at some position. */
  lemma MentionsAt(kb: seq<ProblemTerm>, k: string)
    ensures forall i :: 0 <= i < |kb| ==> (HasVariation(kb[i], k) <==> Mentions(kb[i], k))
  {
    forall i | 0 <= i < |kb|
      ensures HasVariation(kb[i], k) <==> Mentions(kb[i], k)
    {
      WritesKeyAt(kb[i].variations, k);
    }
  }

  /** No item after position `i` writes `k`, stated by position. */
  lemma NoLaterWriter(kb: seq<ProblemTerm>, k: string, i: int)
    requires 0 <= i < |kb| && !SomeItemWrites(kb[i + 1..], k)
    ensures forall i' :: i < i' < |kb| ==> !Mentions(kb[i'], k)
  {
    SomeItemWritesAt(kb[i + 1..], k);
    MentionsAt(kb, k);
    forall i' | i < i' < |kb|
      ensures !HasVariation(kb[i'], k)
    {
      assert kb[i + 1..][i' - i - 1] == kb[i'];
    }
  }

  /** Every lower-cased variation of every item is a key, nothing else is,
      and each key maps to the last item having that variation. */
  lemma VariationMapLastWriterWins(kb: seq<ProblemTerm>, k: string)
    ensures k in VariationMapOf(kb) <==> exists i :: 0 <= i < |kb| && Mentions(kb[i], k)
    ensures k in VariationMapOf(kb) ==>
              exists i :: && 0 <= i < |kb| && Mentions(kb[i], k)
                          && (forall i' :: i < i' < |kb| ==> !Mentions(kb[i'], k))
                          && VariationMapOf(kb)[k] == CandidateOf(kb[i])
  {
    WriteItemsKeys(map[], kb, k);
    SomeItemWritesAt(kb, k);
    MentionsAt(kb, k);
    if SomeItemWrites(kb, k) {
      WriteItemsLastWins(map[], kb, k);
      var i :| LastWriter(kb, k, i) && VariationMapOf(kb)[k] == CandidateOf(kb[i]);
      NoLaterWriter(kb, k, i);
    }
  }

  /** The outcome of looking up every match: the infos in match order, or
      the first variation missing from the map (a `KeyError`, which the
      service answers with an internal error). */
  datatype Lookup = AllFound(infos: seq<Candidate>) | Missing(variation: string)

  function Lookups(vm: map<string, Candidate>, matches: seq<string>): Lookup
  {
    if matches == [] then AllFound([])
    else
      match Lookups(vm, matches[..|matches| - 1])
      case Missing(v) => Missing(v)
      case AllFound(infos) =>
        var v := Lower(matches[|matches| - 1]);
        if v in vm then AllFound(infos + [vm[v]]) else Missing(v)
  }

  /** Looking up succeeds exactly when every lower-cased match is a key; then
      the infos are the map's values for the matches, position by position. */
  lemma {:induction false} LookupsFound(vm: map<string, Candidate>, matches: seq<string>)
    ensures Lookups(vm, matches).AllFound? <==> forall i :: 0 <= i < |matches| ==> Lower(matches[i]) in vm
    ensures Lookups(vm, matches).AllFound? ==>
              && |Lookups(vm, matches).infos| == |matches|
              && forall i :: 0 <= i < |matches| ==> Lookups(vm, matches).infos[i] == vm[Lower(matches[i])]
  {
    if matches != [] {
      var n := |matches| - 1;
      LookupsFound(vm, matches[..n]);
      assert forall i :: 0 <= i < n ==> matches[..n][i] == matches[i];
    }
  }

  /** A failed lookup names the first lower-cased match that is not a key. */
  lemma {:induction false} LookupsMissing(vm: map<string, Candidate>, matches: seq<string>)
    requires Lookups(vm, matches).Missing?
    ensures exists i :: && 0 <= i < |matches| && Lookups(vm, matches).variation == Lower(matches[i])
                        && Lower(matches[i]) !in vm
                        && forall j :: 0 <= j < i ==> Lower(matches[j]) in vm
  {
    var n := |matches| - 1;
    var init := matches[..n];
    if Lookups(vm, init).Missing? {
      LookupsMissing(vm, init);
      var i :| && 0 <= i < n && Lookups(vm, init).variation == Lower(init[i])
                && Lower(init[i]) !in vm
                && forall j :: 0 <= j < i ==> Lower(init[j]) in vm;
      assert forall j :: 0 <= j <= i ==> init[j] == matches[j];
    } else {
      LookupsFound(vm, init);
      assert forall j :: 0 <= j < n ==> init[j] == matches[j];
    }
  }

  /** A lookup that failed on a prefix fails the same way on the whole. */
  lemma {:induction false} MissingPersists(vm: map<string, Candidate>, matches: seq<string>, n: nat)
    requires n <= |matches| && Lookups(vm, matches[..n]).Missing?
    ensures Lookups(vm, matches) == Lookups(vm, matches[..n])
    decreases |matches| - n
  {
    if n < |matches| {
      assert matches[..n + 1][..n] == matches[..n];
      MissingPersists(vm, matches, n + 1);
    } else {
      assert matches[..n] == matches;
    }
  }

  /** The lookup of one more match that is a key extends the infos by its value. */
  lemma LookupsFoundStep(vm: map<string, Candidate>, matches: seq<string>, i: nat)
    requires i < |matches| && Lookups(vm, matches[..i]).AllFound? && Lower(matches[i]) in vm
    ensures Lookups(vm, matches[..i + 1]) == AllFound(Lookups(vm, matches[..i]).infos + [vm[Lower(matches[i])]])
  {
    assert matches[..i + 1][..i] == matches[..i];
  }

  /** The lookup of one more match that is not a key fails on it, for good. */
  lemma LookupsMissingStep(vm: map<string, Candidate>, matches: seq<string>, i: nat)
    requires i < |matches| && Lookups(vm, matches[..i]).AllFound? && Lower(matches[i]) !in vm
    ensures Lookups(vm, matches) == Missing(Lower(matches[i]))
  {
    assert matches[..i + 1][..i] == matches[..i];
    MissingPersists(vm, matches, i + 1);
  }

  /** `found_problems_map`: a Python dictionary, which keeps the position
      of a key's first insertion and the value of its last assignment. */
  datatype OrderedMap = OrderedMap(keys: seq<string>, values: map<string, Candidate>)

  function Assign(d: OrderedMap, k: string, v: Candidate): OrderedMap
  {
    OrderedMap(if k in d.values then d.keys else d.keys + [k], d.values[k := v])
  }

  /** The dictionary after assigning each info under its term, in order. */
  function AssignAll(infos: seq<Candidate>): OrderedMap
  {
    if infos == [] then OrderedMap([], map[])
    else var n := |infos| - 1; Assign(AssignAll(infos[..n]), infos[n].term, infos[n])
  }

  /** Assigning one more info. */
  lemma AssignAllSnoc(infos: seq<Candidate>, c: Candidate)
    ensures AssignAll(infos + [c]) == Assign(AssignAll(infos), c.term, c)
  {
    assert (infos + [c])[..|infos|] == infos;
  }

  /** The dictionary's keys are the distinct terms in first-seen order,
      exactly the keys of its values. */
  lemma {:induction false} AssignAllKeys(infos: seq<Candidate>)
    ensures AssignAll(infos).keys == FirstSeen(Terms(infos))
    ensures forall k :: k in AssignAll(infos).values <==> k in AssignAll(infos).keys
    ensures forall k :: k in AssignAll(infos).values ==> AssignAll(infos).values[k].term == k
  {
    if infos != [] {
      var n := |infos| - 1;
      AssignAllKeys(infos[..n]);
      assert Terms(infos)[..n] == Terms(infos[..n]);
      assert Terms(infos)[n] == infos[n].term;
    }
  }

  /** `infos[j]` carries the term `k` and no later info does. */
  predicate LastWithTerm(infos: seq<Candidate>, k: string, j: int)
  {
    0 <= j < |infos| && infos[j].term == k && forall j' :: j < j' < |infos| ==> infos[j'].term != k
  }

  /** Each term of the dictionary maps to the last info carrying it. */
  lemma {:induction false} AssignAllLastWins(infos: seq<Candidate>, k: string)
    requires k in AssignAll(infos).values
    ensures exists j :: LastWithTerm(infos, k, j) && AssignAll(infos).values[k] == infos[j]
  {
    var n := |infos| - 1;
    var init := infos[..n];
    if k == infos[n].term {
      assert LastWithTerm(infos, k, n);
    } else {
      AssignAllLastWins(init, k);
      var j :| LastWithTerm(init, k, j) && AssignAll(init).values[k] == init[j];
      assert init[j] == infos[j];
      assert LastWithTerm(infos, k, j);
    }
  }

  /** `list(found_problems_map.values())`. */
  function ValuesInOrder(d: OrderedMap): (r: seq<Candidate>)
    requires forall k :: k in d.keys ==> k in d.values
    ensures |r| == |d.keys| && forall i :: 0 <= i < |r| ==> r[i] == d.values[d.keys[i]]
  {
    seq(|d.keys|, i requires 0 <= i < |d.keys| => d.values[d.keys[i]])
  }

  /** The values listed in key order carry the keys as their terms. */
  lemma ValuesInOrderTerms(d: OrderedMap)
    requires forall k :: k in d.keys ==> k in d.values
    requires forall k :: k in d.values ==> d.values[k].term == k
    ensures Terms(ValuesInOrder(d)) == d.keys
  {
  }

  /** What the detection endpoint answers. */
  datatype DetectOutcome = Detected(problems: seq<Candidate>) | UnknownVariation(variation: string)

  /** The detection result for the given matches over the variation map. */
  function DetectSpec(vm: map<string, Candidate>, matches: seq<string>): DetectOutcome
  {
    match Lookups(vm, matches)
    case Missing(v) => UnknownVariation(v)
    case AllFound(infos) =>
      AssignAllKeys(infos);
      Detected(ValuesInOrder(AssignAll(infos)))
  }

  /** Every match is answered: its term is among the answered terms. */
  lemma DetectionCoversMatches(vm: map<string, Candidate>, matches: seq<string>)
    requires Lookups(vm, matches).AllFound?
    ensures var infos := Lookups(vm, matches).infos;
            forall i :: 0 <= i < |matches| ==> Lower(matches[i]) in vm && vm[Lower(matches[i])].term in AssignAll(infos).keys
  {
    LookupsFound(vm, matches);
    var infos := Lookups(vm, matches).infos;
    AssignAllKeys(infos);
    forall i | 0 <= i < |matches|
      ensures vm[Lower(matches[i])].term in FirstSeen(Terms(infos))
    {
      assert Terms(infos)[i] == vm[Lower(matches[i])].term;
    }
  }

  /** Every answered entry is the map's value for the last match with its term. */
  lemma DetectionTakesLastMatch(vm: map<string, Candidate>, matches: seq<string>, e: Candidate)
    requires Lookups(vm, matches).AllFound?
    requires var d := AssignAll(Lookups(vm, matches).infos); exists k :: k in d.values && e == d.values[k]
    ensures forall i :: 0 <= i < |matches| ==> Lower(matches[i]) in vm
    ensures exists i :: && 0 <= i < |matches| && e == vm[Lower(matches[i])]
                        && forall i' :: i < i' < |matches| ==> vm[Lower(matches[i'])].term != e.term
  {
    LookupsFound(vm, matches);
    var infos := Lookups(vm, matches).infos;
    var d := AssignAll(infos);
    var k :| k in d.values && e == d.values[k];
    AssignAllLastWins(infos, k);
    var j :| LastWithTerm(infos, k, j) && d.values[k] == infos[j];
    assert e == vm[Lower(matches[j])];
  }

  /** Detection answers at most one entry per canonical term, in the order
      the terms were first matched; every matched term is answered, and each
      entry is the map's value for the last match with that term. */
  lemma DetectionDeduplicates(vm: map<string, Candidate>, matches: seq<string>)
    requires DetectSpec(vm, matches).Detected?
    ensures var ps := DetectSpec(vm, matches).problems;
            && NoDup(Terms(ps))
            && (forall i :: 0 <= i < |matches| ==> Lower(matches[i]) in vm && vm[Lower(matches[i])].term in Terms(ps))
            && (forall e :: e in ps ==>
                  exists i :: && 0 <= i < |matches| && e == vm[Lower(matches[i])]
                              && forall i' :: i < i' < |matches| ==> vm[Lower(matches[i'])].term != e.term)
  {
    var infos := Lookups(vm, matches).infos;
    AssignAllKeys(infos);
    var d := AssignAll(infos);
    var ps := ValuesInOrder(d);
    assert DetectSpec(vm, matches).problems == ps;
    ValuesInOrderTerms(d);
    DetectionCoversMatches(vm, matches);
    forall e | e in ps
      ensures exists i :: && 0 <= i < |matches| && e == vm[Lower(matches[i])]
                          && forall i' :: i < i' < |matches| ==> vm[Lower(matches[i'])].term != e.term
    {
      var p :| 0 <= p < |ps| && ps[p] == e;
      assert d.keys[p] in d.values && e == d.values[d.keys[p]];
      DetectionTakesLastMatch(vm, matches, e);
    }
  }

  /** The detection engine's global state. */
  class Engine {
    var variationMap: map<string, Candidate>

    constructor ()
      ensures variationMap == map[]
    {
      variationMap := map[];
    }

    /** `build_regex_engine`: writes every lower-cased variation of every
        item into the map, and returns the list the pattern is built from. */
    method Build(kb: seq<ProblemTerm>) returns (allVariations: seq<string>)
      modifies this
      ensures variationMap == WriteItems(old(variationMap), kb)
      ensures allVariations == AllVariations(kb)
    {
      allVariations := [];
      var i := 0;
      while i < |kb|
        invariant 0 <= i <= |kb|
        invariant variationMap == WriteItems(old(variationMap), kb[..i])
        invariant allVariations == AllVariations(kb[..i])
      {
        var item := kb[i];
        var info := Candidate(item.term, item.category);
        var j := 0;
        while j < |item.variations|
          invariant 0 <= j <= |item.variations|
          invariant variationMap == WriteVariations(WriteItems(old(variationMap), kb[..i]), item.variations[..j], info)
          invariant allVariations == AllVariations(kb[..i]) + LowerAll(item.variations[..j])
        {
          var variationLower := Lower(item.variations[j]);
          variationMap := variationMap[variationLower := info];
          allVariations := allVariations + [variationLower];
          assert item.variations[..j + 1][..j] == item.variations[..j];
          assert LowerAll(item.variations[..j + 1]) == LowerAll(item.variations[..j]) + [variationLower];
          j := j + 1;
        }
        assert item.variations[..j] == item.variations;
        assert kb[..i + 1][..i] == kb[..i];
        i := i + 1;
      }
      assert kb[..i] == kb;
    }

    /** The de-duplication loop of `detect_problems`, over the matched
        variations. */
    method Detect(matches: seq<string>) returns (r: DetectOutcome)
      ensures r == DetectSpec(variationMap, matches)
    {
      var keys: seq<string> := [];
      var found: map<string, Candidate> := map[];
      var i := 0;
      while i < |matches|
        invariant 0 <= i <= |matches|
        invariant Lookups(variationMap, matches[..i]).AllFound?
        invariant OrderedMap(keys, found) == AssignAll(Lookups(variationMap, matches[..i]).infos)
      {
        var foundVariation := Lower(matches[i]);
        if foundVariation !in variationMap {
          LookupsMissingStep(variationMap, matches, i);
          return UnknownVariation(foundVariation);
        }
        var problemInfo := variationMap[foundVariation];
        LookupsFoundStep(variationMap, matches, i);
        AssignAllSnoc(Lookups(variationMap, matches[..i]).infos, problemInfo);
        if problemInfo.term !in found {
          keys := keys + [problemInfo.term];
        }
        found := found[problemInfo.term := problemInfo];
        i := i + 1;
      }
      assert matches[..i] == matches;
      AssignAllKeys(Lookups(variationMap, matches).infos);
      r := Detected(ValuesInOrder(OrderedMap(keys, found)));
    }
  }
}

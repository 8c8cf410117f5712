/** Sequence facts shared by the front end and the back ends. */
module Seqs {

  /** No element occurs twice. */
  predicate NoDup<T(==)>(s: seq<T>)
  {
    forall i, j :: 0 <= i < j < |s| ==> s[i] != s[j]
  }

  /** `r` is `s` with some elements left out, the rest in their order. */
  ghost predicate IsSubseq<T>(r: seq<T>, s: seq<T>)
  {
    r == [] || (s != [] && ((r[0] == s[0] && IsSubseq(r[1..], s[1..])) || IsSubseq(r, s[1..])))
  }

  /** Elements of a subsequence come from the sequence. */
  lemma {:induction false} SubseqIn<T>(r: seq<T>, s: seq<T>, x: T)
    requires IsSubseq(r, s) && x in r
    ensures x in s
  {
    if r[0] == s[0] && IsSubseq(r[1..], s[1..]) {
      if x != r[0] {
        SubseqIn(r[1..], s[1..], x);
      }
    } else {
      SubseqIn(r, s[1..], x);
    }
  }

  /** A prefix of a subsequence is a subsequence. */
  lemma {:induction false} SubseqPrefix<T>(r: seq<T>, s: seq<T>, k: nat)
    requires IsSubseq(r, s) && k <= |r|
    ensures IsSubseq(r[..k], s)
  {
    if k > 0 {
      if r[0] == s[0] && IsSubseq(r[1..], s[1..]) {
        SubseqPrefix(r[1..], s[1..], k - 1);
        assert r[..k][1..] == r[1..][..k - 1];
      } else {
        SubseqPrefix(r, s[1..], k);
      }
    }
  }

  /** Appending the same element to both sides, or to the sequence only,
      keeps a subsequence a subsequence. */
  lemma {:induction false} SubseqAppend<T>(r: seq<T>, s: seq<T>, x: T)
    requires IsSubseq(r, s)
    ensures IsSubseq(r, s + [x]) && IsSubseq(r + [x], s + [x])
  {
    if s == [] {
      assert r == [];
      assert [x][1..] == [];
    } else {
      assert (s + [x])[1..] == s[1..] + [x];
      if r != [] && r[0] == s[0] && IsSubseq(r[1..], s[1..]) {
        SubseqAppend(r[1..], s[1..], x);
        assert (r + [x])[1..] == r[1..] + [x];
      } else {
        SubseqAppend(r, s[1..], x);
      }
    }
  }

  /** `s.filter(e => e !== x)`: every `x` gone, every other element kept,
      in order. */
  function Without<T(==, !new)>(s: seq<T>, x: T): (r: seq<T>)
    ensures x !in r
    ensures forall y :: y != x ==> (y in r <==> y in s)
    ensures IsSubseq(r, s)
    ensures x !in s ==> r == s
    ensures NoDup(s) ==> NoDup(r)
  {
    if s == [] then []
    else if s[0] == x then Without(s[1..], x)
    else
      var t := Without(s[1..], x);
      assert NoDup(s) ==> s[0] !in s[1..] && NoDup(s[1..]);
      assert forall j :: 0 < j < |[s[0]] + t| ==> ([s[0]] + t)[j] == t[j - 1];
      [s[0]] + t
  }

  /** `Without` keeps every other element as often as it occurs. */
  lemma {:induction false} WithoutCount<T(!new)>(s: seq<T>, x: T, y: T)
    ensures multiset(Without(s, x))[y] == if y == x then 0 else multiset(s)[y]
  {
    if s != [] {
      WithoutCount(s[1..], x, y);
      assert s == [s[0]] + s[1..];
      if s[0] != x {
        assert Without(s, x) == [s[0]] + Without(s[1..], x);
      }
    }
  }

  /** The distinct elements of `s` in the order of their first occurrence. */
  function FirstSeen<T(==, !new)>(s: seq<T>): (r: seq<T>)
    ensures NoDup(r)
    ensures forall x :: x in r <==> x in s
  {
    if s == [] then []
    else
      var p := FirstSeen(s[..|s| - 1]);
      assert s == s[..|s| - 1] + [s[|s| - 1]];
      if s[|s| - 1] in p then p else p + [s[|s| - 1]]
  }

  /** `FirstSeen` keeps the order of first occurrences: an element listed
      before another occurs in `s` before every occurrence of the other. */
  lemma {:induction false} FirstSeenOrder<T(!new)>(s: seq<T>, i: int, j: int, b: int)
    requires 0 <= i < j < |FirstSeen(s)| && 0 <= b < |s| && s[b] == FirstSeen(s)[j]
    ensures FirstSeen(s)[i] in s[..b]
  {
    var n := |s| - 1;
    var init := s[..n];
    var p := FirstSeen(init);
    assert s == init + [s[n]];
    assert FirstSeen(s) == if s[n] in p then p else p + [s[n]];
    if b == n {
      if s[n] in p {
        var b' :| 0 <= b' < |init| && init[b'] == s[n];
        FirstSeenOrder(init, i, j, b');
        assert init[..b'] == s[..b'];
        assert forall x :: x in s[..b'] ==> x in s[..b];
      } else {
        assert FirstSeen(s)[i] == p[i] && p[i] in init;
        assert init == s[..b];
      }
    } else {
      assert s[b] == init[b] && s[b] in init;
      assert j < |p|;
      assert FirstSeen(s)[i] == p[i] && FirstSeen(s)[j] == p[j];
      FirstSeenOrder(init, i, j, b);
      assert init[..b] == s[..b];
    }
  }
}

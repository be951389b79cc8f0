/** Lists of networks as address sets: the canonical form the program keeps, and
    what it is good for. */
module NetLists {
  import opened Bits
  import opened Nets

  /** Address `x` belongs to some network of the list. */
  ghost predicate Covered(w: nat, s: seq<Net>, x: int) {
    exists i :: 0 <= i < |s| && Has(w, s[i], x)
  }

  ghost predicate AllValid(w: nat, s: seq<Net>) {
    forall i :: 0 <= i < |s| ==> ValidNet(w, s[i])
  }

  /** Every address of `n` belongs to the list, no matter to which networks. */
  ghost predicate WhollyCovered(w: nat, s: seq<Net>, n: Net) {
    forall x :: Has(w, n, x) ==> Covered(w, s, x)
  }

  /** Valid networks in increasing order, disjoint, no two halves of one network. */
  ghost predicate Canonical(w: nat, s: seq<Net>) {
    && AllValid(w, s)
    && (forall i, j :: 0 <= i < j < |s| ==> End(w, s[i]) <= s[j].address)
    && (forall i, j :: 0 <= i < |s| && 0 <= j < |s| ==> !Halves(w, s[i], s[j]))
  }

  ghost predicate Sorted(s: seq<Net>) {
    forall i, j :: 0 <= i < j < |s| ==> Less(s[i], s[j])
  }

  // ----- binary search -----

  datatype SearchResult = Found(index: nat) | Missing(index: nat)

  /** The index of `n` in a sorted list, or where it would have to be inserted. */
  function Search(s: seq<Net>, n: Net, lo: nat, hi: nat): (r: SearchResult)
    requires lo <= hi <= |s|
    ensures lo <= r.index <= hi
    ensures r.Found? ==> r.index < hi && s[r.index] == n
    ensures Sorted(s) && r.Missing? ==>
      (forall k :: lo <= k < r.index ==> Less(s[k], n)) && (forall k :: r.index <= k < hi ==> Less(n, s[k]))
    decreases hi - lo
  {
    if lo == hi then Missing(lo)
    else
      var mid := lo + (hi - lo) / 2;
      if s[mid] == n then Found(mid)
      else if Less(s[mid], n) then Search(s, n, mid + 1, hi)
      else Search(s, n, lo, mid)
  }

  /** The membership test: one search and one comparison with the predecessor. */
  predicate ContainsNet(w: nat, s: seq<Net>, n: Net)
    requires n.prefixLen <= w && forall i :: 0 <= i < |s| ==> s[i].prefixLen <= w
  {
    match Search(s, n, 0, |s|)
    case Found(_) => true
    case Missing(i) => i != 0 && Contains(w, s[i - 1], n)
  }

  // ----- canonical lists -----

  lemma CanonicalIsSorted(w: nat, s: seq<Net>)
    requires Canonical(w, s)
    ensures Sorted(s)
  {}

  /** No two members, in either order, are siblings for the program. */
  lemma CanonicalHasNoSiblings(w: nat, s: seq<Net>)
    requires Canonical(w, s)
    ensures forall i, j :: 0 <= i < |s| && 0 <= j < |s| ==> !Siblings(w, s[i], s[j])
  {
    forall i, j | 0 <= i < |s| && 0 <= j < |s|
      ensures !Siblings(w, s[i], s[j])
    {
      SiblingsAreHalves(w, s[i], s[j]);
    }
  }

  /** For lists in order it is enough that neighbours are not halves of one network. */
  lemma NeighboursSuffice(w: nat, s: seq<Net>)
    requires AllValid(w, s)
    requires forall i, j :: 0 <= i < j < |s| ==> End(w, s[i]) <= s[j].address
    requires forall i :: 0 < i < |s| ==> !Halves(w, s[i - 1], s[i])
    ensures Canonical(w, s)
  {
    forall i, j | 0 <= i < |s| && 0 <= j < |s|
      ensures !Halves(w, s[i], s[j])
    {
      if i + 1 < j {
        assert End(w, s[i]) <= s[i + 1].address < End(w, s[i + 1]) <= s[j].address;
      } else if i + 1 == j {
        assert !Halves(w, s[j - 1], s[j]);
      }
    }
  }

  /** A network covered jointly by any number of members of a canonical list lies
      inside a single member. */
  lemma {:induction false} JointCoverIsSingle(w: nat, s: seq<Net>, n: Net) returns (i: nat)
    requires Canonical(w, s) && ValidNet(w, n) && WhollyCovered(w, s, n)
    ensures i < |s| && Inside(w, n, s[i])
    decreases w - n.prefixLen
  {
    assert Has(w, n, n.address);
    if n.prefixLen == w {
      i :| 0 <= i < |s| && Has(w, s[i], n.address);
      NestedOrDisjoint(w, s[i], n);
    } else {
      var lo, hi := Split(w, n);
      i := JointCoverIsSingle(w, s, lo);
      var j := JointCoverIsSingle(w, s, hi);
      HeldHalvesHoldWhole(w, s, n, lo, hi, i, j);
    }
  }

  /** If members hold both halves, the one that holds the lower half holds the whole:
      otherwise they would be the halves themselves. */
  lemma HeldHalvesHoldWhole(w: nat, s: seq<Net>, n: Net, lo: Net, hi: Net, i: nat, j: nat)
    requires Canonical(w, s) && ValidNet(w, n) && i < |s| && j < |s|
    requires ValidNet(w, lo) && ValidNet(w, hi) && Halves(w, lo, hi)
    requires n == Parent(lo) && End(w, n) == End(w, hi)
    requires Inside(w, lo, s[i]) && Inside(w, hi, s[j])
    ensures Inside(w, n, s[i])
  {
    NestedEitherWay(w, n, s[i]);
    NestedEitherWay(w, n, s[j]);
    NestedEitherWay(w, lo, s[i]);
    NestedEitherWay(w, hi, s[j]);
    assert !Halves(w, s[i], s[j]);
  }

  lemma NestedEitherWay(w: nat, a: Net, b: Net)
    requires ValidNet(w, a) && ValidNet(w, b)
    ensures Inside(w, a, b) || Inside(w, b, a) || End(w, a) <= b.address || End(w, b) <= a.address
    ensures Inside(w, a, b) && a != b ==> a.prefixLen > b.prefixLen
    ensures Inside(w, b, a) && a != b ==> b.prefixLen > a.prefixLen
  {
    if a.prefixLen <= b.prefixLen {
      NestedOrDisjoint(w, a, b);
    }
    if b.prefixLen <= a.prefixLen {
      NestedOrDisjoint(w, b, a);
    }
  }

  /** `contains` is exact: it holds if and only if every address of the network
      lies in the union of the stored ones. */
  lemma ContainsNetIsExact(w: nat, s: seq<Net>, n: Net)
    requires Canonical(w, s) && ValidNet(w, n)
    ensures ContainsNet(w, s, n) <==> WhollyCovered(w, s, n)
  {
    CanonicalIsSorted(w, s);
    var r := Search(s, n, 0, |s|);
    if r.Missing? && r.index != 0 {
      ContainsIsInclusion(w, s[r.index - 1], n);
    }
    if WhollyCovered(w, s, n) {
      var i := JointCoverIsSingle(w, s, n);
      if r.Missing? {
        PredecessorDecides(w, s, n, r.index, i);
      }
    }
    if ContainsNet(w, s, n) {
      var i := if r.Found? then r.index else r.index - 1;
      assert forall x :: Has(w, n, x) ==> Has(w, s[i], x);
    }
  }

  /** The only member that can contain `n` is the one just before where `n` would go. */
  lemma PredecessorDecides(w: nat, s: seq<Net>, n: Net, at: nat, i: nat)
    requires Canonical(w, s) && ValidNet(w, n) && at <= |s| && i < |s| && Inside(w, n, s[i])
    requires forall k :: 0 <= k < at ==> Less(s[k], n)
    requires forall k :: at <= k < |s| ==> Less(n, s[k])
    ensures at == i + 1
  {
    if n.prefixLen <= s[i].prefixLen {
      NestedOrDisjoint(w, n, s[i]);
    }
    assert !Less(n, s[i]);
    assert i + 1 < at ==> Less(s[i + 1], n);
  }

  // ----- normal form -----

  /** `s` and `t` stand for the same addresses. */
  ghost predicate SameAddresses(w: nat, s: seq<Net>, t: seq<Net>) {
    forall x :: Covered(w, s, x) <==> Covered(w, t, x)
  }

  lemma MemberIsCovered(w: nat, s: seq<Net>, t: seq<Net>, i: nat)
    requires AllValid(w, s) && SameAddresses(w, s, t) && i < |s|
    ensures WhollyCovered(w, t, s[i])
  {
    forall x | Has(w, s[i], x) ensures Covered(w, t, x) {
      assert Covered(w, s, x);
    }
  }

  lemma InsideMemberIsThatMember(w: nat, s: seq<Net>, i: nat, j: nat, n: Net)
    requires Canonical(w, s) && i < |s| && j < |s| && n.prefixLen <= w
    requires Inside(w, s[i], n) && Inside(w, n, s[j])
    ensures i == j && n == s[i]
  {
    EqualRanges(w, n, s[i]);
  }

  lemma EqualRanges(w: nat, a: Net, b: Net)
    requires ValidNet(w, b) && a.prefixLen <= w
    requires Inside(w, a, b) && Inside(w, b, a)
    ensures a == b
  {
    if a.prefixLen <= b.prefixLen {
      var m := SizesDivide(w, a, b);
      MulMonotone(Size(w, b), 1, m);
    } else {
      var m := SizesDivide(w, b, a);
      MulMonotone(Size(w, a), 1, m);
    }
  }

  /** Every network inside the address set of a canonical list that reaches a
      member is that member: members are maximal. */
  lemma MembersAreMaximal(w: nat, s: seq<Net>, i: nat, n: Net)
    requires Canonical(w, s) && i < |s| && ValidNet(w, n)
    requires WhollyCovered(w, s, n) && Inside(w, s[i], n)
    ensures n == s[i]
  {
    var j := JointCoverIsSingle(w, s, n);
    InsideMemberIsThatMember(w, s, i, j, n);
  }

  lemma SharedMember(w: nat, s: seq<Net>, t: seq<Net>, i: nat)
    requires Canonical(w, s) && Canonical(w, t) && SameAddresses(w, s, t) && i < |s|
    ensures s[i] in t
  {
    MemberIsCovered(w, s, t, i);
    var j := JointCoverIsSingle(w, t, s[i]);
    MemberIsCovered(w, t, s, j);
    var k := JointCoverIsSingle(w, s, t[j]);
    InsideMemberIsThatMember(w, s, i, k, t[j]);
  }

  lemma HasMember(s: seq<Net>)
    ensures s != [] ==> exists n :: n in s
  {
    if s != [] {
      assert s[0] in s;
    }
  }

  lemma {:induction false} SortedSameMembers(s: seq<Net>, t: seq<Net>)
    requires Sorted(s) && Sorted(t)
    requires forall n :: n in s <==> n in t
    ensures s == t
  {
    HasMember(s);
    HasMember(t);
    if s != [] {
      assert s[0] in t;
      assert t[0] in s;
      assert s[0] == t[0];
      forall n ensures n in s[1..] <==> n in t[1..] {
        if n in s[1..] {
          assert n in t && n != t[0];
        }
        if n in t[1..] {
          assert n in s && n != s[0];
        }
      }
      SortedSameMembers(s[1..], t[1..]);
    }
  }

  /** The canonical form is a normal form: equality of the stored lists is equality
      of the address sets. */
  lemma {:induction false} CanonicalFormIsUnique(w: nat, s: seq<Net>, t: seq<Net>)
    requires Canonical(w, s) && Canonical(w, t)
    ensures s == t <==> SameAddresses(w, s, t)
  {
    if SameAddresses(w, s, t) {
      CanonicalIsSorted(w, s);
      CanonicalIsSorted(w, t);
      forall n | n in s ensures n in t {
        var i :| 0 <= i < |s| && s[i] == n;
        SharedMember(w, s, t, i);
      }
      forall n | n in t ensures n in s {
        var i :| 0 <= i < |t| && t[i] == n;
        SharedMember(w, t, s, i);
      }
      SortedSameMembers(s, t);
    }
  }

  // ----- minimality -----

  /** For each member of a canonical list, a network of `t` inside it. */
  lemma InsideEachMember(w: nat, s: seq<Net>, t: seq<Net>, i: nat) returns (j: nat)
    requires Canonical(w, s) && AllValid(w, t) && SameAddresses(w, s, t) && i < |s|
    ensures j < |t| && Inside(w, t[j], s[i])
  {
    assert Has(w, s[i], s[i].address);
    assert Covered(w, s, s[i].address);
    j :| 0 <= j < |t| && Has(w, t[j], s[i].address);
    MemberIsCovered(w, t, s, j);
    var k := JointCoverIsSingle(w, s, t[j]);
  }

  /** A witness in `t` for each of the first `m` members; no witness serves twice. */
  lemma {:induction false} DistinctWitnesses(w: nat, s: seq<Net>, t: seq<Net>, m: nat) returns (js: set<nat>)
    requires Canonical(w, s) && AllValid(w, t) && SameAddresses(w, s, t) && m <= |s|
    ensures |js| == m
    ensures forall j :: j in js ==> j < |t| && exists i :: 0 <= i < m && Inside(w, t[j], s[i])
  {
    if m == 0 {
      js := {};
    } else {
      js := DistinctWitnesses(w, s, t, m - 1);
      var j := InsideEachMember(w, s, t, m - 1);
      assert j !in js;
      js := js + {j};
    }
  }

  /** No list of networks covering exactly the same addresses is shorter. */
  lemma CanonicalFormIsShortest(w: nat, s: seq<Net>, t: seq<Net>)
    requires Canonical(w, s) && AllValid(w, t) && SameAddresses(w, s, t)
    ensures |s| <= |t|
  {
    var js := DistinctWitnesses(w, s, t, |s|);
    IndicesFit(js, |t|);
  }

  lemma {:induction false} IndicesFit(js: set<nat>, n: nat)
    requires forall j :: j in js ==> j < n
    ensures |js| <= n
  {
    if n == 0 {
      assert js == {};
    } else {
      IndicesFit(js - {n - 1}, n - 1);
    }
  }
}

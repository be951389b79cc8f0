/** The set of addresses the daemon keeps per source: a list of networks updated in
    place, always in canonical form. */
module IpSets {
  import opened Nets
  import opened NetLists

  /** `n` lies between the first `i` members and those from `j` on. */
  ghost predicate Fits(w: nat, s: seq<Net>, i: nat, j: nat, n: Net)
    requires i <= j <= |s| && AllValid(w, s) && ValidNet(w, n)
  {
    && (i != 0 ==> End(w, s[i - 1]) <= n.address)
    && (j < |s| ==> End(w, n) <= s[j].address)
  }

  /** The addresses of `s` and `added` are those of the first `i` members, of `n`,
      and of the members from `j` on. */
  ghost predicate Accounts(w: nat, s: seq<Net>, i: nat, j: nat, n: Net, added: Net)
    requires i <= j <= |s|
  {
    forall x ::
    Covered(w, s, x) || Has(w, added, x) <==>
    Covered(w, s[..i], x) || Has(w, n, x) || Covered(w, s[j..], x)
  }

  /** `n` lies right of the first `i` members and sorts before those from `j` on. */
  ghost predicate InWindow(w: nat, s: seq<Net>, i: nat, j: nat, n: Net, added: Net) {
    && i <= j <= |s| && AllValid(w, s) && ValidNet(w, n)
    && (i != 0 ==> End(w, s[i - 1]) <= n.address)
    && (j < |s| ==> Less(n, s[j]))
    && Accounts(w, s, i, j, n, added)
  }

  /** `n` can take the place of members `i` to `j` once its siblings are merged. */
  ghost predicate Replaces(w: nat, s: seq<Net>, i: nat, j: nat, n: Net, added: Net) {
    i <= j <= |s| && AllValid(w, s) && ValidNet(w, n) && Fits(w, s, i, j, n) && Accounts(w, s, i, j, n, added)
  }

  lemma CoveredConcat(w: nat, s: seq<Net>, t: seq<Net>)
    ensures forall x :: Covered(w, s + t, x) <==> Covered(w, s, x) || Covered(w, t, x)
  {
    forall x ensures Covered(w, s + t, x) <==> Covered(w, s, x) || Covered(w, t, x) {
      if Covered(w, s, x) {
        var i :| 0 <= i < |s| && Has(w, s[i], x);
        assert (s + t)[i] == s[i];
      }
      if Covered(w, t, x) {
        var i :| 0 <= i < |t| && Has(w, t[i], x);
        assert (s + t)[|s| + i] == t[i];
      }
    }
  }

  lemma CoveredOne(w: nat, n: Net)
    ensures forall x :: Covered(w, [n], x) <==> Has(w, n, x)
  {
    forall x ensures Covered(w, [n], x) <==> Has(w, n, x) {
      assert [n][0] == n;
    }
  }

  lemma CoveredUnfoldLast(w: nat, s: seq<Net>, i: nat)
    requires 0 < i <= |s|
    ensures forall x :: Covered(w, s[..i], x) <==> Covered(w, s[..i - 1], x) || Has(w, s[i - 1], x)
  {
    assert s[..i] == s[..i - 1] + [s[i - 1]];
    CoveredConcat(w, s[..i - 1], [s[i - 1]]);
    CoveredOne(w, s[i - 1]);
  }

  lemma CoveredUnfoldFirst(w: nat, s: seq<Net>, j: nat)
    requires j < |s|
    ensures forall x :: Covered(w, s[j..], x) <==> Has(w, s[j], x) || Covered(w, s[j + 1..], x)
  {
    assert s[j..] == [s[j]] + s[j + 1..];
    CoveredConcat(w, [s[j]], s[j + 1..]);
    CoveredOne(w, s[j]);
  }

  lemma HalvesCover(w: nat, lo: Net, hi: Net)
    requires ValidNet(w, lo) && ValidNet(w, hi) && Halves(w, lo, hi)
    ensures forall x :: Has(w, Parent(lo), x) <==> Has(w, lo, x) || Has(w, hi, x)
  {
    HalvesMerge(w, lo, hi);
  }

  /** `s` with the members from `i` to `j` replaced by `n`. */
  function Splice(s: seq<Net>, i: nat, j: nat, n: Net): seq<Net>
    requires i <= j <= |s|
  {
    s[..i] + [n] + s[j..]
  }

  /** Replacing by a network that fits and whose neighbours are not its siblings. */
  lemma {:induction false} SpliceIsCanonical(w: nat, s: seq<Net>, i: nat, j: nat, n: Net)
    requires i <= j <= |s| && Canonical(w, s) && ValidNet(w, n) && Fits(w, s, i, j, n)
    requires i != 0 ==> !Siblings(w, s[i - 1], n)
    requires j < |s| ==> !Siblings(w, n, s[j])
    ensures Canonical(w, Splice(s, i, j, n))
  {
    SpliceIsOrdered(w, s, i, j, n);
    SpliceSeparatesHalves(w, s, i, j, n);
    NeighboursSuffice(w, Splice(s, i, j, n));
  }

  lemma SpliceIsOrdered(w: nat, s: seq<Net>, i: nat, j: nat, n: Net)
    requires i <= j <= |s| && AllValid(w, s) && ValidNet(w, n) && Fits(w, s, i, j, n)
    requires forall a, b :: 0 <= a < b < |s| ==> End(w, s[a]) <= s[b].address
    ensures var t := Splice(s, i, j, n);
      AllValid(w, t) && forall a, b :: 0 <= a < b < |t| ==> End(w, t[a]) <= t[b].address
  {
    var t := Splice(s, i, j, n);
    forall a, b | 0 <= a < b < |t| ensures End(w, t[a]) <= t[b].address {
      if a < i {
        assert End(w, s[a]) <= End(w, s[i - 1]) <= n.address;
      }
      if b > i && j < |s| {
        assert s[j].address <= t[b].address;
      }
    }
  }

  lemma SpliceSeparatesHalves(w: nat, s: seq<Net>, i: nat, j: nat, n: Net)
    requires i <= j <= |s| && Canonical(w, s) && ValidNet(w, n)
    requires i != 0 ==> !Siblings(w, s[i - 1], n)
    requires j < |s| ==> !Siblings(w, n, s[j])
    ensures var t := Splice(s, i, j, n); forall k :: 0 < k < |t| ==> !Halves(w, t[k - 1], t[k])
  {
    var t := Splice(s, i, j, n);
    if i != 0 { SiblingsAreHalves(w, s[i - 1], n); }
    if j < |s| { SiblingsAreHalves(w, n, s[j]); }
    forall k | 0 < k < |t| ensures !Halves(w, t[k - 1], t[k]) {
      if k < i {
        assert t[k - 1] == s[k - 1] && t[k] == s[k];
      } else if k == i {
        assert t[k - 1] == s[i - 1] && t[k] == n;
      } else if k == i + 1 {
        assert t[k - 1] == n && t[k] == s[j];
      } else {
        assert t[k - 1] == s[k - i - 2 + j] && t[k] == s[k - i - 1 + j];
      }
    }
  }

  lemma SpliceCovers(w: nat, s: seq<Net>, i: nat, j: nat, n: Net, added: Net)
    requires i <= j <= |s| && Accounts(w, s, i, j, n, added)
    ensures forall x :: Covered(w, Splice(s, i, j, n), x) <==> Covered(w, s, x) || Has(w, added, x)
  {
    CoveredConcat(w, s[..i] + [n], s[j..]);
    CoveredConcat(w, s[..i], [n]);
    CoveredOne(w, n);
  }

  class IpSet {
    const w: nat
    var nets: seq<Net>

    ghost predicate Valid()
      reads this
    {
      Canonical(w, nets)
    }

    constructor (w: nat)
      ensures this.w == w && Valid() && nets == []
    {
      this.w := w;
      nets := [];
    }

    /** Inserts the networks one by one. */
    constructor FromIterator(w: nat, xs: seq<Net>)
      requires AllValid(w, xs)
      ensures this.w == w && Valid() && SameAddresses(w, nets, xs)
    {
      this.w := w;
      nets := [];
      new;
      for k := 0 to |xs|
        invariant Valid()
        invariant SameAddresses(w, nets, xs[..k])
      {
        CoveredUnfoldLast(w, xs, k + 1);
        Insert(xs[k]);
      }
      assert xs[..|xs|] == xs;
    }

    /** Sorts the networks and compacts them in place: the first `i` entries are the
        canonical list of the first `j` networks read. */
    constructor FromVec(w: nat, xs: seq<Net>)
      requires AllValid(w, xs)
      ensures this.w == w && Valid() && SameAddresses(w, nets, xs)
    {
      this.w := w;
      nets := xs;
      new;
      hide SameAddresses, Sort, SortedLe, Canonical, AllValid;
      SameAsItself(w, xs);
      var len := |nets|;
      if len == 0 {
        return;
      }
      nets := Sort(nets);
      ghost var sorted := nets;
      SortKeepsNets(w, xs);
      FirstIsStack(w, sorted);
      var i := 1;
      for j := 1 to len
        invariant 1 <= i <= j <= |nets| == len
        invariant nets[j..] == sorted[j..]
        invariant Canonical(w, nets[..i]) && SameAddresses(w, nets[..i], sorted[..j])
        invariant LessEq(nets[i - 1], sorted[j - 1])
      {
        i := CompactOne(i, j, sorted);
      }
      assert sorted[..len] == sorted;
      SameAddressesTransitive(w, nets[..i], sorted, xs);
      nets := nets[..i];
    }

    /** Pushes entry `j` on the stack of the first `i0` entries and merges. */
    method CompactOne(i0: nat, j: nat, ghost sorted: seq<Net>) returns (i: nat)
      requires 1 <= i0 <= j < |nets| == |sorted| && AllValid(w, sorted) && SortedLe(sorted)
      requires nets[j..] == sorted[j..]
      requires Canonical(w, nets[..i0]) && SameAddresses(w, nets[..i0], sorted[..j])
      requires LessEq(nets[i0 - 1], sorted[j - 1])
      modifies this
      ensures 1 <= i <= j + 1 && |nets| == |sorted| && nets[j + 1..] == sorted[j + 1..]
      ensures Canonical(w, nets[..i]) && SameAddresses(w, nets[..i], sorted[..j + 1])
      ensures LessEq(nets[i - 1], sorted[j])
    {
      hide *;
      CompactStart(w, nets, sorted, i0, j);
      i := i0;
      var net := nets[j];
      if Nets.Contains(w, nets[i - 1], net) {
        TakeTwice(nets, i);
        net := nets[i - 1];
        i := i - 1;
      }
      ghost var done := sorted[..j + 1];
      i, net := MergeDown(i, net, done);
      UpdateSlices(nets, i, j, net);
      nets := nets[i := net];
      i := i + 1;
    }

    /** Merges `net` with the top of the stack while that is its sibling. */
    method MergeDown(i0: nat, net0: Net, ghost done: seq<Net>) returns (i: nat, net: Net)
      requires i0 <= |nets| && done != [] && Stack(w, nets[..i0], net0, done)
      ensures i <= i0 && ValidNet(w, net) && LessEq(net, done[|done| - 1])
      ensures Canonical(w, nets[..i] + [net]) && SameAddresses(w, nets[..i] + [net], done)
    {
      hide *;
      i, net := i0, net0;
      StackPrefixes(w, nets, i, net, done);
      while i != 0 && Siblings(w, nets[i - 1], net)
        invariant i <= i0 && Stack(w, nets[..i], net, done)
        invariant net.prefixLen <= w && (i != 0 ==> nets[i - 1].prefixLen <= w)
      {
        SiblingsHaveParents(w, nets[i - 1], net);
        TakeTwice(nets, i);
        StackMerge(w, nets[..i], net, done);
        net := Parent(nets[i - 1]);
        i := i - 1;
        StackPrefixes(w, nets, i, net, done);
      }
      if i != 0 {
        TakeTwice(nets, i);
      }
      StackPush(w, nets[..i], net, done);
    }

    method Contains(net: Net) returns (r: bool)
      requires Valid() && ValidNet(w, net)
      ensures r <==> WhollyCovered(w, nets, net)
    {
      ContainsNetIsExact(w, nets, net);
      r := ContainsNet(w, nets, net);
    }

    method Insert(added: Net)
      requires Valid() && ValidNet(w, added)
      modifies this
      ensures Valid()
      ensures forall x :: Covered(w, nets, x) <==> old(Covered(w, nets, x)) || Has(w, added, x)
    {
      CanonicalIsSorted(w, nets);
      match Search(nets, added, 0, |nets|) {
        case Found(v) =>
          assert Has(w, nets[v], added.address);
        case Missing(v) =>
          var i, j, net := Window(v, added);
          i, j, net := Grow(i, j, net, added);
          SpliceIsCanonical(w, nets, i, j, net);
          SpliceCovers(w, nets, i, j, net, added);
          nets := Splice(nets, i, j, net);
      }
    }

    /** The members `added` covers, or the single one that covers it. */
    method Window(v: nat, added: Net) returns (i: nat, j: nat, net: Net)
      requires Valid() && ValidNet(w, added) && v <= |nets|
      requires forall k :: 0 <= k < v ==> Less(nets[k], added)
      requires forall k :: v <= k < |nets| ==> Less(added, nets[k])
      ensures Replaces(w, nets, i, j, net, added)
    {
      hide Accounts;
      i, j, net := v, v, added;
      PlaceInserted(w, nets, i, added);
      if i != 0 && Nets.Contains(w, nets[i - 1], net) {
        net := nets[i - 1];
        i := i - 1;
      }
      while j < |nets| && Nets.Contains(w, net, nets[j])
        invariant InWindow(w, nets, i, j, net, added)
      {
        Absorb(w, nets, i, j, net, added);
        j := j + 1;
      }
      WindowFits(w, nets, i, j, net, added);
    }

    /** Merges with siblings on either side for as long as there are any. */
    method Grow(i0: nat, j0: nat, net0: Net, ghost added: Net) returns (i: nat, j: nat, net: Net)
      requires Valid() && Replaces(w, nets, i0, j0, net0, added)
      ensures Replaces(w, nets, i, j, net, added)
      ensures i != 0 ==> !Siblings(w, nets[i - 1], net)
      ensures j < |nets| ==> !Siblings(w, net, nets[j])
    {
      hide Accounts;
      i, j, net := i0, j0, net0;
      while true
        invariant Replaces(w, nets, i, j, net, added)
        decreases net.prefixLen
      {
        if j < |nets| && Siblings(w, net, nets[j]) {
          MergeRight(w, nets, i, j, net, added);
          j := j + 1;
        } else if i != 0 && Siblings(w, nets[i - 1], net) {
          MergeLeft(w, nets, i, j, net, added);
          net := nets[i - 1];
          i := i - 1;
        } else {
          break;
        }
        net := Parent(net);
      }
    }
  }

  /** Neither the order nor repetitions among the networks put in matter. */
  lemma {:induction false} NormalFormIgnoresOrder(w: nat, s: seq<Net>, t: seq<Net>, xs: seq<Net>, ys: seq<Net>)
    requires Canonical(w, s) && SameAddresses(w, s, xs)
    requires Canonical(w, t) && SameAddresses(w, t, ys)
    requires forall n :: n in xs <==> n in ys
    ensures s == t
  {
    forall x ensures Covered(w, xs, x) <==> Covered(w, ys, x) {
      if Covered(w, xs, x) {
        var i :| 0 <= i < |xs| && Has(w, xs[i], x);
        assert xs[i] in ys;
      }
      if Covered(w, ys, x) {
        var i :| 0 <= i < |ys| && Has(w, ys[i], x);
        assert ys[i] in xs;
      }
    }
    CanonicalFormIsUnique(w, s, t);
  }

  /** The configuration file gives a whole list, the command line one network at a
      time: from the same networks both build the same list. */
  method BuildBothWays(w: nat, file: seq<Net>, cmdline: seq<Net>) returns (a: IpSet, b: IpSet)
    requires AllValid(w, file) && AllValid(w, cmdline)
    requires forall n :: n in file <==> n in cmdline
    ensures a.nets == b.nets
  {
    a := new IpSet.FromVec(w, file);
    b := new IpSet.FromIterator(w, cmdline);
    NormalFormIgnoresOrder(w, a.nets, b.nets, file, cmdline);
  }

  // ----- the steps of `Insert` -----

  /** After the search: the new network, or the predecessor when it holds it. */
  lemma PlaceInserted(w: nat, s: seq<Net>, at: nat, n: Net)
    requires Canonical(w, s) && ValidNet(w, n) && at <= |s|
    requires forall k :: 0 <= k < at ==> Less(s[k], n)
    requires forall k :: at <= k < |s| ==> Less(n, s[k])
    ensures if at != 0 && Contains(w, s[at - 1], n) then InWindow(w, s, at - 1, at, s[at - 1], n)
            else InWindow(w, s, at, at, n, n)
  {
    assert s == s[..at] + s[at..];
    CoveredConcat(w, s[..at], s[at..]);
    if at != 0 {
      CoveredUnfoldLast(w, s, at);
      ContainsIsInclusion(w, s[at - 1], n);
      if n.prefixLen <= s[at - 1].prefixLen {
        NestedOrDisjoint(w, n, s[at - 1]);
      } else {
        NestedOrDisjoint(w, s[at - 1], n);
      }
    }
  }

  lemma Absorb(w: nat, s: seq<Net>, i: nat, j: nat, net: Net, added: Net)
    requires Canonical(w, s) && InWindow(w, s, i, j, net, added) && j < |s| && Contains(w, net, s[j])
    ensures InWindow(w, s, i, j + 1, net, added)
  {
    ContainsIsInclusion(w, net, s[j]);
    CoveredUnfoldFirst(w, s, j);
  }

  lemma WindowFits(w: nat, s: seq<Net>, i: nat, j: nat, net: Net, added: Net)
    requires Canonical(w, s) && InWindow(w, s, i, j, net, added)
    requires j < |s| ==> !Contains(w, net, s[j])
    ensures Replaces(w, s, i, j, net, added)
  {
    if j < |s| {
      ContainsIsInclusion(w, net, s[j]);
      if net.prefixLen <= s[j].prefixLen {
        NestedOrDisjoint(w, net, s[j]);
      } else {
        NestedOrDisjoint(w, s[j], net);
      }
    }
  }

  lemma MergeRight(w: nat, s: seq<Net>, i: nat, j: nat, net: Net, added: Net)
    requires Canonical(w, s) && Replaces(w, s, i, j, net, added)
    requires j < |s| && Siblings(w, net, s[j])
    ensures Replaces(w, s, i, j + 1, Parent(net), added)
  {
    SiblingsAreHalves(w, net, s[j]);
    HalvesCover(w, net, s[j]);
    HalvesMerge(w, net, s[j]);
    CoveredUnfoldFirst(w, s, j);
  }

  lemma MergeLeft(w: nat, s: seq<Net>, i: nat, j: nat, net: Net, added: Net)
    requires Canonical(w, s) && Replaces(w, s, i, j, net, added)
    requires i != 0 && Siblings(w, s[i - 1], net)
    ensures Replaces(w, s, i - 1, j, Parent(s[i - 1]), added)
  {
    SiblingsAreHalves(w, s[i - 1], net);
    HalvesCover(w, s[i - 1], net);
    HalvesMerge(w, s[i - 1], net);
    CoveredUnfoldLast(w, s, i);
  }

  // ----- sorting and compacting -----

  predicate LessEq(a: Net, b: Net) {
    a == b || Less(a, b)
  }

  lemma LessEqTransitive(a: Net, b: Net, c: Net)
    requires LessEq(a, b) && LessEq(b, c)
    ensures LessEq(a, c)
  {}

  lemma TakeTwice(s: seq<Net>, i: nat)
    requires 0 < i <= |s|
    ensures s[..i][..i - 1] == s[..i - 1] && s[..i][i - 1] == s[i - 1]
  {}

  lemma TailsAgree(s: seq<Net>, t: seq<Net>, j: nat)
    requires j < |s| == |t| && s[j..] == t[j..]
    ensures s[j] == t[j] && s[j + 1..] == t[j + 1..] && t[..j + 1] == t[..j] + [s[j]]
  {
    assert s[j..][0] == t[j..][0];
    assert s[j..][1..] == t[j..][1..];
  }

  lemma UpdateSlices(s: seq<Net>, i: nat, j: nat, n: Net)
    requires i <= j < |s|
    ensures s[i := n][..i + 1] == s[..i] + [n] && s[i := n][j + 1..] == s[j + 1..]
  {}

  ghost predicate SortedLe(s: seq<Net>) {
    forall i, j :: 0 <= i < j < |s| ==> LessEq(s[i], s[j])
  }

  function InsertSorted(s: seq<Net>, n: Net): (r: seq<Net>)
    ensures multiset(r) == multiset(s) + multiset{n}
  {
    if s == [] || LessEq(n, s[0]) then [n] + s
    else
      assert s == [s[0]] + s[1..];
      [s[0]] + InsertSorted(s[1..], n)
  }

  lemma {:induction false} InsertKeepsSorted(s: seq<Net>, n: Net)
    requires SortedLe(s)
    ensures InsertSorted(s, n) != [] && SortedLe(InsertSorted(s, n))
    ensures InsertSorted(s, n)[0] == n || (s != [] && InsertSorted(s, n)[0] == s[0])
  {
    if s != [] && !LessEq(n, s[0]) {
      InsertKeepsSorted(s[1..], n);
      SortedCons(s[0], InsertSorted(s[1..], n));
    } else if s != [] {
      SortedCons(n, s);
    }
  }

  lemma SortedCons(n: Net, s: seq<Net>)
    requires SortedLe(s) && s != [] && LessEq(n, s[0])
    ensures SortedLe([n] + s)
  {
    forall j | 0 <= j < |s| ensures LessEq(n, s[j]) {
      assert j > 0 ==> LessEq(s[0], s[j]);
    }
  }

  /** The sorted permutation of a list. */
  function Sort(s: seq<Net>): (r: seq<Net>)
    ensures multiset(r) == multiset(s)
    ensures SortedLe(r)
  {
    if s == [] then []
    else
      assert s == [s[0]] + s[1..];
      InsertKeepsSorted(Sort(s[1..]), s[0]);
      InsertSorted(Sort(s[1..]), s[0])
  }

  lemma SortKeepsNets(w: nat, s: seq<Net>)
    requires AllValid(w, s)
    ensures |Sort(s)| == |s| && SortedLe(Sort(s)) && AllValid(w, Sort(s)) && SameAddresses(w, Sort(s), s)
  {
    PermutationKeepsAddresses(w, s, Sort(s));
    assert forall n :: n in s ==> ValidNet(w, n);
    forall i | 0 <= i < |Sort(s)| ensures ValidNet(w, Sort(s)[i]) {
      assert Sort(s)[i] in multiset(s);
    }
  }

  lemma PermutationKeepsAddresses(w: nat, s: seq<Net>, t: seq<Net>)
    requires multiset(s) == multiset(t)
    ensures |s| == |t| && SameAddresses(w, s, t)
  {
    assert |multiset(s)| == |multiset(t)|;
    forall x ensures Covered(w, s, x) <==> Covered(w, t, x) {
      if Covered(w, s, x) {
        var i :| 0 <= i < |s| && Has(w, s[i], x);
        assert s[i] in multiset(t);
      }
      if Covered(w, t, x) {
        var i :| 0 <= i < |t| && Has(w, t[i], x);
        assert t[i] in multiset(s);
      }
    }
  }

  lemma SameAsItself(w: nat, s: seq<Net>)
    ensures SameAddresses(w, s, s)
    ensures |s| == 0 ==> Canonical(w, s)
  {}

  lemma SameAddressesTransitive(w: nat, s: seq<Net>, t: seq<Net>, u: seq<Net>)
    requires SameAddresses(w, s, t) && SameAddresses(w, t, u)
    ensures SameAddresses(w, s, u)
  {}

  lemma FirstIsStack(w: nat, s: seq<Net>)
    requires AllValid(w, s) && s != []
    ensures Canonical(w, s[..1]) && SameAddresses(w, s[..1], s[..1]) && LessEq(s[0], s[0])
  {}

  /** The canonical list `s` and, right of it, `net` together hold the addresses of the
      networks read so far, and `net` does not sort after the last of those. */
  ghost predicate Stack(w: nat, s: seq<Net>, net: Net, done: seq<Net>) {
    && Canonical(w, s) && ValidNet(w, net)
    && done != [] && LessEq(net, done[|done| - 1])
    && (s != [] ==> End(w, s[|s| - 1]) <= net.address)
    && Together(w, s, net, done)
  }

  ghost predicate Together(w: nat, s: seq<Net>, net: Net, done: seq<Net>) {
    forall x :: Covered(w, s, x) || Has(w, net, x) <==> Covered(w, done, x)
  }

  lemma DropLast(w: nat, s: seq<Net>)
    requires Canonical(w, s) && s != []
    ensures Canonical(w, s[..|s| - 1])
    ensures |s| > 1 ==> End(w, s[|s| - 2]) <= s[|s| - 1].address
    ensures forall x :: Covered(w, s, x) <==> Covered(w, s[..|s| - 1], x) || Has(w, s[|s| - 1], x)
  {
    CoveredUnfoldLast(w, s, |s|);
    assert s[..|s|] == s;
  }

  /** A network that sorts after the top of the stack lies inside the top or right of
      the whole stack; it cannot contain any of it. */
  lemma StackStart(w: nat, s: seq<Net>, n: Net, done: seq<Net>)
    requires Canonical(w, s) && s != [] && SameAddresses(w, s, done)
    requires ValidNet(w, n) && LessEq(s[|s| - 1], n)
    ensures if Contains(w, s[|s| - 1], n) then Stack(w, s[..|s| - 1], s[|s| - 1], done + [n])
            else Stack(w, s, n, done + [n])
  {
    var top := s[|s| - 1];
    ContainsIsInclusion(w, top, n);
    CoveredConcat(w, done, [n]);
    CoveredOne(w, n);
    DropLast(w, s);
    if top.prefixLen <= n.prefixLen {
      NestedOrDisjoint(w, top, n);
    } else {
      NestedOrDisjoint(w, n, top);
    }
  }

  lemma StackMerge(w: nat, s: seq<Net>, net: Net, done: seq<Net>)
    requires Stack(w, s, net, done) && s != [] && Siblings(w, s[|s| - 1], net)
    ensures Stack(w, s[..|s| - 1], Parent(s[|s| - 1]), done)
  {
    var top := s[|s| - 1];
    SiblingsAreHalves(w, top, net);
    HalvesMerge(w, top, net);
    HalvesCover(w, top, net);
    DropLast(w, s);
  }

  lemma StackPrefixes(w: nat, nets: seq<Net>, i: nat, net: Net, done: seq<Net>)
    requires i <= |nets| && Stack(w, nets[..i], net, done)
    ensures net.prefixLen <= w && (i != 0 ==> nets[i - 1].prefixLen <= w)
  {
    assert i != 0 ==> nets[..i][i - 1] == nets[i - 1];
  }

  lemma SiblingsHaveParents(w: nat, a: Net, b: Net)
    requires a.prefixLen <= w && b.prefixLen <= w && Siblings(w, a, b)
    ensures a.prefixLen > 0
  {}

  /** Entry `j` is read: it is kept back if the top holds it, and stacked otherwise. */
  lemma CompactStart(w: nat, nets: seq<Net>, sorted: seq<Net>, i: nat, j: nat)
    requires 1 <= i <= j < |nets| == |sorted| && AllValid(w, sorted) && SortedLe(sorted)
    requires nets[j..] == sorted[j..]
    requires Canonical(w, nets[..i]) && SameAddresses(w, nets[..i], sorted[..j])
    requires LessEq(nets[i - 1], sorted[j - 1])
    ensures nets[j + 1..] == sorted[j + 1..] && sorted[..j + 1] != [] && sorted[..j + 1][j] == sorted[j]
    ensures nets[i - 1].prefixLen <= w && nets[j].prefixLen <= w
    ensures if Contains(w, nets[i - 1], nets[j]) then Stack(w, nets[..i - 1], nets[i - 1], sorted[..j + 1])
            else Stack(w, nets[..i], nets[j], sorted[..j + 1])
  {
    hide SameAddresses, Stack;
    TailsAgree(nets, sorted, j);
    LessEqTransitive(nets[i - 1], sorted[j - 1], nets[j]);
    TakeTwice(nets, i);
    StackStart(w, nets[..i], nets[j], sorted[..j]);
  }

  lemma StackPush(w: nat, s: seq<Net>, net: Net, done: seq<Net>)
    requires Stack(w, s, net, done)
    requires s != [] ==> !Siblings(w, s[|s| - 1], net)
    ensures Canonical(w, s + [net]) && SameAddresses(w, s + [net], done)
    ensures ValidNet(w, net) && LessEq(net, done[|done| - 1])
  {
    SpliceIsCanonical(w, s, |s|, |s|, net);
    assert Splice(s, |s|, |s|, net) == s + [net];
    CoveredConcat(w, s, [net]);
    CoveredOne(w, net);
  }
}

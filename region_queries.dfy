/** Queries over the hierarchy tables: the regions present in a volume
    (`find_unique_regions`), the leaf ids below each region and the depth of
    each region above its leaves (`find_children`), and the voxel mask of a
    region and its subtree (`filter_region`). Volumes are flattened to one
    sequence of labels; the tables are passed in as values. */
module RegionQueries {
  import opened Outcomes
  import opened Text
  import opened NpUnique
  import opened Hierarchy

  /** `np.unique(annotation)[1:]`: the distinct labels, ascending, without
      the smallest one (the background label of a volume). */
  function Labels(annotation: seq<int>): (r: seq<int>)
    ensures Ascending(r)
    ensures forall y :: y in r ==> y in annotation
  {
    var u := Unique(annotation);
    if u == [] then [] else u[1..]
  }

  /** A label is kept exactly when it occurs and a smaller label occurs too. */
  lemma LabelsMeaning(annotation: seq<int>, y: int)
    ensures y in Labels(annotation) <==> y in annotation && exists z :: z in annotation && z < y
  {
    var u := Unique(annotation);
    if y in Labels(annotation) {
      var j :| 0 <= j < |u[1..]| && u[1..][j] == y;
      assert u[0] in u && u[0] < u[j + 1];
    }
    if y in annotation && exists z :: z in annotation && z < y {
      var z :| z in annotation && z < y;
      assert y in u && z in u;
      var j :| 0 <= j < |u| && u[j] == y;
      var i :| 0 <= i < |u| && u[i] == z;
      assert i < j;
      assert u[1..][j - 1] == y;
    }
  }

  lemma AscendingNoDup(s: seq<int>)
    requires Ascending(s)
    ensures NoDup(s)
  {
  }

  // ---------------------------------------------------------------------
  // find_unique_regions (lines 23-64)

  /** Every path's id names that path again. */
  ghost predicate Consistent(l: Links) {
    forall p :: p in l.allnameToId ==>
      l.allnameToId[p] in l.idToAllname && l.idToAllname[l.allnameToId[p]] == p
  }

  /** The parent region of id `x` is listed in `u`, unless that parent is
      `stop` or the root's parent "". */
  ghost predicate ParentKept(l: Links, stop: string, u: seq<int>, x: int) {
    && x in l.idToAllname && l.idToAllname[x] in l.allnameToParent
    && var q := l.allnameToParent[l.idToAllname[x]];
       q == stop || q == "" || (q in l.allnameToId && l.allnameToId[q] in u)
  }

  lemma KeptGrow(l: Links, stop: string, u: seq<int>, y: int)
    ensures forall x :: ParentKept(l, stop, u, x) ==> ParentKept(l, stop, u + [y], x)
  {
    forall x | ParentKept(l, stop, u, x) ensures ParentKept(l, stop, u + [y], x) {
      var q := l.allnameToParent[l.idToAllname[x]];
      if q != stop && q != "" {
        assert l.allnameToId[q] in u;
      }
    }
  }

  /** The ids of the path table not yet listed in `u`. */
  ghost function Unlisted(l: Links, u: seq<int>): set<int> {
    l.allnameToId.Values - (set x | x in u)
  }

  lemma UnlistedShrinks(l: Links, u: seq<int>, y: int)
    requires y in l.allnameToId.Values && y !in u
    ensures |Unlisted(l, u + [y])| < |Unlisted(l, u)|
  {
    assert Unlisted(l, u + [y]) + {y} == Unlisted(l, u);
  }

  lemma AppendNoDupInt(s: seq<int>, x: int)
    requires NoDup(s) && x !in s
    ensures NoDup(s + [x])
  {
    var t := s + [x];
    forall i, j | 0 <= i < j < |t| ensures t[i] != t[j] {
      if j == |s| { assert t[i] == s[i]; } else { assert t[i] == s[i] && t[j] == s[j]; }
    }
  }

  /** Every id of `u` but the last has its parent listed; the last one's
      parent path is `q`, still to be looked at. */
  ghost predicate Pending(l: Links, stop: string, u: seq<int>, q: string) {
    && |u| > 0
    && (forall i :: 0 <= i < |u| - 1 ==> ParentKept(l, stop, u, u[i]))
    && u[|u| - 1] in l.idToAllname && l.idToAllname[u[|u| - 1]] in l.allnameToParent
    && l.allnameToParent[l.idToAllname[u[|u| - 1]]] == q
  }

  /** Listing the id of the pending parent path moves the pending mark up. */
  lemma PendingStep(l: Links, stop: string, u: seq<int>, q: string)
    requires Consistent(l) && Pending(l, stop, u, q)
    requires q in l.allnameToId && q in l.allnameToParent
    ensures Pending(l, stop, u + [l.allnameToId[q]], l.allnameToParent[q])
  {
    var y := l.allnameToId[q];
    KeptGrow(l, stop, u, y);
    var u' := u + [y];
    assert ParentKept(l, stop, u', u[|u| - 1]);
    forall i | 0 <= i < |u'| - 1 ensures ParentKept(l, stop, u', u'[i]) {
      if i < |u| - 1 { assert u'[i] == u[i]; }
    }
  }

  /** Once the pending parent is listed, is `stop` or is "", every id has
      its parent listed. */
  lemma PendingDone(l: Links, stop: string, u: seq<int>, q: string)
    requires Pending(l, stop, u, q)
    requires q == stop || q == "" || (q in l.allnameToId && l.allnameToId[q] in u)
    ensures forall x :: x in u ==> ParentKept(l, stop, u, x)
  {
    assert ParentKept(l, stop, u, u[|u| - 1]);
  }

  /** `ps` climbs the parent links from path `a`: it starts at `a` and every
      path but the last is followed by its parent. */
  ghost predicate Climbs(l: Links, a: string, ps: seq<string>) {
    && |ps| > 0 && ps[0] == a
    && forall i :: 0 <= i < |ps| - 1 ==> ps[i] in l.allnameToParent && l.allnameToParent[ps[i]] == ps[i + 1]
  }

  /** `x` is the id of a proper ancestor of path `a` that the upward walk
      from `a` meets before it reaches `root`. */
  ghost predicate AncestorBelow(l: Links, root: string, a: string, x: int) {
    exists ps :: && Climbs(l, a, ps) && |ps| >= 2 && (forall i :: 1 <= i < |ps| ==> ps[i] != root)
                 && ps[|ps| - 1] in l.allnameToId && l.allnameToId[ps[|ps| - 1]] == x
  }

  /** Every id `u` holds beyond `uniques` is an ancestor of `a` below `root`. */
  ghost predicate AncestorsListed(l: Links, root: string, a: string, uniques: seq<int>, u: seq<int>) {
    forall j :: |uniques| <= j < |u| ==> AncestorBelow(l, root, a, u[j])
  }

  /** The walk from `a` has climbed `ps`, now stands at `q` and has not met
      `root` before `q`. */
  ghost predicate Rising(l: Links, root: string, a: string, ps: seq<string>, q: string) {
    && Climbs(l, a, ps) && |ps| >= 2 && ps[|ps| - 1] == q
    && forall i :: 1 <= i < |ps| - 1 ==> ps[i] != root
  }

  /** Listing the id of `q`, which is not `root`, lists an ancestor of `a`,
      and the walk climbs on to the parent of `q`. */
  lemma AncestorStep(l: Links, root: string, a: string, uniques: seq<int>, u: seq<int>, ps: seq<string>, q: string)
    requires Rising(l, root, a, ps, q) && q != root && q in l.allnameToId && q in l.allnameToParent
    requires AncestorsListed(l, root, a, uniques, u)
    ensures AncestorsListed(l, root, a, uniques, u + [l.allnameToId[q]])
    ensures Rising(l, root, a, ps + [l.allnameToParent[q]], l.allnameToParent[q])
  {
    assert AncestorBelow(l, root, a, l.allnameToId[q]) by {
      assert Climbs(l, a, ps) && |ps| >= 2 && (forall i :: 1 <= i < |ps| ==> ps[i] != root);
    }
    var u' := u + [l.allnameToId[q]];
    forall j | |uniques| <= j < |u'| ensures AncestorBelow(l, root, a, u'[j]) {
      if j < |u| { assert u'[j] == u[j]; }
    }
  }

  /** Lines 55-62: starting from the path of the id just listed (the last of
      `uniques`), list the ids of its ancestors until one is listed already,
      the ancestor is `root`, or the root's parent "" is reached. Every id
      listed on the way is an ancestor below `root` and has its parent listed,
      except where the walk stops. */
  method AddAncestors(l: Links, root: string, uniques: seq<int>, allname: string) returns (r: Result<seq<int>>)
    requires NoDup(uniques) && |uniques| > 0
    requires uniques[|uniques| - 1] in l.idToAllname && l.idToAllname[uniques[|uniques| - 1]] == allname
    ensures r.Err? ==> r.error == KeyError
    ensures r.Ok? ==> NoDup(r.value) && uniques <= r.value
    ensures r.Ok? ==> AncestorsListed(l, root, allname, uniques, r.value)
    ensures r.Ok? && Consistent(l) && (forall i :: 0 <= i < |uniques| - 1 ==> ParentKept(l, root, uniques, uniques[i]))
            ==> forall x :: x in r.value ==> ParentKept(l, root, r.value, x)
  {
    if allname !in l.allnameToParent { return Err(KeyError); }
    var parentAllname := l.allnameToParent[allname];
    if parentAllname !in l.allnameToId { return Err(KeyError); }
    var idParent := l.allnameToId[parentAllname];
    ghost var closed := Consistent(l) && (forall i :: 0 <= i < |uniques| - 1 ==> ParentKept(l, root, uniques, uniques[i]));
    var u := uniques;
    ghost var ps := [allname, parentAllname];
    while idParent !in u && parentAllname != root
      invariant NoDup(u) && uniques <= u
      invariant parentAllname in l.allnameToId && idParent == l.allnameToId[parentAllname]
      invariant Rising(l, root, allname, ps, parentAllname) && AncestorsListed(l, root, allname, uniques, u)
      invariant closed ==> Pending(l, root, u, parentAllname)
      decreases |Unlisted(l, u)|
    {
      UnlistedShrinks(l, u, idParent);
      AppendNoDupInt(u, idParent);
      if parentAllname !in l.allnameToParent { return Err(KeyError); }
      if closed { PendingStep(l, root, u, parentAllname); }
      AncestorStep(l, root, allname, uniques, u, ps, parentAllname);
      u := u + [idParent];
      parentAllname := l.allnameToParent[parentAllname];
      ps := ps + [parentAllname];
      if parentAllname == "" {
        if closed { PendingDone(l, root, u, parentAllname); }
        return Ok(u);
      }
      if parentAllname !in l.allnameToId { return Err(KeyError); }
      idParent := l.allnameToId[parentAllname];
    }
    if closed { PendingDone(l, root, u, parentAllname); }
    return Ok(u);
  }

  /** `v` is a label of `labels` whose path contains `top`. */
  ghost predicate Kept(l: Links, labels: seq<int>, top: string, v: int) {
    v in labels && v in l.idToAllname && Contains(l.idToAllname[v], top)
  }

  /** Every id of `u` is a kept label, or the id of an ancestor of a kept
      label met before the walk reaches `root`. */
  ghost predicate Sourced(l: Links, labels: seq<int>, top: string, root: string, u: seq<int>) {
    forall x :: x in u ==>
      Kept(l, labels, top, x) || exists v :: Kept(l, labels, top, v) && AncestorBelow(l, root, l.idToAllname[v], x)
  }

  /** Every id of `u` has its parent listed, up to `stop`. */
  ghost predicate Closed(l: Links, stop: string, u: seq<int>) {
    forall x :: x in u ==> ParentKept(l, stop, u, x)
  }

  /** Lines 53-62 for one label: a label whose path contains `top` and is not
      listed yet is listed with its ancestors. */
  method KeepLabel(l: Links, root: string, top: string, labels: seq<int>, uniques: seq<int>, uniq: int)
    returns (r: Result<seq<int>>)
    requires uniq in labels && uniq in l.idToAllname
    requires NoDup(uniques) && Sourced(l, labels, top, root, uniques)
    ensures r.Err? ==> r.error == KeyError
    ensures r.Ok? ==> NoDup(r.value) && Sourced(l, labels, top, root, r.value)
    ensures r.Ok? ==> (forall x :: x in uniques ==> x in r.value)
                      && (Contains(l.idToAllname[uniq], top) ==> uniq in r.value)
    ensures r.Ok? && Consistent(l) && Closed(l, root, uniques) ==> Closed(l, root, r.value)
  {
    var allname := l.idToAllname[uniq];
    if Find(allname, top) < 0 || uniq in uniques {
      return Ok(uniques);
    }
    AppendNoDupInt(uniques, uniq);
    var listed := uniques + [uniq];
    r := AddAncestors(l, root, listed, allname);
    if r.Err? { return; }
    if Consistent(l) && Closed(l, root, uniques) {
      KeptGrow(l, root, uniques, uniq);
      assert forall i :: 0 <= i < |listed| - 1 ==> listed[i] in uniques;
    }
    assert Kept(l, labels, top, uniq);
    forall x | x in r.value
      ensures Kept(l, labels, top, x) || exists v :: Kept(l, labels, top, v) && AncestorBelow(l, root, l.idToAllname[v], x)
    {
      var i :| 0 <= i < |r.value| && r.value[i] == x;
      if i < |listed| {
        assert x == listed[i];
      } else {
        assert AncestorBelow(l, root, l.idToAllname[uniq], x);
      }
    }
    forall x | x in listed ensures x in r.value {
      var i :| 0 <= i < |listed| && listed[i] == x;
      assert r.value[i] == x;
    }
  }

  /** The converse of `Sourced`: a closed list holds, with every id, the ids
      of all its ancestors met before `root` or the root's parent "". */
  lemma {:induction false} ClosedHasAncestors(l: Links, root: string, u: seq<int>, v: int, ps: seq<string>)
    requires Consistent(l) && Closed(l, root, u) && v in u && v in l.idToAllname
    requires Climbs(l, l.idToAllname[v], ps) && forall i :: 1 <= i < |ps| ==> ps[i] != root && ps[i] != ""
    ensures forall i :: 1 <= i < |ps| ==> ps[i] in l.allnameToId && l.allnameToId[ps[i]] in u
    decreases |ps|
  {
    if |ps| >= 2 {
      var ps' := ps[..|ps| - 1];
      ClosedHasAncestors(l, root, u, v, ps');
      var k := |ps| - 2;
      var y := if k == 0 then v else l.allnameToId[ps[k]];
      assert y in u && l.idToAllname[y] == ps[k];
      assert ParentKept(l, root, u, y);
      forall i | 1 <= i < |ps| ensures ps[i] in l.allnameToId && l.allnameToId[ps[i]] in u {
        if i < |ps| - 1 { assert ps[i] == ps'[i]; }
      }
    }
  }

  /** The first `n` labels have paths, and those whose path contains `top`
      are listed in `u`. */
  ghost predicate KeptUpTo(l: Links, labels: seq<int>, top: string, n: int, u: seq<int>)
    requires n <= |labels|
  {
    forall m :: 0 <= m < n ==>
      labels[m] in l.idToAllname && (Contains(l.idToAllname[labels[m]], top) ==> labels[m] in u)
  }

  /** `find_unique_regions`: the ids of the labels of the volume (all but the
      smallest) whose path contains `top`, with the ids of their ancestors up
      to the parent of the top region's path. */
  method FindUniqueRegions(annotation: seq<int>, l: Links, nameToAllname: map<string, string>, top: string)
    returns (r: Result<seq<int>>)
    ensures r.Err? ==> r.error == KeyError
    ensures top !in nameToAllname || nameToAllname[top] !in l.allnameToParent ==> r == Err(KeyError)
    ensures r.Ok? ==> NoDup(r.value)
    ensures r.Ok? ==> forall u :: u in Labels(annotation) ==> u in l.idToAllname
    ensures r.Ok? ==> forall u :: (u in Labels(annotation) && u in l.idToAllname && Contains(l.idToAllname[u], top))
                                   ==> u in r.value
    ensures r.Ok? ==> Sourced(l, Labels(annotation), top, l.allnameToParent[nameToAllname[top]], r.value)
    ensures r.Ok? && Consistent(l) ==> Closed(l, l.allnameToParent[nameToAllname[top]], r.value)
  {
    if top !in nameToAllname || nameToAllname[top] !in l.allnameToParent { return Err(KeyError); }
    var root := l.allnameToParent[nameToAllname[top]];
    var labels := Labels(annotation);
    var uniques: seq<int> := [];
    var n := 0;
    while n < |labels|
      invariant n <= |labels|
      invariant NoDup(uniques) && Sourced(l, labels, top, root, uniques)
      invariant KeptUpTo(l, labels, top, n, uniques)
      invariant Consistent(l) ==> Closed(l, root, uniques)
    {
      var uniq := labels[n];
      if uniq !in l.idToAllname { return Err(KeyError); }
      var kept := KeepLabel(l, root, top, labels, uniques, uniq);
      if kept.Err? { return kept; }
      uniques := kept.value;
      n := n + 1;
    }
    assert forall u :: u in labels ==> exists m :: 0 <= m < n && labels[m] == u;
    return Ok(uniques);
  }

  // ---------------------------------------------------------------------
  // find_children (lines 67-112)

  /** Every parent link goes to a strict prefix of the path, as the walk
      of the ontology builds them; it makes the upward walks end. */
  ghost predicate PrefixParents(l: Links) {
    forall p :: p in l.allnameToParent ==> ParentOf(l.allnameToParent[p], p)
  }

  /** The proper ancestors of path `p`, from its parent upwards, stopping
      before "" or after the first path that has no parent entry. */
  ghost function Chain(l: Links, p: string): (c: seq<string>)
    requires PrefixParents(l)
    ensures "" !in c
    decreases |p|
  {
    if p !in l.allnameToParent then []
    else
      var q := l.allnameToParent[p];
      if q == "" then [] else [q] + Chain(l, q)
  }

  /** The chain above an ancestor is the rest of the chain. */
  lemma {:induction false} ChainSuffix(l: Links, p: string)
    requires PrefixParents(l)
    ensures var c := Chain(l, p); forall m :: 0 <= m < |c| ==> Chain(l, c[m]) == c[m + 1..]
    decreases |p|
  {
    var c := Chain(l, p);
    if c != [] {
      var q := l.allnameToParent[p];
      ChainSuffix(l, q);
      forall m | 0 <= m < |c| ensures Chain(l, c[m]) == c[m + 1..] {
        if m > 0 {
          assert c[m] == Chain(l, q)[m - 1];
          assert c[m + 1..] == Chain(l, q)[m..];
        }
      }
    }
  }

  /** The parent of a path of the chain is the next path of the chain, or "" after the last. */
  lemma ChainNext(l: Links, p: string, i: int)
    requires PrefixParents(l) && 0 <= i < |Chain(l, p)| && Chain(l, p)[i] in l.allnameToParent
    ensures var c := Chain(l, p); l.allnameToParent[c[i]] == if i + 1 < |c| then c[i + 1] else ""
  {
    var c := Chain(l, p);
    ChainSuffix(l, p);
    assert Chain(l, c[i]) == c[i + 1..];
  }

  /** `k` is an id whose path is flagged as a leaf. */
  ghost predicate IsLeafId(l: Links, k: int) {
    k in l.idToAllname && l.idToAllname[k] in l.isLeaf && l.isLeaf[l.idToAllname[k]]
  }

  /** The `i`-th ancestor of leaf `k` (counting its parent as 0) has id `x`. */
  ghost predicate Reaches(l: Links, k: int, i: int, x: int)
    requires PrefixParents(l)
  {
    && IsLeafId(l, k)
    && var c := Chain(l, l.idToAllname[k]);
       0 <= i < |c| && c[i] in l.allnameToId && l.allnameToId[c[i]] == x
  }

  /** Every lookup the upward walk from a leaf of `order` performs succeeds,
      and no id met on the way occurs twice in `uniques`. */
  ghost predicate Complete(l: Links, uniques: seq<int>)
    requires PrefixParents(l)
  {
    && NoDup(uniques)
    && forall k :: k in l.idOrder ==>
         && k in l.idToAllname && l.idToAllname[k] in l.isLeaf
         && (l.isLeaf[l.idToAllname[k]] ==>
               l.idToAllname[k] in l.allnameToParent && ChainDefined(l, l.idToAllname[k]))
  }

  ghost predicate ChainDefined(l: Links, p: string)
    requires PrefixParents(l)
  {
    forall a :: a in Chain(l, p) ==> a in l.allnameToId && a in l.allnameToParent
  }

  /** Leaf `k` is listed under each of its ancestors, and the id of each
      ancestor that is in `uniques` under each ancestor above it. */
  ghost predicate LeafListed(l: Links, uniques: seq<int>, children: map<string, seq<int>>, k: int)
    requires PrefixParents(l)
  {
    IsLeafId(l, k) ==>
      var c := Chain(l, l.idToAllname[k]);
      && (forall i :: 0 <= i < |c| ==> c[i] in children && k in children[c[i]] && c[i] in l.allnameToId)
      && (forall i, j :: 0 <= i < j < |c| && c[i] in l.allnameToId && l.allnameToId[c[i]] in uniques ==>
            c[j] in children && l.allnameToId[c[i]] in children[c[j]])
  }

  /** Only those ids are listed: a leaf of `order` under one of its
      ancestors, or an id of `uniques` under a region above a path with
      that id. No list is empty. */
  ghost predicate ListedSound(l: Links, uniques: seq<int>, children: map<string, seq<int>>)
    requires PrefixParents(l)
  {
    forall q :: q in children ==>
      children[q] != [] && forall x :: x in children[q] ==> Justified(l, uniques, x, q)
  }

  /** Id `x` may be listed under region `q`. */
  ghost predicate Justified(l: Links, uniques: seq<int>, x: int, q: string)
    requires PrefixParents(l)
  {
    || (x in l.idOrder && IsLeafId(l, x) && q in Chain(l, l.idToAllname[x]))
    || (x in uniques && exists a :: a in l.allnameToId && l.allnameToId[a] == x && q in Chain(l, a))
  }

  /** The lists of the result of `find_children`: sorted without repeats,
      complete for every leaf of the id order, and sound. */
  ghost predicate ChildLists(l: Links, uniques: seq<int>, children: map<string, seq<int>>)
    requires PrefixParents(l)
  {
    && (forall q :: q in children ==> Ascending(children[q]))
    && (forall k :: k in l.idOrder ==> LeafListed(l, uniques, children, k))
    && ListedSound(l, uniques, children)
  }

  /** Depth bounds from leaf `k`: an id of `uniques` met `i + 1` steps above
      the leaf has depth at least `i + 1`. */
  ghost predicate DepthBound(l: Links, uniques: seq<int>, order: seq<int>, k: int)
    requires PrefixParents(l) && |order| == |uniques|
  {
    forall i, m :: 0 <= m < |uniques| && Reaches(l, k, i, uniques[m]) ==> order[m] >= i + 1
  }

  /** Every nonzero depth is the number of steps from some leaf of `ks`. */
  ghost predicate Attained(l: Links, uniques: seq<int>, order: seq<int>, ks: seq<int>)
    requires PrefixParents(l) && |order| == |uniques|
  {
    forall m :: 0 <= m < |order| ==>
      order[m] == 0 || exists t, i :: 0 <= t < |ks| && Reaches(l, ks[t], i, uniques[m]) && order[m] == i + 1
  }

  /** The depths of the result of `find_children`: one per id of `uniques`,
      each the largest number of steps from a leaf of the id order up to
      it, or 0. */
  ghost predicate Depths(l: Links, uniques: seq<int>, order: seq<int>)
    requires PrefixParents(l)
  {
    && |order| == |uniques|
    && (forall m :: 0 <= m < |order| ==> order[m] >= 0)
    && (forall k :: k in l.idOrder ==> DepthBound(l, uniques, order, k))
    && Attained(l, uniques, order, l.idOrder)
  }

  /** `np.where(s == x)`: the positions holding `x`, ascending. */
  function Places(s: seq<int>, x: int): (r: seq<int>)
    ensures forall i :: i in r <==> 0 <= i < |s| && s[i] == x
    ensures |r| >= 2 ==> !NoDup(s)
  {
    if s == [] then []
    else
      var front := s[..|s| - 1];
      var r := Places(front, x);
      assert !NoDup(front) ==> !NoDup(s) by {
        if !NoDup(front) {
          var i, j :| 0 <= i < j < |front| && front[i] == front[j];
          assert s[i] == s[j];
        }
      }
      if s[|s| - 1] == x then
        assert forall i :: i in r ==> i < |s| - 1 && s[i] == x;
        assert r != [] ==> !NoDup(s) by {
          if r != [] { assert r[0] in r; assert s[r[0]] == s[|s| - 1]; }
        }
        r + [|s| - 1]
      else r
  }

  /** Every list of `c` keeps what it held in `c0`. */
  ghost predicate Grows(c0: map<string, seq<int>>, c: map<string, seq<int>>) {
    forall q :: q in c0 ==> q in c && forall x :: x in c0[q] ==> x in c[q]
  }

  lemma AttainedGrows(l: Links, uniques: seq<int>, order: seq<int>, ks: seq<int>, k: int)
    requires PrefixParents(l) && |order| == |uniques|
    requires Attained(l, uniques, order, ks)
    ensures Attained(l, uniques, order, ks + [k])
  {
    forall m | 0 <= m < |order| && order[m] != 0
      ensures exists t, i :: 0 <= t < |ks + [k]| && Reaches(l, (ks + [k])[t], i, uniques[m]) && order[m] == i + 1
    {
      var t, i :| 0 <= t < |ks| && Reaches(l, ks[t], i, uniques[m]) && order[m] == i + 1;
      assert (ks + [k])[t] == ks[t];
    }
  }

  /** Appending justified ids to the list of `q` keeps the lists sound. */
  lemma SoundAppend(l: Links, uniques: seq<int>, acc: map<string, seq<int>>, q: string, ids: seq<int>)
    requires PrefixParents(l) && ListedSound(l, uniques, acc)
    requires ids != [] && forall x :: x in ids ==> Justified(l, uniques, x, q)
    ensures var old_ := if q in acc then acc[q] else [];
            ListedSound(l, uniques, acc[q := old_ + ids]) && Grows(acc, acc[q := old_ + ids])
  {
    var old_ := if q in acc then acc[q] else [];
    var acc' := acc[q := old_ + ids];
    forall q' | q' in acc' ensures acc'[q'] != [] && forall x :: x in acc'[q'] ==> Justified(l, uniques, x, q') {
      if q' == q {
        assert ids[0] in acc'[q];
        forall x | x in acc'[q'] ensures Justified(l, uniques, x, q') {
          if x !in ids { assert x in old_; }
        }
      }
    }
  }

  lemma LeafListedGrows(l: Links, uniques: seq<int>, c0: map<string, seq<int>>, c: map<string, seq<int>>, k: int)
    requires PrefixParents(l) && Grows(c0, c) && LeafListed(l, uniques, c0, k)
    ensures LeafListed(l, uniques, c, k)
  {
    if IsLeafId(l, k) {
      var ch := Chain(l, l.idToAllname[k]);
      forall i, j | 0 <= i < j < |ch| && ch[i] in l.allnameToId && l.allnameToId[ch[i]] in uniques
        ensures ch[j] in c && l.allnameToId[ch[i]] in c[ch[j]]
      {
        assert ch[j] in c0 && l.allnameToId[ch[i]] in c0[ch[j]];
        assert forall x :: x in c0[ch[j]] ==> x in c[ch[j]];
      }
    }
  }

  lemma GrowsTrans(c0: map<string, seq<int>>, c1: map<string, seq<int>>, c2: map<string, seq<int>>)
    requires Grows(c0, c1) && Grows(c1, c2)
    ensures Grows(c0, c2)
  {
  }

  /** The ids carried up from leaf `k` after `inc` steps along its chain
      `c`: the leaf itself and the ids of `uniques` of the ancestors passed. */
  ghost predicate Carried(l: Links, uniques: seq<int>, k: int, c: seq<string>, inc: int, ids: seq<int>)
    requires 0 <= inc <= |c|
  {
    && |ids| > 0 && ids[0] == k
    && (forall y :: y in ids ==>
          y == k || (y in uniques && exists m :: 0 <= m < inc && c[m] in l.allnameToId && l.allnameToId[c[m]] == y))
    && (forall m :: 0 <= m < inc && c[m] in l.allnameToId && l.allnameToId[c[m]] in uniques ==>
          l.allnameToId[c[m]] in ids)
  }

  /** After `inc` steps from leaf `k`: the leaf is listed under each ancestor
      passed, and so is each id of `uniques` passed below it. */
  ghost predicate ListedSoFar(l: Links, uniques: seq<int>, acc: map<string, seq<int>>, k: int, c: seq<string>, inc: int)
    requires 0 <= inc <= |c|
  {
    && (forall m :: 0 <= m < inc ==> c[m] in acc && k in acc[c[m]] && c[m] in l.allnameToId)
    && (forall m, j :: 0 <= m < j < inc && l.allnameToId[c[m]] in uniques ==> l.allnameToId[c[m]] in acc[c[j]])
  }

  /** After `inc` steps from leaf `k`, the depth of each id of `uniques`
      passed is at least its number of steps. */
  ghost predicate DepthSoFar(l: Links, uniques: seq<int>, depth: seq<int>, k: int, inc: int)
    requires PrefixParents(l) && |depth| == |uniques|
  {
    forall i, m :: 0 <= i < inc && 0 <= m < |uniques| && Reaches(l, k, i, uniques[m]) ==> depth[m] >= i + 1
  }

  lemma CarriedStep(l: Links, uniques: seq<int>, k: int, c: seq<string>, inc: int, ids: seq<int>)
    requires 0 <= inc < |c| && c[inc] in l.allnameToId
    requires Carried(l, uniques, k, c, inc, ids)
    ensures var y := l.allnameToId[c[inc]];
            Carried(l, uniques, k, c, inc + 1, if y in uniques then ids + [y] else ids)
  {
  }

  lemma ListedDone(l: Links, uniques: seq<int>, acc: map<string, seq<int>>, k: int, c: seq<string>)
    requires PrefixParents(l) && IsLeafId(l, k) && c == Chain(l, l.idToAllname[k])
    requires ListedSoFar(l, uniques, acc, k, c, |c|)
    ensures LeafListed(l, uniques, acc, k)
  {
  }

  /** Listing the carried ids under the next ancestor. */
  lemma ListedStep(l: Links, uniques: seq<int>, acc: map<string, seq<int>>, k: int, c: seq<string>, inc: int, ids: seq<int>)
    requires PrefixParents(l) && IsLeafId(l, k) && k in l.idOrder && c == Chain(l, l.idToAllname[k])
    requires 0 <= inc < |c| && c[inc] in l.allnameToId
    requires Carried(l, uniques, k, c, inc, ids)
    requires ListedSoFar(l, uniques, acc, k, c, inc) && ListedSound(l, uniques, acc)
    ensures var acc' := acc[c[inc] := (if c[inc] in acc then acc[c[inc]] else []) + ids];
            ListedSoFar(l, uniques, acc', k, c, inc + 1) && ListedSound(l, uniques, acc') && Grows(acc, acc')
  {
    ChainSuffix(l, l.idToAllname[k]);
    forall y | y in ids ensures Justified(l, uniques, y, c[inc]) {
      if y != k {
        var m :| 0 <= m < inc && c[m] in l.allnameToId && l.allnameToId[c[m]] == y;
        assert c[inc] == c[m + 1..][inc - m - 1];
      }
    }
    SoundAppend(l, uniques, acc, c[inc], ids);
    var acc' := acc[c[inc] := (if c[inc] in acc then acc[c[inc]] else []) + ids];
    assert k in acc'[c[inc]] by { assert ids[0] == k; }
    forall m, j | 0 <= m < j < inc + 1 && l.allnameToId[c[m]] in uniques
      ensures l.allnameToId[c[m]] in acc'[c[j]]
    {
      if j == inc {
        assert l.allnameToId[c[m]] in ids;
      } else {
        assert l.allnameToId[c[m]] in acc[c[j]];
      }
    }
  }

  /** Raising the depth of the id met at step `inc + 1`. */
  /** `a` is pointwise at least `b`. */
  ghost predicate Dominates(a: seq<int>, b: seq<int>)
  {
    |a| == |b| && forall m :: 0 <= m < |a| ==> a[m] >= b[m]
  }

  lemma DominatesTrans(a: seq<int>, b: seq<int>, c: seq<int>)
    requires Dominates(a, b) && Dominates(b, c)
    ensures Dominates(a, c)
  {
  }

  lemma DepthStep(l: Links, uniques: seq<int>, depth: seq<int>, k: int, c: seq<string>, inc: int, ks: seq<int>, p: int)
    requires PrefixParents(l) && IsLeafId(l, k) && c == Chain(l, l.idToAllname[k])
    requires 0 <= inc < |c| && c[inc] in l.allnameToId
    requires |depth| == |uniques| && DepthSoFar(l, uniques, depth, k, inc) && Attained(l, uniques, depth, ks + [k])
    requires l.allnameToId[c[inc]] in uniques ==> Places(uniques, l.allnameToId[c[inc]]) == [p]
    ensures var y := l.allnameToId[c[inc]];
            var depth' := if y in uniques then depth[p := if depth[p] >= inc + 1 then depth[p] else inc + 1] else depth;
            && |depth'| == |uniques| && Dominates(depth', depth)
            && DepthSoFar(l, uniques, depth', k, inc + 1) && Attained(l, uniques, depth', ks + [k])
  {
    var y := l.allnameToId[c[inc]];
    if y in uniques {
      assert p in Places(uniques, y);
      var depth' := depth[p := if depth[p] >= inc + 1 then depth[p] else inc + 1];
      forall i, m | 0 <= i < inc + 1 && 0 <= m < |uniques| && Reaches(l, k, i, uniques[m])
        ensures depth'[m] >= i + 1
      {
        if i == inc { assert m in Places(uniques, y); }
      }
      forall m | 0 <= m < |depth'| && depth'[m] != 0
        ensures exists t, i :: 0 <= t < |ks + [k]| && Reaches(l, (ks + [k])[t], i, uniques[m]) && depth'[m] == i + 1
      {
        if m == p && depth'[m] != depth[m] {
          assert (ks + [k])[|ks|] == k && Reaches(l, k, inc, uniques[m]);
        }
      }
    }
  }

  /** One step of the climb at the ancestor `c[inc]`: its entry in `order_`
      is raised to `inc + 1` when it is one of `uniques`; a ValueError when it
      occurs more than once there. */
  method RaiseDepth(ghost l: Links, uniques: seq<int>, depth: seq<int>, idParent: int, inc: int,
                    ghost k: int, ghost c: seq<string>, ghost ks: seq<int>)
    returns (r: Result<seq<int>>)
    requires PrefixParents(l) && IsLeafId(l, k) && c == Chain(l, l.idToAllname[k])
    requires 0 <= inc < |c| && c[inc] in l.allnameToId && idParent == l.allnameToId[c[inc]]
    requires |depth| == |uniques| && DepthSoFar(l, uniques, depth, k, inc) && Attained(l, uniques, depth, ks + [k])
    ensures r.Err? ==> r.error == ValueError && !NoDup(uniques)
    ensures r.Err? <==> idParent in uniques && |Places(uniques, idParent)| >= 2
    ensures NoDup(uniques) ==> r.Ok?
    ensures r.Ok? ==> && |r.value| == |uniques| && Dominates(r.value, depth)
                      && DepthSoFar(l, uniques, r.value, k, inc + 1) && Attained(l, uniques, r.value, ks + [k])
  {
    var p := 0;
    if idParent in uniques {
      var places := Places(uniques, idParent);
      assert places != [] by {
        var i :| 0 <= i < |uniques| && uniques[i] == idParent;
        assert i in places;
      }
      if |places| != 1 {
        assert !NoDup(uniques) by { assert idParent in uniques; }
        return Err(ValueError);
      }
      p := places[0];
      assert places == [p];
      DepthStep(l, uniques, depth, k, c, inc, ks, p);
      return Ok(depth[p := if depth[p] >= inc + 1 then depth[p] else inc + 1]);
    }
    DepthStep(l, uniques, depth, k, c, inc, ks, p);
    return Ok(depth);
  }

  /** What the climb from leaf `k` has established after `inc` steps. */
  ghost predicate Climbing(l: Links, uniques: seq<int>, children: map<string, seq<int>>, order: seq<int>, k: int,
                           ks: seq<int>, c: seq<string>, inc: int, ids: seq<int>, acc: map<string, seq<int>>, depth: seq<int>)
    requires PrefixParents(l) && 0 <= inc <= |c|
  {
    && Carried(l, uniques, k, c, inc, ids)
    && ListedSoFar(l, uniques, acc, k, c, inc) && Grows(children, acc) && ListedSound(l, uniques, acc)
    && |depth| == |uniques| && Dominates(depth, order)
    && DepthSoFar(l, uniques, depth, k, inc) && Attained(l, uniques, depth, ks + [k])
  }

  /** One pass of the climb at the ancestor `parentname`, the `inc`-th above
      the leaf: list the carried ids under it, carry its id when it is one of
      `uniques`, and raise that id's depth. */
  method ClimbStep(l: Links, uniques: seq<int>, ghost children: map<string, seq<int>>, ghost order: seq<int>, k: int,
                   ghost ks: seq<int>, ghost c: seq<string>, inc: int, parentname: string,
                   ids: seq<int>, acc: map<string, seq<int>>, depth: seq<int>)
    returns (r: Result<(seq<int>, map<string, seq<int>>, seq<int>)>)
    requires PrefixParents(l) && IsLeafId(l, k) && k in l.idOrder && c == Chain(l, l.idToAllname[k])
    requires 0 <= inc < |c| && parentname == c[inc]
    requires Climbing(l, uniques, children, order, k, ks, c, inc, ids, acc, depth)
    ensures r.Err? ==>
              || (r.error == KeyError && !ChainDefined(l, l.idToAllname[k]))
              || (r.error == ValueError && !NoDup(uniques))
    ensures r.Ok? ==> var (ids', acc', depth') := r.value;
              Climbing(l, uniques, children, order, k, ks, c, inc + 1, ids', acc', depth')
  {
    var listed := if parentname in acc then acc[parentname] else [];
    var acc' := acc[parentname := listed + ids];
    if parentname !in l.allnameToId {
      assert !ChainDefined(l, l.idToAllname[k]) by { assert c[inc] in c; }
      return Err(KeyError);
    }
    ListedStep(l, uniques, acc, k, c, inc, ids);
    GrowsTrans(children, acc, acc');
    CarriedStep(l, uniques, k, c, inc, ids);
    var idParent := l.allnameToId[parentname];
    var ids' := if idParent in uniques then ids + [idParent] else ids;
    var raised := RaiseDepth(l, uniques, depth, idParent, inc, k, c, ks);
    if raised.Err? { return Err(ValueError); }
    DominatesTrans(raised.value, depth, order);
    return Ok((ids', acc', raised.value));
  }

  /** Lines 94-108 for one leaf `k`: walk up from its path; under every
      ancestor list the leaf and the ids of `uniques` met below that
      ancestor, and raise the depth of each id of `uniques` met to the
      number of steps taken. */
  method ClimbLeaf(l: Links, uniques: seq<int>, children: map<string, seq<int>>, order: seq<int>, k: int,
                   ghost ks: seq<int>)
    returns (r: Result<(map<string, seq<int>>, seq<int>)>)
    requires PrefixParents(l) && IsLeafId(l, k) && k in l.idOrder
    requires ListedSound(l, uniques, children)
    requires |order| == |uniques| && Attained(l, uniques, order, ks)
    ensures r.Err? ==> r.error == KeyError || (r.error == ValueError && !NoDup(uniques))
    ensures NoDup(uniques) && l.idToAllname[k] in l.allnameToParent && ChainDefined(l, l.idToAllname[k]) ==> r.Ok?
    ensures r.Ok? ==> var (acc, depth) := r.value;
              && Grows(children, acc) && ListedSound(l, uniques, acc) && LeafListed(l, uniques, acc, k)
              && |depth| == |uniques| && Dominates(depth, order)
              && DepthBound(l, uniques, depth, k) && Attained(l, uniques, depth, ks + [k])
  {
    var allname := l.idToAllname[k];
    var inc := 0;
    var ids := [k];
    if allname !in l.allnameToParent { return Err(KeyError); }
    var parentname := l.allnameToParent[allname];
    ghost var c := Chain(l, allname);
    ChainSuffix(l, allname);
    AttainedGrows(l, uniques, order, ks, k);
    var acc, depth := children, order;
    while parentname != ""
      invariant inc <= |c| && parentname == if inc < |c| then c[inc] else ""
      invariant Climbing(l, uniques, children, order, k, ks, c, inc, ids, acc, depth)
      decreases |c| - inc
    {
      var step := ClimbStep(l, uniques, children, order, k, ks, c, inc, parentname, ids, acc, depth);
      if step.Err? { return Err(step.error); }
      ids, acc, depth := step.value.0, step.value.1, step.value.2;
      inc := inc + 1;
      allname := parentname;
      if allname !in l.allnameToParent {
        assert !ChainDefined(l, l.idToAllname[k]) by { assert c[inc - 1] in c; }
        return Err(KeyError);
      }
      ChainNext(l, l.idToAllname[k], inc - 1);
      parentname := l.allnameToParent[allname];
    }
    assert inc == |c|;
    ListedDone(l, uniques, acc, k, c);
    return Ok((acc, depth));
  }

  lemma DepthBoundGrows(l: Links, uniques: seq<int>, a: seq<int>, b: seq<int>, k: int)
    requires PrefixParents(l) && |b| == |uniques| && Dominates(a, b) && DepthBound(l, uniques, b, k)
    ensures |a| == |uniques| && DepthBound(l, uniques, a, k)
  {
  }

  /** Every leaf of `ks` is listed under its ancestors in `acc`. */
  ghost predicate AllListed(l: Links, uniques: seq<int>, acc: map<string, seq<int>>, ks: seq<int>)
    requires PrefixParents(l)
  {
    forall t :: 0 <= t < |ks| ==> LeafListed(l, uniques, acc, ks[t])
  }

  /** Every leaf of `ks` bounds the depths in `order` from below. */
  ghost predicate AllBounded(l: Links, uniques: seq<int>, order: seq<int>, ks: seq<int>)
    requires PrefixParents(l) && |order| == |uniques|
  {
    forall t :: 0 <= t < |ks| ==> DepthBound(l, uniques, order, ks[t])
  }

  lemma {:induction false} AllListedGrows(l: Links, uniques: seq<int>, c0: map<string, seq<int>>, c: map<string, seq<int>>, ks: seq<int>)
    requires PrefixParents(l) && Grows(c0, c) && AllListed(l, uniques, c0, ks)
    ensures AllListed(l, uniques, c, ks)
  {
    forall t | 0 <= t < |ks| ensures LeafListed(l, uniques, c, ks[t]) {
      LeafListedGrows(l, uniques, c0, c, ks[t]);
    }
  }

  lemma {:induction false} AllBoundedGrows(l: Links, uniques: seq<int>, a: seq<int>, b: seq<int>, ks: seq<int>)
    requires PrefixParents(l) && |b| == |uniques| && Dominates(a, b) && AllBounded(l, uniques, b, ks)
    ensures |a| == |uniques| && AllBounded(l, uniques, a, ks)
  {
    forall t | 0 <= t < |ks| ensures DepthBound(l, uniques, a, ks[t]) {
      DepthBoundGrows(l, uniques, a, b, ks[t]);
    }
  }

  /** One pass of the outer loop of `find_children` over id `k`: a leaf is
      climbed from; any other id changes nothing. */
  method VisitId(l: Links, uniques: seq<int>, acc: map<string, seq<int>>, order: seq<int>, k: int, ghost ks: seq<int>)
    returns (r: Result<(map<string, seq<int>>, seq<int>)>)
    requires PrefixParents(l) && k in l.idOrder && k in l.idToAllname
    requires ListedSound(l, uniques, acc) && AllListed(l, uniques, acc, ks)
    requires |order| == |uniques| && (forall m :: 0 <= m < |order| ==> order[m] >= 0)
    requires AllBounded(l, uniques, order, ks) && Attained(l, uniques, order, ks)
    ensures r.Err? ==> r.error == KeyError || (r.error == ValueError && !NoDup(uniques))
    ensures Complete(l, uniques) ==> r.Ok?
    ensures r.Ok? ==> var (acc', order') := r.value;
              && ListedSound(l, uniques, acc') && AllListed(l, uniques, acc', ks + [k])
              && |order'| == |uniques| && (forall m :: 0 <= m < |order'| ==> order'[m] >= 0)
              && AllBounded(l, uniques, order', ks + [k]) && Attained(l, uniques, order', ks + [k])
  {
    var allname := l.idToAllname[k];
    if allname !in l.isLeaf { return Err(KeyError); }
    if !l.isLeaf[allname] {
      AttainedGrows(l, uniques, order, ks, k);
      return Ok((acc, order));
    }
    var climbed := ClimbLeaf(l, uniques, acc, order, k, ks);
    if climbed.Err? { return Err(climbed.error); }
    var (acc', order') := climbed.value;
    AllListedGrows(l, uniques, acc, acc', ks);
    AllBoundedGrows(l, uniques, order', order, ks);
    return Ok((acc', order'));
  }

  /** The closing loop of `find_children`: each list replaced by its
      `np.unique`. */
  method UniqueLists(acc: map<string, seq<int>>) returns (res: map<string, seq<int>>)
    ensures res.Keys == acc.Keys
    ensures forall q :: q in res ==> Ascending(res[q]) && forall x :: x in res[q] <==> x in acc[q]
  {
    res := acc;
    var todo := acc.Keys;
    while todo != {}
      invariant todo <= acc.Keys && res.Keys == acc.Keys
      invariant forall q :: q in res && q !in todo ==> Ascending(res[q]) && forall x :: x in res[q] <==> x in acc[q]
      decreases |todo|
    {
      var q :| q in todo;
      res := res[q := Unique(acc[q])];
      todo := todo - {q};
    }
  }

  /** Sorting without repeats keeps the lists complete and sound. */
  lemma {:induction false} ChildListsUnique(l: Links, uniques: seq<int>, acc: map<string, seq<int>>, res: map<string, seq<int>>)
    requires PrefixParents(l) && ListedSound(l, uniques, acc) && AllListed(l, uniques, acc, l.idOrder)
    requires res.Keys == acc.Keys
    requires forall q :: q in res ==> Ascending(res[q]) && forall x :: x in res[q] <==> x in acc[q]
    ensures ChildLists(l, uniques, res)
  {
    assert Grows(acc, res);
    forall k | k in l.idOrder ensures LeafListed(l, uniques, res, k) {
      var t :| 0 <= t < |l.idOrder| && l.idOrder[t] == k;
      LeafListedGrows(l, uniques, acc, res, k);
    }
    forall q | q in res ensures res[q] != [] && forall x :: x in res[q] ==> Justified(l, uniques, x, q) {
      assert q in acc && acc[q] != [];
      var x0 := acc[q][0];
      assert x0 in acc[q];
      assert x0 in res[q];
    }
  }

  /** `find_children`: for every leaf of the id order, the leaf and each id of
      `uniques` met on the way up are listed under every ancestor above
      them, and each id of `uniques` gets the largest number of steps from a
      leaf up to it. A KeyError when a lookup fails, a ValueError when an
      id met occurs twice in `uniques`. */
  method FindChildren(uniques: seq<int>, l: Links) returns (r: Result<(map<string, seq<int>>, seq<int>)>)
    requires PrefixParents(l) && forall k :: k in l.idOrder ==> k in l.idToAllname
    ensures r.Err? ==> r.error == KeyError || (r.error == ValueError && !NoDup(uniques))
    ensures Complete(l, uniques) ==> r.Ok?
    ensures r.Ok? ==> ChildLists(l, uniques, r.value.0) && Depths(l, uniques, r.value.1)
  {
    var acc: map<string, seq<int>> := map[];
    var order := seq(|uniques|, _ => 0);
    var n := 0;
    while n < |l.idOrder|
      invariant 0 <= n <= |l.idOrder|
      invariant ListedSound(l, uniques, acc) && AllListed(l, uniques, acc, l.idOrder[..n])
      invariant |order| == |uniques| && forall m :: 0 <= m < |order| ==> order[m] >= 0
      invariant AllBounded(l, uniques, order, l.idOrder[..n]) && Attained(l, uniques, order, l.idOrder[..n])
    {
      var k := l.idOrder[n];
      var visited := VisitId(l, uniques, acc, order, k, l.idOrder[..n]);
      if visited.Err? { return Err(visited.error); }
      assert l.idOrder[..n + 1] == l.idOrder[..n] + [k];
      acc, order := visited.value.0, visited.value.1;
      n := n + 1;
    }
    assert l.idOrder[..n] == l.idOrder;
    var lists := UniqueLists(acc);
    ChildListsUnique(l, uniques, acc, lists);
    return Ok((lists, order));
  }

  /** `filter_region`: the voxels of the region `allname`, and for a region
      that is not a leaf also those of the ids listed under it. A KeyError
      when the region has no leaf flag, no id, or (not being a leaf) no
      list. */
  function FilterRegion(annotation: seq<int>, allname: string, children: map<string, seq<int>>, l: Links)
    : (r: Result<seq<bool>>)
    ensures r.Err? ==> r.error == KeyError
    ensures r.Ok? <==> && allname in l.isLeaf && allname in l.allnameToId
                       && (l.isLeaf[allname] || allname in children)
    ensures r.Ok? ==> && |r.value| == |annotation|
                      && forall i :: 0 <= i < |annotation| ==>
                           (r.value[i] <==>
                              (annotation[i] == l.allnameToId[allname]
                               || (!l.isLeaf[allname] && annotation[i] in children[allname])))
  {
    if allname !in l.isLeaf then Err(KeyError)
    else if !l.isLeaf[allname] then
      if allname !in children || allname !in l.allnameToId then Err(KeyError)
      else
        var keep := children[allname] + [l.allnameToId[allname]];
        Ok(seq(|annotation|, i requires 0 <= i < |annotation| => annotation[i] in keep))
    else if allname !in l.allnameToId then Err(KeyError)
    else
      var id := l.allnameToId[allname];
      Ok(seq(|annotation|, i requires 0 <= i < |annotation| => annotation[i] == id))
  }

  /** With the lists of `find_children`, the mask of a region covers exactly
      its own voxels and those of regions below it: every voxel kept is the
      region's own id, a leaf below it or an id of `uniques` below it, and
      every voxel of a leaf below it is kept. */
  lemma {:induction false} FilterRegionSubtree(annotation: seq<int>, allname: string, children: map<string, seq<int>>,
                                               l: Links, uniques: seq<int>)
    requires PrefixParents(l) && ChildLists(l, uniques, children)
    requires FilterRegion(annotation, allname, children, l).Ok?
    ensures var mask := FilterRegion(annotation, allname, children, l).value;
            forall i :: 0 <= i < |annotation| ==>
              (mask[i] ==> annotation[i] == l.allnameToId[allname] || Justified(l, uniques, annotation[i], allname))
    ensures var mask := FilterRegion(annotation, allname, children, l).value;
            forall i :: (&& 0 <= i < |annotation| && annotation[i] in l.idOrder && IsLeafId(l, annotation[i])
                         && allname in Chain(l, l.idToAllname[annotation[i]]) && !l.isLeaf[allname]) ==> mask[i]
  {
    var mask := FilterRegion(annotation, allname, children, l).value;
    forall i | 0 <= i < |annotation| && annotation[i] in l.idOrder && IsLeafId(l, annotation[i])
               && allname in Chain(l, l.idToAllname[annotation[i]]) && !l.isLeaf[allname]
      ensures mask[i]
    {
      var k := annotation[i];
      var c := Chain(l, l.idToAllname[k]);
      assert LeafListed(l, uniques, children, k);
      var j :| 0 <= j < |c| && c[j] == allname;
      assert k in children[c[j]];
    }
  }
}

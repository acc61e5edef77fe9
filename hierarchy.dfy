/** `search_children`: the preorder walk over the brain-region ontology that
    fills the lookup tables of the hierarchy reader. A region's path name is its
    parent's path name, a `|`, and its own name; the root's parent path is "". */
module Hierarchy {
  import opened Outcomes
  import opened Text
  import opened Colors

  /** One region object of the ontology. A key absent from the JSON object is
      `None`; an absent `children` key is an empty list, which the walk treats
      the same way (the flag stays 1, the walk returns normally). */
  datatype Node = Node(name: Option<string>, id: Option<int>, acronym: Option<string>,
                       colorHex: Option<string>, children: seq<Node>)

  /** The tables the walk fills and never reads back. */
  datatype Names = Names(
    allnameList: seq<string>,               // regions_ALLNAME_list
    nameToAllname: map<string, string>,     // name2allname
    allnameToName: map<string, string>,     // allname2name
    idToName: map<int, string>,             // id_to_region_dictionary
    idToAbv: map<int, string>,              // id_to_abv
    nameToId: map<string, int>,             // region_dictionary_to_id
    nameToAbv: map<string, string>,         // region_dictionary_to_abv
    nameToParent: map<string, string>,      // region_dictionary_to_id_parent
    allnameToColor: map<string, seq<int>>,  // region_to_color
    idToColor: map<int, seq<int>>,          // id_to_color
    regionKeys: seq<string>)                // region_keys

  /** The tables the queries of the hierarchy read: parent links, ids and
      leaf flags. `idOrder` is the insertion order of the keys of
      `idToAllname`, the order its `items()` yields. */
  datatype Links = Links(
    allnameToParent: map<string, string>,   // region_dictionary_to_id_ALLNAME_parent
    allnameToId: map<string, int>,          // region_dictionary_to_id_ALLNAME
    idToAllname: map<int, string>,          // id_to_region_dictionary_ALLNAME
    idOrder: seq<int>,
    isLeaf: map<string, bool>)              // is_leaf

  /** The module-level tables. */
  datatype Index = Index(names: Names, links: Links)

  const EmptyIndex := Index(Names([], map[], map[], map[], map[], map[], map[], map[], map[], map[], []),
                            Links(map[], map[], map[], [], map[]))

  function PathOf(parentPath: string, name: string): (path: string)
    ensures |path| > |parentPath|
  {
    parentPath + "|" + name
  }

  /** The node carries every key read before the `try`, and a readable colour. */
  predicate Registrable(node: Node) {
    && node.name.Some? && node.id.Some? && node.acronym.Some? && node.colorHex.Some?
    && HexToRgb(node.colorHex.value).Ok?
  }

  /** Lines 202-204: the path is listed and the name and path point at each other. */
  function RegisterName(t: Names, name: string, path: string): Names {
    t.(allnameList := t.allnameList + [path],
       nameToAllname := t.nameToAllname[name := path],
       allnameToName := t.allnameToName[path := name])
  }

  /** Line 205. */
  function RegisterIdName(t: Names, id: int, name: string): Names {
    t.(idToName := t.idToName[id := name])
  }

  /** Lines 206, 209, 210 and 215: acronym, id and parent name under the name. */
  function RegisterAcronym(t: Names, id: int, name: string, abv: string, parentName: string): Names {
    t.(idToAbv := t.idToAbv[id := abv],
       nameToId := t.nameToId[name := id],
       nameToAbv := t.nameToAbv[name := abv],
       nameToParent := t.nameToParent[name := parentName])
  }

  /** Lines 207-208 and 211-214: the id and path point at each other and the
      path at its parent. A new id joins the end of the id order; a known one
      keeps its place. */
  function RegisterLinks(l: Links, id: int, path: string, parentPath: string): Links {
    l.(allnameToParent := l.allnameToParent[path := parentPath],
       allnameToId := l.allnameToId[path := id],
       idToAllname := l.idToAllname[id := path],
       idOrder := if id in l.idToAllname then l.idOrder else l.idOrder + [id])
  }

  /** Lines 220-222: the colour under the path and the id, and the name listed. */
  function RegisterColor(t: Names, id: int, name: string, path: string, rgb: seq<int>): Names {
    t.(allnameToColor := t.allnameToColor[path := rgb],
       idToColor := t.idToColor[id := rgb],
       regionKeys := t.regionKeys + [name])
  }

  /** The registrations before the `try`, in source order. A missing key raises
      KeyError once the lines before it have run; an unreadable colour raises
      ValueError. The path tables change once the id and the acronym are read,
      and then by exactly one entry each. */
  function Register(ix: Index, node: Node, parentPath: string, parentName: string): (r: (Index, Result<()>))
    ensures r.1.Ok? <==> Registrable(node)
    ensures r.1.Err? ==> r.1.error == KeyError || r.1.error == ValueError
    ensures node.name.None? ==> r == (ix, Err(KeyError))
    ensures r.0.links == if node.name.Some? && node.id.Some? && node.acronym.Some?
                         then RegisterLinks(ix.links, node.id.value, PathOf(parentPath, node.name.value), parentPath)
                         else ix.links
  {
    if node.name.None? then (ix, Err(KeyError))
    else
      var name := node.name.value;
      var path := PathOf(parentPath, name);
      var t1 := RegisterName(ix.names, name, path);
      if node.id.None? then (Index(t1, ix.links), Err(KeyError))
      else
        var id := node.id.value;
        var t2 := RegisterIdName(t1, id, name);
        if node.acronym.None? then (Index(t2, ix.links), Err(KeyError))
        else
          var t3 := RegisterAcronym(t2, id, name, node.acronym.value, parentName);
          var l3 := RegisterLinks(ix.links, id, path, parentPath);
          if node.colorHex.None? then (Index(t3, l3), Err(KeyError))
          else
            var rgb := HexToRgb(node.colorHex.value);
            if rgb.Err? then (Index(t3, l3), Err(ValueError))
            else (Index(RegisterColor(t3, id, name, path, rgb.value), l3), Ok(()))
  }

  /** The index with the leaf flag of `path` set to `b`. */
  function SetLeaf(ix: Index, path: string, b: bool): Index {
    ix.(links := ix.links.(isLeaf := ix.links.isLeaf[path := b]))
  }

  /** `search_children(node, parentPath, parentName)`: register the node, set
      its leaf flag to 1, then visit the children in order. A KeyError raised
      while registering a child ends the sibling loop and is swallowed here; a
      ValueError goes up to the caller. */
  function Visit(ix: Index, node: Node, parentPath: string, parentName: string): (r: (Index, Result<()>))
    decreases node, 1
  {
    var (ix1, s) := Register(ix, node, parentPath, parentName);
    if s.Err? then (ix1, s)
    else
      var path := PathOf(parentPath, node.name.value);
      var (ix2, s2) := VisitFrom(SetLeaf(ix1, path, true), node, path, 0);
      (ix2, if s2 == Err(KeyError) then Ok(()) else s2)
  }

  /** The sibling loop from child `i` on: after each child that returns
      normally the parent's flag becomes 0; the first raise ends the loop. */
  function VisitFrom(ix: Index, node: Node, path: string, i: nat): (r: (Index, Result<()>))
    requires node.name.Some? && i <= |node.children|
    decreases node, 0, |node.children| - i
  {
    if i == |node.children| then (ix, Ok(()))
    else
      var (ix1, s) := Visit(ix, node.children[i], path, node.name.value);
      if s.Err? then (ix1, s)
      else VisitFrom(SetLeaf(ix1, path, false), node, path, i + 1)
  }

  /** `parent` is a strict prefix of `path` followed by the separator `|`. */
  predicate ParentOf(parent: string, path: string) {
    |parent| < |path| && path[..|parent|] == parent && path[|parent|] == '|'
  }

  /** What the tables guarantee about parent links and id order: every
      registered path's parent is a strict prefix of it and is itself
      registered (or is "" for the root), every registered path has an id,
      and `idOrder` lists the keys of `idToAllname` once each. */
  ghost predicate Linked(l: Links) {
    && (forall p :: p in l.allnameToParent ==> ParentOf(l.allnameToParent[p], p))
    && (forall p {:trigger l.allnameToParent[p]} :: p in l.allnameToParent ==>
          l.allnameToParent[p] == "" || l.allnameToParent[p] in l.allnameToParent)
    && (forall p :: p in l.allnameToParent ==> p in l.allnameToId)
    && NoDup(l.idOrder)
    && (forall id :: id in l.idToAllname <==> id in l.idOrder)
  }

  lemma AppendNoDup(s: seq<int>, x: int)
    requires NoDup(s) && x !in s
    ensures NoDup(s + [x])
  {
    var t := s + [x];
    forall i, j | 0 <= i < j < |t| ensures t[i] != t[j] {
      if j == |s| { assert t[i] == s[i]; } else { assert t[i] == s[i] && t[j] == s[j]; }
    }
  }

  /** Registering one path below a registered parent keeps the tables linked. */
  lemma RegisterLinksLinked(l: Links, id: int, name: string, parentPath: string)
    requires Linked(l) && (parentPath == "" || parentPath in l.allnameToParent)
    ensures var r := RegisterLinks(l, id, PathOf(parentPath, name), parentPath);
            Linked(r) && l.allnameToParent.Keys <= r.allnameToParent.Keys
  {
    var path := PathOf(parentPath, name);
    var r := RegisterLinks(l, id, path, parentPath);
    var m, m' := l.allnameToParent, r.allnameToParent;
    assert ParentOf(parentPath, path) by {
      assert path[..|parentPath|] == parentPath;
    }
    forall p | p in m' ensures ParentOf(m'[p], p) && (m'[p] == "" || m'[p] in m') {
      if p != path {
        assert m'[p] == m[p];
      }
    }
    if id !in l.idToAllname {
      AppendNoDup(l.idOrder, id);
    }
  }

  lemma RegisterLinked(ix: Index, node: Node, parentPath: string, parentName: string)
    requires Linked(ix.links) && (parentPath == "" || parentPath in ix.links.allnameToParent)
    ensures Linked(Register(ix, node, parentPath, parentName).0.links)
    ensures ix.links.allnameToParent.Keys <= Register(ix, node, parentPath, parentName).0.links.allnameToParent.Keys
  {
    if node.name.Some? && node.id.Some? && node.acronym.Some? {
      RegisterLinksLinked(ix.links, node.id.value, node.name.value, parentPath);
    }
  }

  /** The walk keeps the tables linked and never drops a registered path. */
  lemma {:induction false} VisitLinked(ix: Index, node: Node, parentPath: string, parentName: string)
    requires Linked(ix.links) && (parentPath == "" || parentPath in ix.links.allnameToParent)
    ensures Linked(Visit(ix, node, parentPath, parentName).0.links)
    ensures ix.links.allnameToParent.Keys <= Visit(ix, node, parentPath, parentName).0.links.allnameToParent.Keys
    decreases node, 1
  {
    RegisterLinked(ix, node, parentPath, parentName);
    var (ix1, s) := Register(ix, node, parentPath, parentName);
    if s.Ok? {
      var path := PathOf(parentPath, node.name.value);
      VisitFromLinked(SetLeaf(ix1, path, true), node, path, 0);
    }
  }

  lemma {:induction false} VisitFromLinked(ix: Index, node: Node, path: string, i: nat)
    requires node.name.Some? && i <= |node.children|
    requires Linked(ix.links) && path in ix.links.allnameToParent
    ensures Linked(VisitFrom(ix, node, path, i).0.links)
    ensures ix.links.allnameToParent.Keys <= VisitFrom(ix, node, path, i).0.links.allnameToParent.Keys
    decreases node, 0, |node.children| - i
  {
    if i < |node.children| {
      VisitLinked(ix, node.children[i], path, node.name.value);
      var (ix1, s) := Visit(ix, node.children[i], path, node.name.value);
      if s.Ok? {
        VisitFromLinked(SetLeaf(ix1, path, false), node, path, i + 1);
      }
    }
  }

  /** `m1` and `m2` agree on every key no longer than `n`. */
  ghost predicate AgreeUpTo<V>(m1: map<string, V>, m2: map<string, V>, n: int) {
    forall p :: |p| <= n ==> (p in m1 <==> p in m2) && (p in m1 ==> m1[p] == m2[p])
  }

  /** The parent and id tables agree on every path no longer than `n`. */
  ghost predicate IdsAgree(l: Links, l': Links, n: int) {
    && AgreeUpTo(l.allnameToParent, l'.allnameToParent, n)
    && AgreeUpTo(l.allnameToId, l'.allnameToId, n)
  }

  /** The path tables agree on every path no longer than `n`. */
  ghost predicate PathTablesAgree(l: Links, l': Links, n: int) {
    IdsAgree(l, l', n) && AgreeUpTo(l.isLeaf, l'.isLeaf, n)
  }

  lemma AgreeUpdate<V>(m: map<string, V>, k: string, v: V, n: int)
    requires |k| > n
    ensures AgreeUpTo(m, m[k := v], n)
  {
  }

  lemma AgreeChain<V>(m1: map<string, V>, m2: map<string, V>, m3: map<string, V>, n1: int, n2: int, n: int)
    requires AgreeUpTo(m1, m2, n1) && AgreeUpTo(m2, m3, n2) && n <= n1 && n <= n2
    ensures AgreeUpTo(m1, m3, n)
  {
  }

  lemma IdsChain(l1: Links, l2: Links, l3: Links, n1: int, n2: int, n: int)
    requires IdsAgree(l1, l2, n1) && IdsAgree(l2, l3, n2) && n <= n1 && n <= n2
    ensures IdsAgree(l1, l3, n)
  {
    AgreeChain(l1.allnameToParent, l2.allnameToParent, l3.allnameToParent, n1, n2, n);
    AgreeChain(l1.allnameToId, l2.allnameToId, l3.allnameToId, n1, n2, n);
  }

  lemma TablesChain(l1: Links, l2: Links, l3: Links, n1: int, n2: int, n: int)
    requires PathTablesAgree(l1, l2, n1) && PathTablesAgree(l2, l3, n2) && n <= n1 && n <= n2
    ensures PathTablesAgree(l1, l3, n)
  {
    IdsChain(l1, l2, l3, n1, n2, n);
    AgreeChain(l1.isLeaf, l2.isLeaf, l3.isLeaf, n1, n2, n);
  }

  /** Setting a flag of a path longer than `n` leaves the paths up to `n` alone. */
  lemma SetLeafFrame(ix: Index, path: string, b: bool, n: int)
    requires |path| > n
    ensures PathTablesAgree(ix.links, SetLeaf(ix, path, b).links, n)
    ensures IdsAgree(ix.links, SetLeaf(ix, path, b).links, |path|)
  {
    AgreeUpdate(ix.links.isLeaf, path, b, n);
  }

  /** Registering a node writes only its own path in the path tables. */
  lemma RegisterFrame(ix: Index, node: Node, parentPath: string, parentName: string)
    ensures PathTablesAgree(ix.links, Register(ix, node, parentPath, parentName).0.links, |parentPath|)
  {
    if node.name.Some? && node.id.Some? && node.acronym.Some? {
      var path := PathOf(parentPath, node.name.value);
      AgreeUpdate(ix.links.allnameToParent, path, parentPath, |parentPath|);
      AgreeUpdate(ix.links.allnameToId, path, node.id.value, |parentPath|);
    }
  }

  /** Visiting a node below `parentPath` writes only paths longer than
      `parentPath`: the entries of its ancestors are left alone. */
  lemma {:induction false} VisitFrame(ix: Index, node: Node, parentPath: string, parentName: string)
    ensures PathTablesAgree(ix.links, Visit(ix, node, parentPath, parentName).0.links, |parentPath|)
    decreases node, 1
  {
    RegisterFrame(ix, node, parentPath, parentName);
    var (ix1, s) := Register(ix, node, parentPath, parentName);
    if s.Ok? {
      var path := PathOf(parentPath, node.name.value);
      var start := SetLeaf(ix1, path, true);
      SetLeafFrame(ix1, path, true, |parentPath|);
      VisitFromFrame(start, node, path, 0);
      var r := VisitFrom(start, node, path, 0).0;
      TablesChain(ix1.links, start.links, r.links, |parentPath|, |path| - 1, |parentPath|);
      TablesChain(ix.links, ix1.links, r.links, |parentPath|, |parentPath|, |parentPath|);
    }
  }

  lemma {:induction false} VisitFromFrame(ix: Index, node: Node, path: string, i: nat)
    requires node.name.Some? && i <= |node.children|
    ensures PathTablesAgree(ix.links, VisitFrom(ix, node, path, i).0.links, |path| - 1)
    ensures IdsAgree(ix.links, VisitFrom(ix, node, path, i).0.links, |path|)
    decreases node, 0, |node.children| - i
  {
    if i < |node.children| {
      VisitFrame(ix, node.children[i], path, node.name.value);
      var (ix1, s) := Visit(ix, node.children[i], path, node.name.value);
      if s.Ok? {
        var next := SetLeaf(ix1, path, false);
        SetLeafFrame(ix1, path, false, |path| - 1);
        VisitFromFrame(next, node, path, i + 1);
        var r := VisitFrom(next, node, path, i + 1).0;
        TablesChain(ix1.links, next.links, r.links, |path| - 1, |path| - 1, |path| - 1);
        TablesChain(ix.links, ix1.links, r.links, |path|, |path| - 1, |path| - 1);
        IdsChain(ix1.links, next.links, r.links, |path|, |path|, |path|);
        IdsChain(ix.links, ix1.links, r.links, |path|, |path|, |path|);
      }
    }
  }

  /** The sibling loop never sets the flag of its own node back to 1. */
  lemma {:induction false} VisitFromKeepsCleared(ix: Index, node: Node, path: string, i: nat)
    requires node.name.Some? && i <= |node.children|
    requires path in ix.links.isLeaf && !ix.links.isLeaf[path]
    ensures var r := VisitFrom(ix, node, path, i).0; path in r.links.isLeaf && !r.links.isLeaf[path]
    decreases |node.children| - i
  {
    if i < |node.children| {
      VisitFrame(ix, node.children[i], path, node.name.value);
      var (ix1, s) := Visit(ix, node.children[i], path, node.name.value);
      if s.Ok? {
        var next := SetLeaf(ix1, path, false);
        VisitFromKeepsCleared(next, node, path, i + 1);
        assert VisitFrom(ix, node, path, i) == VisitFrom(next, node, path, i + 1);
      } else {
        assert VisitFrom(ix, node, path, i).0 == ix1;
      }
    }
  }

  /** A registered node's own path entries after its walk: its parent path,
      its id, and a leaf flag that is 1 exactly when it has no children or its
      first child raised (the first child that returns normally clears it for
      good). */
  lemma VisitOwnEntry(ix: Index, node: Node, parentPath: string, parentName: string)
    requires Registrable(node)
    ensures var path := PathOf(parentPath, node.name.value);
            var r := Visit(ix, node, parentPath, parentName).0.links;
            var start := SetLeaf(Register(ix, node, parentPath, parentName).0, path, true);
            && path in r.allnameToParent && r.allnameToParent[path] == parentPath
            && path in r.allnameToId && r.allnameToId[path] == node.id.value
            && path in r.isLeaf
            && (r.isLeaf[path] <==>
                  |node.children| == 0 || Visit(start, node.children[0], path, node.name.value).1.Err?)
  {
    var path := PathOf(parentPath, node.name.value);
    var start := SetLeaf(Register(ix, node, parentPath, parentName).0, path, true);
    VisitFromFrame(start, node, path, 0);
    var r := VisitFrom(start, node, path, 0).0.links;
    if |node.children| > 0 {
      var child := node.children[0];
      VisitFrame(start, child, path, node.name.value);
      var (ix2, s) := Visit(start, child, path, node.name.value);
      if s.Ok? {
        VisitFromKeepsCleared(SetLeaf(ix2, path, false), node, path, 1);
      }
    }
  }

  /** Every object of the subtree carries all keys and a readable colour. */
  predicate WellFormed(node: Node)
    decreases node
  {
    Registrable(node) && forall i :: 0 <= i < |node.children| ==> WellFormed(node.children[i])
  }

  /** A tree whose nodes carry name, id, acronym and a readable colour is
      walked without a raise, and the walked node's own flag says exactly
      whether it has children. (Siblings sharing a name share one path, so a
      later sibling's walk may overwrite an earlier one's flag.) */
  lemma {:induction false} WellFormedVisit(ix: Index, node: Node, parentPath: string, parentName: string)
    requires WellFormed(node)
    ensures var r := Visit(ix, node, parentPath, parentName);
            var path := PathOf(parentPath, node.name.value);
            && r.1 == Ok(())
            && path in r.0.links.isLeaf && (r.0.links.isLeaf[path] <==> |node.children| == 0)
    decreases node, 1
  {
    var path := PathOf(parentPath, node.name.value);
    var start := SetLeaf(Register(ix, node, parentPath, parentName).0, path, true);
    VisitOwnEntry(ix, node, parentPath, parentName);
    WellFormedVisitFrom(start, node, path, 0);
    if |node.children| > 0 {
      WellFormedVisit(start, node.children[0], path, node.name.value);
    }
  }

  lemma {:induction false} WellFormedVisitFrom(ix: Index, node: Node, path: string, i: nat)
    requires WellFormed(node) && i <= |node.children|
    ensures VisitFrom(ix, node, path, i).1 == Ok(())
    decreases node, 0, |node.children| - i
  {
    if i < |node.children| {
      WellFormedVisit(ix, node.children[i], path, node.name.value);
      var ix1 := Visit(ix, node.children[i], path, node.name.value).0;
      WellFormedVisitFrom(SetLeaf(ix1, path, false), node, path, i + 1);
    }
  }
}

/** The module-level tables of the hierarchy reader as one object whose
    fields `search_children` updates in place, and the keyword query
    `return_ids_containing_str_list` that reads them. */
module Tables {
  import opened Outcomes
  import opened Text
  import opened Colors
  import opened Hierarchy

  /** Every keyword occurs in `allname`, ignoring ASCII case. */
  ghost predicate HasAllKeywords(allname: string, keywords: seq<string>) {
    forall m :: 0 <= m < |keywords| ==> Contains(Lower(allname), Lower(keywords[m]))
  }

  /** The keyword loop of `return_ids_containing_str_list` for one path: it
      stops at the first keyword that `find` does not locate, ignoring case. */
  method KeywordsIn(allname: string, strList: seq<string>) returns (found: bool)
    ensures found <==> HasAllKeywords(allname, strList)
  {
    found := true;
    var j := 0;
    while j < |strList|
      invariant j <= |strList|
      invariant forall m :: 0 <= m < j ==> Contains(Lower(allname), Lower(strList[m]))
    {
      var at := Find(Lower(allname), Lower(strList[j]));
      if at < 0 {
        return false;
      }
      j := j + 1;
    }
  }

  /** An id passes the query: its path is a leaf when leaves are forced,
      and the path holds every keyword. */
  ghost predicate Selected(l: Links, k: int, keywords: seq<string>, forceLeaf: bool)
    requires k in l.idToAllname
  {
    var allname := l.idToAllname[k];
    (forceLeaf ==> allname in l.isLeaf && l.isLeaf[allname]) && HasAllKeywords(allname, keywords)
  }

  /** The query raises KeyError exactly when leaves are forced and some id in
      `order` has a path without a leaf flag. */
  ghost predicate MissingFlag(l: Links, order: seq<int>, forceLeaf: bool)
    requires forall k :: k in order ==> k in l.idToAllname
  {
    forceLeaf && exists n :: 0 <= n < |order| && order[n] in l.idToAllname && l.idToAllname[order[n]] !in l.isLeaf
  }

  /** The query over the first ids of the order: the selected ids in the
      order they were inserted, or the KeyError the first missing flag
      raises. */
  ghost function Matching(l: Links, order: seq<int>, keywords: seq<string>, forceLeaf: bool): (r: Result<seq<int>>)
    requires forall k :: k in order ==> k in l.idToAllname
    ensures r.Err? ==> r.error == KeyError
    decreases |order|
  {
    if order == [] then Ok([])
    else
      var prev := Matching(l, order[..|order| - 1], keywords, forceLeaf);
      var k := order[|order| - 1];
      if prev.Err? then prev
      else if forceLeaf && l.idToAllname[k] !in l.isLeaf then Err(KeyError)
      else if Selected(l, k, keywords, forceLeaf) then Ok(prev.value + [k])
      else prev
  }

  /** The query raises exactly when a forced leaf flag is missing. */
  lemma {:induction false} MatchingError(l: Links, order: seq<int>, keywords: seq<string>, forceLeaf: bool)
    requires forall k :: k in order ==> k in l.idToAllname
    ensures Matching(l, order, keywords, forceLeaf).Err? <==> MissingFlag(l, order, forceLeaf)
    decreases |order|
  {
    if order != [] {
      var front := order[..|order| - 1];
      var k := order[|order| - 1];
      MatchingError(l, front, keywords, forceLeaf);
      if MissingFlag(l, front, forceLeaf) {
        var n :| 0 <= n < |front| && l.idToAllname[front[n]] !in l.isLeaf;
        assert order[n] == front[n];
      }
      if MissingFlag(l, order, forceLeaf) && !(forceLeaf && l.idToAllname[k] !in l.isLeaf) {
        var n :| 0 <= n < |order| && l.idToAllname[order[n]] !in l.isLeaf;
        assert n < |front| && front[n] == order[n];
      }
    }
  }

  /** The query raises exactly when a forced leaf flag is missing; otherwise
      it returns precisely the selected ids of the order. */
  lemma {:induction false} MatchingMeaning(l: Links, order: seq<int>, keywords: seq<string>, forceLeaf: bool)
    requires forall k :: k in order ==> k in l.idToAllname
    ensures Matching(l, order, keywords, forceLeaf).Err? <==> MissingFlag(l, order, forceLeaf)
    ensures var r := Matching(l, order, keywords, forceLeaf);
            r.Ok? ==> forall k :: k in r.value <==> k in order && Selected(l, k, keywords, forceLeaf)
    decreases |order|
  {
    MatchingError(l, order, keywords, forceLeaf);
    if order != [] {
      var front := order[..|order| - 1];
      var k := order[|order| - 1];
      MatchingMeaning(l, front, keywords, forceLeaf);
      assert order == front + [k];
      var r := Matching(l, order, keywords, forceLeaf);
      if r.Ok? {
        var prev := Matching(l, front, keywords, forceLeaf);
        assert prev.Ok?;
        forall x
          ensures x in r.value <==> x in order && Selected(l, x, keywords, forceLeaf)
        {
          assert x in order <==> x in front || x == k;
        }
      }
    }
  }

  /** Ids are listed at most once when the order lists them once. */
  lemma {:induction false} MatchingNoDup(l: Links, order: seq<int>, keywords: seq<string>, forceLeaf: bool)
    requires forall k :: k in order ==> k in l.idToAllname
    requires NoDup(order)
    ensures var r := Matching(l, order, keywords, forceLeaf); r.Ok? ==> NoDup(r.value)
    decreases |order|
  {
    if order != [] {
      var front := order[..|order| - 1];
      var k := order[|order| - 1];
      assert NoDup(front) by {
        forall i, j | 0 <= i < j < |front| ensures front[i] != front[j] {
          assert front[i] == order[i] && front[j] == order[j];
        }
      }
      MatchingNoDup(l, front, keywords, forceLeaf);
      MatchingMeaning(l, front, keywords, forceLeaf);
      var r := Matching(l, order, keywords, forceLeaf);
      var prev := Matching(l, front, keywords, forceLeaf);
      if r.Ok? && prev.Ok? && r.value == prev.value + [k] {
        assert k !in front by {
          forall n | 0 <= n < |front| ensures front[n] != k {
            assert front[n] == order[n];
          }
        }
        AppendNoDup(prev.value, k);
      }
    }
  }

  /** The tables as one object. `idOrder` is the key order of `idToAllname`. */
  class RegionIndex {
    var allnameList: seq<string>
    var nameToAllname: map<string, string>
    var allnameToName: map<string, string>
    var idToName: map<int, string>
    var idToAbv: map<int, string>
    var idToAllname: map<int, string>
    var idOrder: seq<int>
    var nameToId: map<string, int>
    var nameToAbv: map<string, string>
    var allnameToId: map<string, int>
    var allnameToParent: map<string, string>
    var nameToParent: map<string, string>
    var allnameToColor: map<string, seq<int>>
    var idToColor: map<int, seq<int>>
    var regionKeys: seq<string>
    var isLeaf: map<string, bool>

    /** The path tables as a value. */
    function LinksOf(): Links
      reads this
    {
      Links(allnameToParent, allnameToId, idToAllname, idOrder, isLeaf)
    }

    /** All tables as a value. */
    function Snapshot(): (ix: Index)
      reads this
      ensures ix.links == LinksOf()
    {
      Index(Names(allnameList, nameToAllname, allnameToName, idToName, idToAbv, nameToId,
                  nameToAbv, nameToParent, allnameToColor, idToColor, regionKeys),
            LinksOf())
    }

    ghost predicate Valid()
      reads this
    {
      Linked(LinksOf())
    }

    /** The tables start empty (lines 4-20). */
    constructor ()
      ensures Snapshot() == EmptyIndex && Valid()
    {
      allnameList, nameToAllname, allnameToName := [], map[], map[];
      idToName, idToAbv, idToAllname, idOrder := map[], map[], map[], [];
      nameToId, nameToAbv, allnameToId, allnameToParent, nameToParent := map[], map[], map[], map[], map[];
      allnameToColor, idToColor, regionKeys, isLeaf := map[], map[], [], map[];
    }

    /** Lines 202-204. */
    method AddName(name: string, path: string)
      modifies this
      ensures Snapshot() == old(Snapshot()).(names := RegisterName(old(Snapshot()).names, name, path))
    {
      allnameList := allnameList + [path];
      nameToAllname := nameToAllname[name := path];
      allnameToName := allnameToName[path := name];
    }

    /** Lines 206, 209, 210 and 215: acronym, id and parent name under the name. */
    method AddAcronym(id: int, name: string, abv: string, lastname: string)
      modifies this
      ensures Snapshot() == old(Snapshot()).(names := RegisterAcronym(old(Snapshot()).names, id, name, abv, lastname))
    {
      idToAbv := idToAbv[id := abv];
      nameToId := nameToId[name := id];
      nameToAbv := nameToAbv[name := abv];
      nameToParent := nameToParent[name := lastname];
    }

    /** Lines 207-208 and 211-214: the id and path entries and the parent
        path; a new id joins the end of the key order of `idToAllname`. */
    method AddLinks(id: int, path: string, lastnameAll: string)
      modifies this
      ensures Snapshot() == old(Snapshot()).(links := RegisterLinks(old(LinksOf()), id, path, lastnameAll))
    {
      if id !in idToAllname { idOrder := idOrder + [id]; }
      idToAllname := idToAllname[id := path];
      allnameToId := allnameToId[path := id];
      allnameToParent := allnameToParent[path := lastnameAll];
    }

    /** Lines 220-222. */
    method AddColor(id: int, name: string, path: string, rgb: seq<int>)
      modifies this
      ensures Snapshot() == old(Snapshot()).(names := RegisterColor(old(Snapshot()).names, id, name, path, rgb))
    {
      allnameToColor := allnameToColor[path := rgb];
      idToColor := idToColor[id := rgb];
      regionKeys := regionKeys + [name];
    }

    /** Lines 202-222: the registrations before the `try`, stopping at the
        first missing key or unreadable colour. */
    method RegisterNode(node: Node, lastnameAll: string, lastname: string) returns (status: Result<()>)
      modifies this
      ensures (Snapshot(), status) == Register(old(Snapshot()), node, lastnameAll, lastname)
    {
      if node.name.None? { return Err(KeyError); }
      var name := node.name.value;
      var path := lastnameAll + "|" + name;
      AddName(name, path);
      if node.id.None? { return Err(KeyError); }
      var id := node.id.value;
      idToName := idToName[id := name];
      if node.acronym.None? { return Err(KeyError); }
      AddAcronym(id, name, node.acronym.value, lastname);
      AddLinks(id, path, lastnameAll);
      if node.colorHex.None? { return Err(KeyError); }
      var rgb := HexToRgb(node.colorHex.value);
      if rgb.Err? { return Err(ValueError); }
      AddColor(id, name, path, rgb.value);
      return Ok(());
    }

    /** `search_children`: registers `node` below the path `lastnameAll`,
        then walks its children; the tables and the outcome are those of
        the walk `Visit`. */
    method SearchChildren(node: Node, lastnameAll: string, lastname: string) returns (status: Result<()>)
      modifies this
      ensures (Snapshot(), status) == Visit(old(Snapshot()), node, lastnameAll, lastname)
      decreases node, 1
    {
      status := RegisterNode(node, lastnameAll, lastname);
      if status.Err? { return; }
      var path := lastnameAll + "|" + node.name.value;
      isLeaf := isLeaf[path := true];
      assert Snapshot() == SetLeaf(Register(old(Snapshot()), node, lastnameAll, lastname).0, path, true);
      status := SearchSiblings(node, path);
      if status == Err(KeyError) { status := Ok(()); }
    }

    /** The loop of `search_children` over the children of `node`, whose path
        is `path`: it stops at the first child that raises; the tables and the
        outcome are those of `VisitFrom`. */
    method SearchSiblings(node: Node, path: string) returns (status: Result<()>)
      requires node.name.Some?
      modifies this
      ensures (Snapshot(), status) == VisitFrom(old(Snapshot()), node, path, 0)
      decreases node, 0
    {
      var i := 0;
      while i < |node.children|
        invariant i <= |node.children|
        invariant VisitFrom(Snapshot(), node, path, i) == VisitFrom(old(Snapshot()), node, path, 0)
      {
        ghost var before := Snapshot();
        var s := SearchChildren(node.children[i], path, node.name.value);
        ghost var after := Snapshot();
        if s.Err? {
          assert VisitFrom(before, node, path, i) == (after, s);
          return s;
        }
        assert VisitFrom(before, node, path, i) == VisitFrom(SetLeaf(after, path, false), node, path, i + 1);
        isLeaf := isLeaf[path := false];
        assert Snapshot() == SetLeaf(after, path, false);
        i := i + 1;
      }
      return Ok(());
    }

    /** The walk from a registered parent (or from the root) keeps the
        tables linked. */
    method SearchChildrenLinked(node: Node, lastnameAll: string, lastname: string) returns (status: Result<()>)
      requires Valid() && (lastnameAll == "" || lastnameAll in allnameToParent)
      modifies this
      ensures Valid()
      ensures (Snapshot(), status) == Visit(old(Snapshot()), node, lastnameAll, lastname)
    {
      VisitLinked(Snapshot(), node, lastnameAll, lastname);
      status := SearchChildren(node, lastnameAll, lastname);
    }

    /** `return_ids_containing_str_list`: the ids, in insertion order, whose
        path contains every keyword ignoring case, restricted to leaves when
        `forceLeaf`; KeyError when a forced leaf flag is missing. */
    method IdsContaining(strList: seq<string>, forceLeaf: bool) returns (r: Result<seq<int>>)
      requires Valid()
      ensures r == Matching(LinksOf(), idOrder, strList, forceLeaf)
    {
      var idList: seq<int> := [];
      var n := 0;
      while n < |idOrder|
        invariant n <= |idOrder|
        invariant Matching(LinksOf(), idOrder[..n], strList, forceLeaf) == Ok(idList)
      {
        assert idOrder[..n + 1][..n] == idOrder[..n];
        var kk := idOrder[n];
        var allname := idToAllname[kk];
        if forceLeaf && allname !in isLeaf {
          assert idOrder[..n + 1] == idOrder[..n] + [kk];
          MatchingPrefixErr(LinksOf(), idOrder, n + 1, strList, forceLeaf);
          assert idOrder[..|idOrder|] == idOrder;
          return Err(KeyError);
        }
        var regionIsIn := true;
        if forceLeaf && !isLeaf[allname] {
          regionIsIn := false;
        } else {
          regionIsIn := KeywordsIn(allname, strList);
        }
        assert regionIsIn == Selected(LinksOf(), kk, strList, forceLeaf);
        assert idOrder[..n + 1] == idOrder[..n] + [kk];
        if regionIsIn { idList := idList + [kk]; }
        n := n + 1;
      }
      assert idOrder[..n] == idOrder;
      r := Ok(idList);
    }
  }

  /** Once a prefix of the order raises, the whole query raises. */
  lemma {:induction false} MatchingPrefixErr(l: Links, order: seq<int>, n: nat, keywords: seq<string>, forceLeaf: bool)
    requires forall k :: k in order ==> k in l.idToAllname
    requires n <= |order| && Matching(l, order[..n], keywords, forceLeaf).Err?
    ensures Matching(l, order, keywords, forceLeaf) == Err(KeyError)
    decreases |order| - n
  {
    if n < |order| {
      assert order[..n + 1][..n] == order[..n];
      MatchingPrefixErr(l, order, n + 1, keywords, forceLeaf);
    } else {
      assert order[..n] == order;
    }
  }

  /** With no keyword and no leaf restriction the query returns every id of
      the order, in order. */
  lemma {:induction false} MatchingAll(l: Links, order: seq<int>)
    requires forall k :: k in order ==> k in l.idToAllname
    ensures Matching(l, order, [], false) == Ok(order)
    decreases |order|
  {
    if order != [] {
      MatchingAll(l, order[..|order| - 1]);
      assert order[..|order| - 1] + [order[|order| - 1]] == order;
    }
  }
}

/** `find_group`: the depth-first flood fill behind the fill tool. Starting
    from one pixel of a 2-D label slice it collects every pixel with the
    requested label that is joined to the start through a chain of pixels
    with that label, moving up, down, left or right. */
module FloodFill {
  import opened Outcomes
  import opened NpUnique

  function Width(image: seq<seq<int>>): nat {
    if |image| == 0 then 0 else |image[0]|
  }

  /** A 2-D array: rows of equal width. */
  predicate Rectangular(image: seq<seq<int>>) {
    forall r :: 0 <= r < |image| ==> |image[r]| == Width(image)
  }

  predicate InBounds(image: seq<seq<int>>, c: Cell) {
    0 <= c.0 < |image| && 0 <= c.1 < Width(image)
  }

  /** At least one pixel away from every edge, so all four neighbours exist. */
  predicate Interior(image: seq<seq<int>>, c: Cell) {
    1 <= c.0 < |image| - 1 && 1 <= c.1 < Width(image) - 1
  }

  predicate HasLabel(image: seq<seq<int>>, c: Cell, id: int) {
    InBounds(image, c) && c.1 < |image[c.0]| && image[c.0][c.1] == id
  }

  /** The k-th neighbour, in the order of the offsets `[0, 1], [0, -1], [1, 0], [-1, 0]`. */
  function Neighbour(c: Cell, k: int): Cell
    requires 0 <= k < 4
  {
    if k == 0 then (c.0, c.1 + 1)
    else if k == 1 then (c.0, c.1 - 1)
    else if k == 2 then (c.0 + 1, c.1)
    else (c.0 - 1, c.1)
  }

  predicate IsNeighbour(c: Cell, n: Cell) {
    n == Neighbour(c, 0) || n == Neighbour(c, 1) || n == Neighbour(c, 2) || n == Neighbour(c, 3)
  }

  /** No pixel of `S` has a neighbour with label `id` outside `S`. */
  ghost predicate Closed(image: seq<seq<int>>, id: int, S: set<Cell>) {
    forall c, n :: c in S && IsNeighbour(c, n) && HasLabel(image, n, id) ==> n in S
  }

  /** A closed set of interior pixels: a region that does not reach the edge. */
  ghost predicate Enclosure(image: seq<seq<int>>, id: int, S: set<Cell>) {
    Closed(image, id, S) && forall c :: c in S ==> Interior(image, c)
  }

  /** `p` is a chain of neighbouring pixels with label `id` from `start` to `c`. */
  predicate PathTo(image: seq<seq<int>>, id: int, start: Cell, c: Cell, p: seq<Cell>) {
    && |p| > 0 && p[0] == start && p[|p| - 1] == c
    && (forall k :: 0 <= k < |p| ==> HasLabel(image, p[k], id))
    && (forall k :: 0 <= k < |p| - 1 ==> IsNeighbour(p[k], p[k + 1]))
  }

  ghost predicate Reachable(image: seq<seq<int>>, id: int, start: Cell, c: Cell) {
    exists p :: PathTo(image, id, start, c, p)
  }

  lemma ExtendPath(image: seq<seq<int>>, id: int, start: Cell, d: Cell, c: Cell, p: seq<Cell>)
    requires PathTo(image, id, start, d, p)
    requires IsNeighbour(d, c) && HasLabel(image, c, id)
    ensures PathTo(image, id, start, c, p + [c])
  {
  }

  /** Every pixel reachable from a pixel of a closed set lies in that set. */
  lemma {:induction false} PathInClosed(image: seq<seq<int>>, id: int, start: Cell, c: Cell, p: seq<Cell>, S: set<Cell>)
    requires PathTo(image, id, start, c, p)
    requires start in S && Closed(image, id, S)
    ensures c in S
    decreases |p|
  {
    if |p| > 1 {
      var q := p[..|p| - 1];
      PathInClosed(image, id, start, q[|q| - 1], q, S);
      assert IsNeighbour(q[|q| - 1], c);
    }
  }

  /** The labelled region reachable from a pixel is the least closed set
      holding that pixel: it lies inside every enclosure that holds it. */
  lemma RegionWithinEnclosure(image: seq<seq<int>>, id: int, start: Cell, c: Cell, S: set<Cell>)
    requires Reachable(image, id, start, c)
    requires start in S && Closed(image, id, S)
    ensures c in S
  {
    var p :| PathTo(image, id, start, c, p);
    PathInClosed(image, id, start, c, p, S);
  }

  /** A pixel waiting on the stack was pushed by a pixel of the group. */
  ghost predicate Parented(group: seq<Cell>, c: Cell) {
    exists d :: d in group && IsNeighbour(d, c)
  }

  /** What holds of the stack between two passes of the `while` loop: no pixel
      twice, none explored yet, each inside the image, inside the enclosure if
      it carries the label, and either the start or pushed by the group. */
  ghost predicate StackOk(image: seq<seq<int>>, id: int, position: Cell, enclosure: set<Cell>,
                          seen: set<Cell>, stack: seq<Cell>, group: seq<Cell>) {
    && NoDup(stack)
    && (forall k :: 0 <= k < |stack| ==> InBounds(image, stack[k]) && stack[k] !in seen)
    && (forall k :: 0 <= k < |stack| ==> HasLabel(image, stack[k], id) ==> stack[k] in enclosure)
    && (forall k :: 0 <= k < |stack| ==> stack[k] == position || Parented(group, stack[k]))
  }

  /** What holds of the group: no pixel twice, each explored, labelled, inside
      the enclosure and reached from the start by a recorded path. */
  ghost predicate GroupOk(image: seq<seq<int>>, id: int, position: Cell, enclosure: set<Cell>,
                          seen: set<Cell>, group: seq<Cell>, paths: map<Cell, seq<Cell>>) {
    && NoDup(group)
    && (forall k :: 0 <= k < |group| ==> group[k] in seen && group[k] in enclosure && HasLabel(image, group[k], id))
    && (forall k :: 0 <= k < |group| ==> group[k] in paths)
    && (forall c :: c in paths ==> PathTo(image, id, position, c, paths[c]))
  }

  /** The search frontier: every explored labelled pixel is in the group, and
      every neighbour of the group is explored or waiting. */
  ghost predicate FrontierOk(image: seq<seq<int>>, id: int, position: Cell,
                             seen: set<Cell>, stack: seq<Cell>, group: seq<Cell>) {
    && (position in seen || position in stack)
    && (forall c :: c in seen && HasLabel(image, c, id) ==> c in group)
    && (forall c, n :: c in group && IsNeighbour(c, n) ==> n in seen || n in stack)
  }

  ghost predicate SearchOk(image: seq<seq<int>>, id: int, position: Cell, enclosure: set<Cell>,
                           seen: set<Cell>, stack: seq<Cell>, group: seq<Cell>, paths: map<Cell, seq<Cell>>) {
    && StackOk(image, id, position, enclosure, seen, stack, group)
    && GroupOk(image, id, position, enclosure, seen, group, paths)
    && FrontierOk(image, id, position, seen, stack, group)
  }

  /** The pixel that pops off the stack is inside the image and not yet
      explored, what is left of the stack has no pixel twice, and a popped
      pixel with the label lies in the enclosure and has a path from the start. */
  lemma Popped(image: seq<seq<int>>, id: int, position: Cell, enclosure: set<Cell>,
               seen: set<Cell>, stack: seq<Cell>, group: seq<Cell>, paths: map<Cell, seq<Cell>>)
    returns (p: seq<Cell>)
    requires Enclosure(image, id, enclosure)
    requires SearchOk(image, id, position, enclosure, seen, stack, group, paths)
    requires |stack| > 0
    ensures InBounds(image, stack[|stack| - 1]) && stack[|stack| - 1] !in seen
    ensures NoDup(stack[..|stack| - 1])
    ensures HasLabel(image, stack[|stack| - 1], id) ==>
              Interior(image, stack[|stack| - 1]) && PathTo(image, id, position, stack[|stack| - 1], p)
  {
    var current := stack[|stack| - 1];
    if current == position || !HasLabel(image, current, id) {
      p := [current];
    } else {
      assert Parented(group, current);
      var d :| d in group && IsNeighbour(d, current);
      ExtendPath(image, id, position, d, current, paths[d]);
      p := paths[d] + [current];
    }
  }

  /** Marking the popped pixel explored adds it to `seen` and takes one pixel
      off the unexplored part of the image. */
  method MarkExplored(explored: array2<bool>, current: Cell, ghost seen: set<Cell>, ghost all: set<Cell>)
    requires 0 <= current.0 < explored.Length0 && 0 <= current.1 < explored.Length1
    requires current in all && current !in seen
    requires forall r, c :: 0 <= r < explored.Length0 && 0 <= c < explored.Length1 ==> (explored[r, c] <==> (r, c) in seen)
    modifies explored
    ensures forall r, c :: 0 <= r < explored.Length0 && 0 <= c < explored.Length1 ==> (explored[r, c] <==> (r, c) in seen + {current})
    ensures |all - (seen + {current})| < |all - seen|
  {
    explored[current.0, current.1] := true;
    assert all - (seen + {current}) == (all - seen) - {current};
  }

  /** Popping a pixel without the label only marks it explored. */
  lemma PopUnlabelled(image: seq<seq<int>>, id: int, position: Cell, enclosure: set<Cell>,
                      seen: set<Cell>, stack: seq<Cell>, group: seq<Cell>, paths: map<Cell, seq<Cell>>)
    requires SearchOk(image, id, position, enclosure, seen, stack, group, paths)
    requires |stack| > 0 && !HasLabel(image, stack[|stack| - 1], id)
    ensures SearchOk(image, id, position, enclosure, seen + {stack[|stack| - 1]}, stack[..|stack| - 1], group, paths)
  {
    var current, rest := stack[|stack| - 1], stack[..|stack| - 1];
    assert stack == rest + [current];
    forall k | 0 <= k < |rest| ensures rest[k] != current {
      assert rest[k] == stack[k];
    }
  }

  /** Popping a labelled pixel adds it to the group and pushes its unexplored
      neighbours; `next` is the stack after the pushes. */
  lemma PopLabelled(image: seq<seq<int>>, id: int, position: Cell, enclosure: set<Cell>,
                    seen: set<Cell>, stack: seq<Cell>, group: seq<Cell>, paths: map<Cell, seq<Cell>>,
                    p: seq<Cell>, next: seq<Cell>)
    requires Enclosure(image, id, enclosure)
    requires SearchOk(image, id, position, enclosure, seen, stack, group, paths)
    requires |stack| > 0 && HasLabel(image, stack[|stack| - 1], id)
    requires PathTo(image, id, position, stack[|stack| - 1], p)
    requires var rest := stack[..|stack| - 1];
             && |next| >= |rest| && next[..|rest|] == rest && NoDup(next)
             && (forall m :: |rest| <= m < |next| ==>
                   IsNeighbour(stack[|stack| - 1], next[m]) && InBounds(image, next[m])
                   && next[m] !in seen + {stack[|stack| - 1]})
             && (forall n :: IsNeighbour(stack[|stack| - 1], n) ==> n in seen + {stack[|stack| - 1]} || n in next)
    ensures var current := stack[|stack| - 1];
            SearchOk(image, id, position, enclosure, seen + {current}, next, group + [current], paths[current := p])
  {
    var current, rest := stack[|stack| - 1], stack[..|stack| - 1];
    var seen', group', paths' := seen + {current}, group + [current], paths[current := p];
    assert stack == rest + [current];
    assert current in enclosure;
    forall k | 0 <= k < |rest| ensures rest[k] != current {
      assert rest[k] == stack[k];
    }
    assert StackOk(image, id, position, enclosure, seen', next, group') by {
      forall k | 0 <= k < |next|
        ensures InBounds(image, next[k]) && next[k] !in seen'
        ensures HasLabel(image, next[k], id) ==> next[k] in enclosure
        ensures next[k] == position || Parented(group', next[k])
      {
        if k < |rest| {
          assert next[k] == rest[k] == stack[k];
          if next[k] != position {
            assert Parented(group, next[k]);
            var d :| d in group && IsNeighbour(d, next[k]);
            assert d in group';
          }
        } else {
          assert current in group';
        }
      }
    }
    assert GroupOk(image, id, position, enclosure, seen', group', paths') by {
      assert forall k :: 0 <= k < |group| ==> group'[k] == group[k];
      forall k | 0 <= k < |group| ensures group[k] != current {
        assert group[k] in seen;
      }
    }
    assert FrontierOk(image, id, position, seen', next, group') by {
      forall k | 0 <= k < |rest| ensures rest[k] in next {
        assert next[k] == rest[k];
      }
      forall c, n | c in group' && IsNeighbour(c, n) ensures n in seen' || n in next {
        if c != current {
          assert n in seen || n in stack;
          if n in stack && n != current {
            var k :| 0 <= k < |stack| && stack[k] == n;
            assert rest[k] == n;
          }
        }
      }
      if position !in seen' {
        var k :| 0 <= k < |stack| && stack[k] == position;
        assert rest[k] == position;
      }
    }
  }

  /** The `for` loop over the four offsets: each neighbour not yet explored and
      not already waiting is pushed onto the stack. `seen` is the set of
      pixels `explored` marks. */
  method PushNeighbours(explored: array2<bool>, toExplore: seq<Cell>, current: Cell,
                        ghost image: seq<seq<int>>, ghost seen: set<Cell>)
    returns (next: seq<Cell>)
    requires explored.Length0 == |image| && explored.Length1 == Width(image)
    requires forall r, c :: 0 <= r < |image| && 0 <= c < Width(image) ==> (explored[r, c] <==> (r, c) in seen)
    requires Interior(image, current)
    requires NoDup(toExplore)
    ensures |next| >= |toExplore| && next[..|toExplore|] == toExplore && NoDup(next)
    ensures forall m :: |toExplore| <= m < |next| ==>
              IsNeighbour(current, next[m]) && InBounds(image, next[m]) && next[m] !in seen
    ensures forall n :: IsNeighbour(current, n) ==> n in seen || n in next
  {
    next := toExplore;
    for k := 0 to 4
      invariant |next| >= |toExplore| && next[..|toExplore|] == toExplore && NoDup(next)
      invariant forall m :: |toExplore| <= m < |next| ==>
                  IsNeighbour(current, next[m]) && InBounds(image, next[m]) && next[m] !in seen
      invariant forall k' :: 0 <= k' < k ==> Neighbour(current, k') in seen || Neighbour(current, k') in next
    {
      var newVox := Neighbour(current, k);
      if !explored[newVox.0, newVox.1] && newVox !in next {
        next := next + [newVox];
      }
    }
  }

  /** One pass of the `while` loop: pop the top of the stack, mark it
      explored, and if it carries the label append it to the group and push
      its neighbours. */
  method ExploreTop(explored: array2<bool>, toExplore: seq<Cell>, group: seq<Cell>,
                    image: seq<seq<int>>, position: Cell, idReg: int, ghost enclosure: set<Cell>,
                    ghost seen: set<Cell>, ghost all: set<Cell>, ghost paths: map<Cell, seq<Cell>>)
    returns (toExplore': seq<Cell>, group': seq<Cell>, ghost seen': set<Cell>, ghost paths': map<Cell, seq<Cell>>)
    requires Rectangular(image) && Enclosure(image, idReg, enclosure)
    requires explored.Length0 == |image| && explored.Length1 == Width(image)
    requires forall r, c :: 0 <= r < |image| && 0 <= c < Width(image) ==> (explored[r, c] <==> (r, c) in seen)
    requires seen <= all && |toExplore| > 0
    requires forall c :: InBounds(image, c) ==> c in all
    requires SearchOk(image, idReg, position, enclosure, seen, toExplore, group, paths)
    modifies explored
    ensures forall r, c :: 0 <= r < |image| && 0 <= c < Width(image) ==> (explored[r, c] <==> (r, c) in seen')
    ensures seen' == seen + {toExplore[|toExplore| - 1]} && |all - seen'| < |all - seen|
    ensures SearchOk(image, idReg, position, enclosure, seen', toExplore', group', paths')
  {
    var current := toExplore[|toExplore| - 1];
    ghost var p := Popped(image, idReg, position, enclosure, seen, toExplore, group, paths);
    toExplore' := toExplore[..|toExplore| - 1];
    assert current in all;
    MarkExplored(explored, current, seen, all);
    seen' := seen + {current};
    if image[current.0][current.1] == idReg {
      toExplore' := PushNeighbours(explored, toExplore', current, image, seen');
      PopLabelled(image, idReg, position, enclosure, seen, toExplore, group, paths, p, toExplore');
      group', paths' := group + [current], paths[current := p];
    } else {
      PopUnlabelled(image, idReg, position, enclosure, seen, toExplore, group, paths);
      group', paths' := group, paths;
    }
  }

  /** With the stack empty the group is the whole region: closed, holding the
      start if it carries the label, and reached from the start. */
  lemma SearchDone(image: seq<seq<int>>, id: int, position: Cell, enclosure: set<Cell>,
                   seen: set<Cell>, group: seq<Cell>, paths: map<Cell, seq<Cell>>)
    requires SearchOk(image, id, position, enclosure, seen, [], group, paths)
    requires Enclosure(image, id, enclosure)
    ensures NoDup(group)
    ensures forall k :: 0 <= k < |group| ==> HasLabel(image, group[k], id)
    ensures forall c :: c in group <==> Reachable(image, id, position, c)
  {
    var S := set d | d in group;
    forall c | Reachable(image, id, position, c) ensures c in group {
      var p :| PathTo(image, id, position, c, p);
      assert position in seen && HasLabel(image, position, id);
      PathInClosed(image, id, position, c, p, S);
    }
    forall c | c in group ensures Reachable(image, id, position, c) {
      var k :| 0 <= k < |group| && group[k] == c;
      assert PathTo(image, id, position, c, paths[c]);
    }
  }

  /** `find_group(image, position, id_reg)`: the pixels of the region of label
      `id_reg` that holds `position`, each once, in the order the depth-first
      search reaches them. The ghost `enclosure` witnesses that the region
      stays off the edge of the slice. */
  method FindGroup(image: seq<seq<int>>, position: Cell, idReg: int, ghost enclosure: set<Cell>)
    returns (group: seq<Cell>)
    requires Rectangular(image) && InBounds(image, position)
    requires Enclosure(image, idReg, enclosure)
    requires HasLabel(image, position, idReg) ==> position in enclosure
    ensures NoDup(group)
    ensures forall k :: 0 <= k < |group| ==> HasLabel(image, group[k], idReg)
    ensures forall c :: c in group <==> Reachable(image, idReg, position, c)
  {
    var explored := new bool[|image|, Width(image)]((_, _) => false);
    var toExplore := [position];
    group := [];
    ghost var seen: set<Cell> := {};
    ghost var all := set r, c | 0 <= r < |image| && 0 <= c < Width(image) :: (r, c);
    ghost var paths: map<Cell, seq<Cell>> := map[];
    while |toExplore| > 0
      invariant explored.Length0 == |image| && explored.Length1 == Width(image)
      invariant forall r, c :: 0 <= r < |image| && 0 <= c < Width(image) ==> (explored[r, c] <==> (r, c) in seen)
      invariant seen <= all
      invariant SearchOk(image, idReg, position, enclosure, seen, toExplore, group, paths)
      decreases |all - seen|
    {
      toExplore, group, seen, paths := ExploreTop(explored, toExplore, group, image, position, idReg, enclosure, seen, all, paths);
    }
    SearchDone(image, idReg, position, enclosure, seen, group, paths);
  }
}

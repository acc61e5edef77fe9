/** `np.unique`: the distinct elements of an array in ascending order, for a
    one-dimensional integer array and, with `axis=0`, for an array of 2-D integer
    rows (ordered lexicographically). */
module NpUnique {

  predicate Ascending(s: seq<int>) {
    forall i, j :: 0 <= i < j < |s| ==> s[i] < s[j]
  }

  function InsertInt(x: int, s: seq<int>): (r: seq<int>)
    requires Ascending(s)
    ensures Ascending(r)
    ensures forall y :: y in r <==> y == x || y in s
  {
    if s == [] then [x]
    else if x < s[0] then [x] + s
    else if x == s[0] then s
    else
      var t := InsertInt(x, s[1..]);
      assert forall k :: 0 <= k < |t| ==> s[0] < t[k] by {
        forall k | 0 <= k < |t| ensures s[0] < t[k] {
          assert t[k] in t;
          if t[k] != x {
            var m :| 0 <= m < |s[1..]| && s[1..][m] == t[k];
            assert s[m + 1] == t[k];
          }
        }
      }
      [s[0]] + t
  }

  /** `np.unique(s)` */
  function Unique(s: seq<int>): (r: seq<int>)
    ensures Ascending(r)
    ensures forall y :: y in r <==> y in s
  {
    if s == [] then [] else InsertInt(s[|s| - 1], Unique(s[..|s| - 1]))
  }

  type Cell = (int, int)

  /** Lexicographic order on rows, the order `np.unique(..., axis=0)` sorts by. */
  predicate RowLess(p: Cell, q: Cell) {
    p.0 < q.0 || (p.0 == q.0 && p.1 < q.1)
  }

  predicate AscendingRows(s: seq<Cell>) {
    forall i, j :: 0 <= i < j < |s| ==> RowLess(s[i], s[j])
  }

  function InsertRow(x: Cell, s: seq<Cell>): (r: seq<Cell>)
    requires AscendingRows(s)
    ensures AscendingRows(r)
    ensures forall y :: y in r <==> y == x || y in s
  {
    if s == [] then [x]
    else if RowLess(x, s[0]) then [x] + s
    else if x == s[0] then s
    else
      assert RowLess(s[0], x);
      var t := InsertRow(x, s[1..]);
      assert forall k :: 0 <= k < |t| ==> RowLess(s[0], t[k]) by {
        forall k | 0 <= k < |t| ensures RowLess(s[0], t[k]) {
          assert t[k] in t;
          if t[k] != x {
            var m :| 0 <= m < |s[1..]| && s[1..][m] == t[k];
            assert s[m + 1] == t[k];
          }
        }
      }
      [s[0]] + t
  }

  /** `np.unique(s, axis=0)` */
  function UniqueRows(s: seq<Cell>): (r: seq<Cell>)
    ensures AscendingRows(r)
    ensures forall y :: y in r <==> y in s
  {
    if s == [] then [] else InsertRow(s[|s| - 1], UniqueRows(s[..|s| - 1]))
  }
}

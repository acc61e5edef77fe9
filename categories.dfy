/** The six annotation categories of the cerebellum editor, their numeric
    codes and display colours, the projection of region ids onto codes and
    the way codes are written back as region ids. */
module Categories {
  import opened Outcomes

  /** The keys of the category dictionaries, in their insertion order. */
  datatype Category = Out | Fib | Prot | Mol | Gl | Corrected

  const Order: seq<Category> := [Out, Fib, Prot, Mol, Gl, Corrected]

  /** The code of a category. */
  function Number(k: Category): (n: int)
    ensures 0 <= n <= 5 && Order[n] == k
  {
    match k
    case Out => 0
    case Fib => 1
    case Prot => 2
    case Mol => 3
    case Gl => 4
    case Corrected => 5
  }

  /** The dictionary key of a category. */
  function Name(k: Category): string {
    match k
    case Out => "out"
    case Fib => "fib"
    case Prot => "prot"
    case Mol => "mol"
    case Gl => "gl"
    case Corrected => "corrected"
  }

  type Rgb = (int, int, int)

  /** The colour of a category: one unit per channel, scaled by 77 when drawn. */
  function Colour(k: Category): Rgb {
    match k
    case Mol => (0, 1, 0)
    case Gl => (1, 0, 0)
    case Fib => (0, 0, 1)
    case Out => (0, 0, 0)
    case Prot => (1, 0, 1)
    case Corrected => (1, 1, 0)
  }

  /** The first key, in dictionary order, whose code is `code`. */
  function KeyOf(code: int): (r: Option<Category>)
    ensures r.Some? <==> 0 <= code <= 5
    ensures r.Some? ==> Number(r.value) == code
  {
    if 0 <= code <= 5 then Some(Order[code]) else None
  }

  lemma KeyOfNumber(k: Category)
    ensures KeyOf(Number(k)) == Some(k)
  {
  }

  /** Region id `region` is in the id list of category `k`. */
  predicate Listed(region: int, d: map<string, seq<int>>, k: Category) {
    Name(k) in d && region in d[Name(k)]
  }

  /** The projection after the keys `Order[..n]`: 0 for labels that are not
      positive, -1 for the others, then each listed key overwrites in turn. */
  function CodeUpTo(region: int, d: map<string, seq<int>>, n: nat): (c: int)
    requires n <= 6
    ensures -1 <= c <= 5
  {
    if n == 0 then (if region > 0 then -1 else 0)
    else if Listed(region, d, Order[n - 1]) then n - 1
    else CodeUpTo(region, d, n - 1)
  }

  /** The code a region id is projected to. */
  function Code(region: int, d: map<string, seq<int>>): (c: int)
    ensures -1 <= c <= 5
  {
    CodeUpTo(region, d, 6)
  }

  /** The code is that of the last key listing the region; a region no key lists
      is -1 when positive and 0 otherwise. */
  lemma {:induction false} CodeUpToMeaning(region: int, d: map<string, seq<int>>, n: nat)
    requires n <= 6
    ensures forall i :: 0 <= i < n && Listed(region, d, Order[i]) && (forall j :: i < j < n ==> !Listed(region, d, Order[j])) ==>
              CodeUpTo(region, d, n) == i
    ensures (forall i :: 0 <= i < n ==> !Listed(region, d, Order[i])) ==>
              CodeUpTo(region, d, n) == if region > 0 then -1 else 0
  {
    if n > 0 {
      CodeUpToMeaning(region, d, n - 1);
    }
  }

  lemma CodeMeaning(region: int, d: map<string, seq<int>>)
    ensures forall k :: Listed(region, d, k) && (forall j :: Number(k) < j < 6 ==> !Listed(region, d, Order[j])) ==>
              Code(region, d) == Number(k)
    ensures (forall k :: !Listed(region, d, k)) ==> Code(region, d) == if region > 0 then -1 else 0
  {
    CodeUpToMeaning(region, d, 6);
    if forall k :: !Listed(region, d, k) {
      assert forall i :: 0 <= i < 6 ==> !Listed(region, d, Order[i]);
    }
  }

  /** The colour drawn for a voxel with code `code` over a grey level `base`:
      the colour of its category, or the grey level for a code of no
      category. */
  function Tint(base: int, code: int): Rgb {
    match KeyOf(code)
    case None => (base, base, base)
    case Some(k) => Colourise(base, k)
  }

  /** Each channel of the grey level raised by 77 times the category colour
      and clipped at 255. */
  function Colourise(base: int, k: Category): Rgb {
    var (r, g, b) := Colour(k);
    (Clip(base + 77 * r), Clip(base + 77 * g), Clip(base + 77 * b))
  }

  function Clip(x: int): int {
    if x < 255 then x else 255
  }

  /** On a grey level of the byte range, every channel of a tint stays in the
      byte range, is at least the grey level, and is the grey level itself
      exactly where the category colour has no component. */
  lemma TintRange(base: int, code: int)
    requires 0 <= base <= 255
    ensures var (r, g, b) := Tint(base, code);
            && base <= r <= 255 && base <= g <= 255 && base <= b <= 255
            && (KeyOf(code).Some? && base < 255 ==>
                  var c := Colour(KeyOf(code).value);
                  (r == base <==> c.0 == 0) && (g == base <==> c.1 == 0) && (b == base <==> c.2 == 0))
  {
  }

  /** The first region id of mol, gl and fib stored at their codes, 0 elsewhere. */
  function InvIds(d: map<string, seq<int>>): (inv: seq<int>)
    requires "mol" in d && "gl" in d && "fib" in d
    requires |d["mol"]| > 0 && |d["gl"]| > 0 && |d["fib"]| > 0
    ensures |inv| == 6
    ensures forall k :: inv[Number(k)] == if k in {Mol, Gl, Fib} then d[Name(k)][0] else 0
  {
    [0, d["fib"][0], 0, d["mol"][0], d["gl"][0], 0]
  }

  /** The region id a code is written back as; the code -1 indexes the last
      slot, as a negative numpy index does. */
  function Commit(inv: seq<int>, code: int): int
    requires |inv| == 6 && -1 <= code <= 5
  {
    inv[if code < 0 then code + 6 else code]
  }

  /** Writing back a mol, gl or fib voxel and projecting the id again gives
      the same code, as long as no later key also lists that id; writing back
      any other code gives the background id 0, projected to 0 when no key
      lists it. */
  lemma CommitProjects(d: map<string, seq<int>>, code: int)
    requires "mol" in d && "gl" in d && "fib" in d
    requires |d["mol"]| > 0 && |d["gl"]| > 0 && |d["fib"]| > 0
    requires -1 <= code <= 5
    ensures code in {1, 3, 4} ==>
              var id := Commit(InvIds(d), code);
              (forall j :: code < j < 6 ==> !Listed(id, d, Order[j])) ==> Code(id, d) == code
    ensures code !in {1, 3, 4} ==>
              Commit(InvIds(d), code) == 0 && ((forall k :: !Listed(0, d, k)) ==> Code(0, d) == 0)
  {
    var inv := InvIds(d);
    if code in {1, 3, 4} {
      var k := Order[code];
      assert inv[Number(k)] == d[Name(k)][0];
      CodeMeaning(inv[code], d);
    } else {
      assert code == -1 || Order[code] in {Out, Prot, Corrected};
      CodeMeaning(0, d);
    }
  }
}

/** Colour conversions of the region hierarchy: `hex_to_rgb` and `rgb2hex`. */
module Colors {
  import opened Outcomes
  import opened Text

  /** `value.lstrip('#')`: drops every leading '#'. */
  function LStripHash(s: string): (r: string)
    ensures |r| <= |s| && r == s[|s| - |r|..]
    ensures r == [] || r[0] != '#'
    ensures forall i :: 0 <= i < |s| - |r| ==> s[i] == '#'
  {
    if |s| > 0 && s[0] == '#' then
      var t := LStripHash(s[1..]);
      assert forall i :: 1 <= i < |s| - |t| ==> s[i] == s[1..][i - 1];
      t
    else s
  }

  predicate AllHex(s: string) {
    forall i :: 0 <= i < |s| ==> IsHexDigit(s[i])
  }

  /** The value of the hexadecimal digits of `s`, most significant first;
      any other character (an underscore of a grouped literal) is skipped. */
  function DigitsValue(s: string): nat {
    if |s| == 0 then 0
    else match HexVal(s[|s| - 1])
      case None => DigitsValue(s[..|s| - 1])
      case Some(v) => 16 * DigitsValue(s[..|s| - 1]) + v
  }

  /** The ASCII characters Python counts as whitespace: tab, line feed, vertical
      tab, form feed, carriage return, the separators 0x1c-0x1f and the space. */
  predicate IsSpace(c: char) {
    9 <= c as int <= 13 || 28 <= c as int <= 32
  }

  /** `s` without its trailing whitespace. */
  function StripEnd(s: string): string {
    if |s| > 0 && IsSpace(s[|s| - 1]) then StripEnd(s[..|s| - 1]) else s
  }

  /** Stripping the end keeps a prefix that reaches past every character that
      is not whitespace. */
  lemma {:induction false} StripEndKeeps(s: string)
    ensures |StripEnd(s)| <= |s| && StripEnd(s) == s[..|StripEnd(s)|]
    ensures forall i :: 0 <= i < |s| && !IsSpace(s[i]) ==> i < |StripEnd(s)|
    decreases |s|
  {
    if |s| > 0 && IsSpace(s[|s| - 1]) {
      StripEndKeeps(s[..|s| - 1]);
      assert s[..|s| - 1][..|StripEnd(s)|] == s[..|StripEnd(s)|];
    }
  }

  /** Hexadecimal digits with single underscores between them: no leading,
      trailing or doubled underscore. */
  predicate Grouped(d: string) {
    && |d| > 0 && IsHexDigit(d[0])
    && (|d| == 1 || if d[1] == '_' then |d| >= 3 && Grouped(d[2..]) else Grouped(d[1..]))
  }

  /** The sign of a literal `t` without surrounding whitespace, and its digit
      part without sign and `0x` prefix (and the one underscore the prefix may
      be followed by). */
  function Literal(t: string): (bool, string) {
    var signed := |t| > 0 && (t[0] == '+' || t[0] == '-');
    var u := if signed then t[1..] else t;
    var d := if |u| >= 2 && u[0] == '0' && (u[1] == 'x' || u[1] == 'X')
             then (if |u| >= 3 && u[2] == '_' then u[3..] else u[2..])
             else u;
    (signed && t[0] == '-', d)
  }

  /** `int(s, 16)`: leading whitespace is skipped; then come an optional sign,
      an optional `0x` or `0X` prefix that one underscore may follow, and
      hexadecimal digits of either case with single underscores between them,
      followed by nothing but whitespace. Anything else is a ValueError. */
  function ParseHex(s: string): Result<int>
    decreases |s|
  {
    if |s| > 0 && IsSpace(s[0]) then ParseHex(s[1..])
    else
      var (negative, d) := Literal(StripEnd(s));
      var n: int := DigitsValue(d);
      if !Grouped(d) then Err(ValueError) else Ok(if negative then -n else n)
  }

  /** A non-empty string of digits is grouped. */
  lemma {:induction false} AllHexGrouped(s: string)
    requires |s| > 0 && AllHex(s)
    ensures Grouped(s)
  {
    if |s| > 1 {
      AllHexGrouped(s[1..]);
    }
  }

  /** A non-empty string of digits reads as its value, which is never negative. */
  lemma ParseDigits(s: string)
    requires |s| > 0 && AllHex(s)
    ensures ParseHex(s) == Ok(DigitsValue(s)) && ParseHex(s).value >= 0
  {
    AllHexGrouped(s);
    assert !IsSpace(s[0]) && StripEnd(s) == s;
    assert !IsHexDigit('x') && !IsHexDigit('X');
    assert Literal(s) == (false, s);
  }

  /** A sign or a `0x` prefix before digits, and whitespace around them,
      are accepted. */
  lemma ParseHexAccepts(s: string)
    requires |s| > 0 && AllHex(s)
    ensures ParseHex("-" + s) == Ok(-(DigitsValue(s) as int))
    ensures ParseHex("0x" + s) == Ok(DigitsValue(s))
    ensures ParseHex(" " + s + "\n") == Ok(DigitsValue(s))
  {
    AllHexGrouped(s);
    NegatedDigits(s);
    PrefixedDigits(s);
    SpacedDigits(s);
  }

  lemma NegatedDigits(s: string)
    requires |s| > 0 && AllHex(s) && Grouped(s)
    ensures ParseHex("-" + s) == Ok(-(DigitsValue(s) as int))
  {
    var m := "-" + s;
    assert StripEnd(m) == m && m[1..] == s;
    assert !(|s| >= 2 && s[0] == '0' && (s[1] == 'x' || s[1] == 'X')) by {
      assert !IsHexDigit('x') && !IsHexDigit('X');
    }
    assert Literal(m) == (true, s);
  }

  lemma PrefixedDigits(s: string)
    requires |s| > 0 && AllHex(s) && Grouped(s)
    ensures ParseHex("0x" + s) == Ok(DigitsValue(s))
  {
    var x := "0x" + s;
    assert StripEnd(x) == x && x[2..] == s;
    assert s[0] != '_' by { assert !IsHexDigit('_'); }
    assert Literal(x) == (false, s);
  }

  lemma SpacedDigits(s: string)
    requires |s| > 0 && AllHex(s) && Grouped(s)
    ensures ParseHex(" " + s + "\n") == Ok(DigitsValue(s))
  {
    var w := " " + s + "\n";
    assert !IsSpace(s[0]) && !IsSpace(s[|s| - 1]);
    assert w[1..] == s + "\n";
    assert (s + "\n")[..|s|] == s && StripEnd(s) == s;
    assert StripEnd(s + "\n") == s;
    assert !(|s| >= 2 && s[0] == '0' && (s[1] == 'x' || s[1] == 'X')) by {
      assert !IsHexDigit('x') && !IsHexDigit('X');
    }
    assert Literal(s) == (false, s);
  }

  /** A leading or trailing underscore and two underscores after the prefix
      are refused. */
  lemma ParseHexRefuses(s: string)
    requires |s| > 0 && AllHex(s)
    ensures ParseHex("_" + s).Err? && ParseHex(s + "_").Err? && ParseHex("0x__" + s).Err?
  {
    LeadingUnderscore(s);
    TrailingDigits(s);
    DoubleUnderscore(s);
  }

  lemma LeadingUnderscore(s: string)
    ensures ParseHex("_" + s).Err?
  {
    var l := "_" + s;
    StripEndKeeps(l);
    assert StripEnd(l)[0] == '_';
    assert !IsHexDigit('_');
  }

  lemma TrailingDigits(s: string)
    requires |s| > 0 && AllHex(s)
    ensures ParseHex(s + "_").Err?
  {
    var t := s + "_";
    assert !IsSpace(s[0]) && t[0] == s[0] && StripEnd(t) == t;
    assert !(|t| >= 2 && t[0] == '0' && (t[1] == 'x' || t[1] == 'X')) by {
      assert !IsHexDigit('x') && !IsHexDigit('X');
      if |s| == 1 { assert t[1] == '_'; } else { assert t[1] == s[1]; }
    }
    assert Literal(t) == (false, t);
    TrailingUnderscore(s);
  }

  lemma DoubleUnderscore(s: string)
    ensures ParseHex("0x__" + s).Err?
  {
    var x := "0x__" + s;
    StripEndKeeps(x);
    assert !IsSpace('_') && x[3] == '_';
    assert StripEnd(x)[..4] == "0x__";
    assert Literal(StripEnd(x)).1[0] == '_';
    assert !IsHexDigit('_');
  }

  /** A literal without digits is refused. */
  lemma ParseHexEmpty()
    ensures ParseHex("").Err? && ParseHex("0x").Err? && ParseHex("-").Err? && ParseHex(" ").Err?
  {
    assert StripEnd("0x") == "0x" && StripEnd("-") == "-";
    assert ParseHex(" ") == ParseHex("");
  }

  /** A literal that ends in an underscore is not grouped. */
  lemma {:induction false} TrailingUnderscore(s: string)
    ensures !Grouped(s + "_")
    decreases |s|
  {
    if |s| >= 2 {
      if s[1] == '_' {
        assert (s + "_")[2..] == s[2..] + "_";
        TrailingUnderscore(s[2..]);
      } else {
        assert (s + "_")[1..] == s[1..] + "_";
        TrailingUnderscore(s[1..]);
      }
    }
  }

  /** The slices `v[i:i + step]` for `i` in `range(start, len(v), step)`. */
  function Chunks(v: string, step: nat, start: nat): (r: seq<string>)
    requires step > 0
    decreases |v| - start
  {
    if start >= |v| then []
    else [v[start .. if start + step <= |v| then start + step else |v|]] + Chunks(v, step, start + step)
  }

  /** The pieces are non-empty and, put back together, give `v[start:]`. */
  lemma {:induction false} ChunksCover(v: string, step: nat, start: nat)
    requires step > 0
    ensures var r := Chunks(v, step, start);
      && (start <= |v| ==> Flatten(r) == v[start..])
      && (forall k :: 0 <= k < |r| ==> |r[k]| > 0)
    decreases |v| - start
  {
    if start < |v| {
      ChunksCover(v, step, start + step);
      var e := Min(start + step, |v|);
      var r := Chunks(v, step, start);
      var rest := Chunks(v, step, start + step);
      assert r == [v[start .. e]] + rest;
      assert r[1..] == rest;
      if start + step <= |v| {
        assert Flatten(rest) == v[start + step..];
      } else {
        assert rest == [];
      }
      assert v[start..] == v[start .. e] + v[e..];
      forall k | 0 <= k < |r| ensures |r[k]| > 0 {
        if k > 0 { assert r[k] == rest[k - 1]; }
      }
    }
  }

  /** There is a piece for every start before the end of `v` and none
      beyond: the last piece starts before the end, the next would not. */
  lemma {:induction false} ChunkCount(v: string, step: nat, start: nat)
    requires step > 0
    ensures var r := Chunks(v, step, start);
      && (r == [] <==> start >= |v|)
      && (r != [] ==> start + (|r| - 1) * step < |v| <= start + |r| * step)
    decreases |v| - start
  {
    if start < |v| {
      var r' := Chunks(v, step, start + step);
      ChunkCount(v, step, start + step);
      var n := |r'|;
      assert |Chunks(v, step, start)| == n + 1;
      if n == 0 {
        assert start + step >= |v|;
      } else {
        assert start + step + (n - 1) * step < |v| <= start + step + n * step;
        assert start + step + (n - 1) * step == start + n * step;
        assert start + step + n * step == start + (n + 1) * step;
      }
    }
  }

  /** Piece `k` starts at `start + k * step` and is `step` long or runs to the
      end of `v`. */
  lemma ChunkAt(v: string, step: nat, start: nat, k: nat)
    requires step > 0 && k < |Chunks(v, step, start)|
    ensures start + k * step < |v|
    ensures Chunks(v, step, start)[k] == v[start + k * step .. Min(start + (k + 1) * step, |v|)]
  {
    ChunkFrom(v, step, start, k);
    NextStart(start, step, k);
    ChunksHead(v, step, start + k * step);
  }

  lemma NextStart(start: nat, step: nat, k: nat)
    ensures start + k * step + step == start + (k + 1) * step
  {
  }

  /** Piece `k` is the first piece of the slicing that starts `k` steps later. */
  lemma {:induction false} ChunkFrom(v: string, step: nat, start: nat, k: nat)
    requires step > 0 && k < |Chunks(v, step, start)|
    ensures start + k * step < |v|
    ensures Chunks(v, step, start)[k] == Chunks(v, step, start + k * step)[0]
    decreases k
  {
    ChunksHead(v, step, start);
    if k > 0 {
      ChunkFrom(v, step, start + step, k - 1);
      StepShift(start, step, k);
    }
  }

  lemma ChunksHead(v: string, step: nat, start: nat)
    requires step > 0
    ensures start < |v| ==> Chunks(v, step, start) == [v[start .. Min(start + step, |v|)]] + Chunks(v, step, start + step)
  {
  }

  lemma StepShift(start: nat, step: nat, k: nat)
    requires k > 0
    ensures start + step + (k - 1) * step == start + k * step
    ensures start + step + k * step == start + (k + 1) * step
  {
  }

  function Flatten(cs: seq<string>): string {
    if cs == [] then "" else cs[0] + Flatten(cs[1..])
  }

  /** Every character of the pieces is a digit exactly when every piece is all digits. */
  lemma {:induction false} FlattenAllHex(cs: seq<string>)
    ensures AllHex(Flatten(cs)) <==> forall k :: 0 <= k < |cs| ==> AllHex(cs[k])
  {
    if cs != [] {
      FlattenAllHex(cs[1..]);
      var f := Flatten(cs);
      assert f == cs[0] + Flatten(cs[1..]);
      if AllHex(f) {
        assert AllHex(cs[0]) by {
          forall i | 0 <= i < |cs[0]| ensures IsHexDigit(cs[0][i]) { assert f[i] == cs[0][i]; }
        }
        assert AllHex(Flatten(cs[1..])) by {
          forall i | 0 <= i < |Flatten(cs[1..])| ensures IsHexDigit(Flatten(cs[1..])[i]) {
            assert f[|cs[0]| + i] == Flatten(cs[1..])[i];
          }
        }
        forall k | 0 <= k < |cs| ensures AllHex(cs[k]) {
          if k > 0 { assert cs[k] == cs[1..][k - 1]; }
        }
      }
      if forall k :: 0 <= k < |cs| ==> AllHex(cs[k]) {
        assert forall k :: 0 <= k < |cs[1..]| ==> AllHex(cs[1..][k]) by {
          forall k | 0 <= k < |cs[1..]| ensures AllHex(cs[1..][k]) { assert cs[1..][k] == cs[k + 1]; }
        }
        assert AllHex(cs[0]);
      }
    }
  }

  /** Parses every chunk; the first one that is not a literal raises. */
  function ParseAll(chunks: seq<string>): (r: Result<seq<int>>)
    ensures r.Ok? <==> forall k :: 0 <= k < |chunks| ==> ParseHex(chunks[k]).Ok?
    ensures r.Ok? ==> |r.value| == |chunks| && forall k :: 0 <= k < |chunks| ==> r.value[k] == ParseHex(chunks[k]).value
  {
    if chunks == [] then Ok([])
    else match ParseHex(chunks[0])
      case Err(e) => Err(e)
      case Ok(h) =>
        match ParseAll(chunks[1..])
        case Err(e) => Err(e)
        case Ok(t) => Ok([h] + t)
  }

  /** `lv // 3`: positive exactly from three on. */
  function Third(n: nat): (t: nat)
    ensures t > 0 <==> n >= 3
    ensures 3 * t <= n < 3 * t + 3
  {
    n / 3
  }

  /** `hex_to_rgb(value)`: strip the leading '#', cut the rest into chunks of a third
      of its length and read each chunk in base 16. A string shorter than three
      characters makes the chunk length 0, which `range` refuses with a ValueError. */
  function HexToRgb(value: string): (r: Result<seq<int>>)
    ensures |LStripHash(value)| < 3 ==> r == Err(ValueError)
  {
    var v := LStripHash(value);
    var step := Third(|v|);
    if step == 0 then Err(ValueError) else ParseAll(Chunks(v, step, 0))
  }

  /** From three characters on, the colour reads exactly when every chunk
      does, and component `k` is the value of chunk `k`. */
  lemma HexToRgbChunks(value: string)
    requires |LStripHash(value)| >= 3
    ensures var v := LStripHash(value); var cs := Chunks(v, Third(|v|), 0); var r := HexToRgb(value);
      && (r.Ok? <==> forall k :: 0 <= k < |cs| ==> ParseHex(cs[k]).Ok?)
      && (r.Ok? ==> |r.value| == |cs| && forall k :: 0 <= k < |cs| ==> r.value[k] == ParseHex(cs[k]).value)
  {
    var v := LStripHash(value);
    assert HexToRgb(value) == ParseAll(Chunks(v, Third(|v|), 0));
  }

  /** A digit after a plus sign reads as the digit. */
  lemma PlusDigit(d: char)
    requires IsHexDigit(d)
    ensures ParseHex(['+', d]) == Ok(HexVal(d).value)
  {
    var c := ['+', d];
    assert StripEnd(c) == c && c[1..] == [d];
    assert Literal(c) == (false, [d]);
    assert DigitsValue([d]) == HexVal(d).value by { assert [d][..0] == []; }
  }

  /** Signed chunks read as numbers: `hex_to_rgb("+f+f+f")` is (15, 15, 15),
      and likewise for any digit. */
  lemma SignedChunks(d: char)
    requires IsHexDigit(d)
    ensures var c := ['+', d]; var h := HexVal(d).value;
      HexToRgb(c + c + c) == Ok([h, h, h])
  {
    var c := ['+', d];
    var v := c + c + c;
    assert LStripHash(v) == v;
    assert Third(6) == 2;
    ChunksOfSix(v);
    assert [v[0], v[1]] == c && [v[2], v[3]] == c && [v[4], v[5]] == c;
    PlusDigit(d);
    ParseThrice(c, HexVal(d).value);
  }

  /** Three equal chunks read as three equal components. */
  lemma ParseThrice(c: string, h: int)
    requires ParseHex(c) == Ok(h)
    ensures ParseAll([c, c, c]) == Ok([h, h, h])
  {
    assert ParseAll([]) == Ok([]);
    ParseAllCons(c, [], h, []);
    assert [c] + [] == [c] && [h] + [] == [h];
    ParseAllCons(c, [c], h, [h]);
    assert [c] + [c] == [c, c] && [h] + [h] == [h, h];
    ParseAllCons(c, [c, c], h, [h, h]);
    assert [c] + [c, c] == [c, c, c] && [h] + [h, h] == [h, h, h];
  }

  /** A colour of at least three digits reads as one non-negative component
      per chunk, the value of that chunk's digits. */
  lemma HexToRgbDigits(value: string)
    requires var v := LStripHash(value); |v| >= 3 && AllHex(v)
    ensures var v := LStripHash(value); var cs := Chunks(v, Third(|v|), 0);
      && HexToRgb(value).Ok? && |HexToRgb(value).value| == |cs|
      && forall k :: 0 <= k < |cs| ==> HexToRgb(value).value[k] == DigitsValue(cs[k]) >= 0
  {
    var v := LStripHash(value);
    var cs := Chunks(v, Third(|v|), 0);
    ChunksCover(v, Third(|v|), 0);
    assert v[0..] == v;
    FlattenAllHex(cs);
    forall k | 0 <= k < |cs| ensures ParseHex(cs[k]) == Ok(DigitsValue(cs[k])) {
      ParseDigits(cs[k]);
    }
    HexToRgbChunks(value);
  }

  /** The digits of `n` in base 16, without leading zeros. */
  function HexStr(n: nat): (s: string)
    ensures |s| >= 1
    ensures n < 16 <==> |s| == 1
    decreases n
  {
    if n < 16 then [HexDigit(n)] else HexStr(n / 16) + [HexDigit(n % 16)]
  }

  /** `'{:02x}'.format(n)`: lower-case hexadecimal, zero-padded to two characters;
      a negative number is written as '-' followed by the digits of its magnitude. */
  function Fmt02x(n: int): (s: string)
  {
    if n < 0 then "-" + HexStr(-n)
    else if n < 16 then "0" + HexStr(n)
    else HexStr(n)
  }

  /** A component in 0..255 is written as exactly two digits. */
  lemma Fmt02xByte(n: int)
    requires 0 <= n < 256
    ensures Fmt02x(n) == [HexDigit(n / 16), HexDigit(n % 16)]
  {
    if n >= 16 {
      assert HexStr(n / 16) == [HexDigit(n / 16)];
    }
  }

  /** `rgb2hex(rgb)` on integer components: the three leading components formatted
      with `{:02x}`; fewer than three components leave a placeholder without an
      argument, an IndexError. */
  function Rgb2Hex(rgb: seq<int>): (r: Result<string>)
    ensures r.Ok? <==> |rgb| >= 3
  {
    if |rgb| < 3 then Err(IndexError)
    else Ok(Fmt02x(rgb[0]) + Fmt02x(rgb[1]) + Fmt02x(rgb[2]))
  }

  /** A colour written as six hexadecimal digits, with or without leading '#'. */
  predicate SixDigitHex(h: string) {
    var v := LStripHash(h); |v| == 6 && AllHex(v)
  }

  function PairValue(a: char, b: char): int
    requires IsHexDigit(a) && IsHexDigit(b)
  {
    16 * HexVal(a).value + HexVal(b).value
  }

  lemma ParseTwo(a: char, b: char)
    requires IsHexDigit(a) && IsHexDigit(b)
    ensures ParseHex([a, b]) == Ok(PairValue(a, b))
  {
    ParseDigits([a, b]);
    assert [a, b][..1] == [a] && [a][..0] == [];
    assert DigitsValue([a]) == HexVal(a).value;
    assert DigitsValue([a, b]) == 16 * DigitsValue([a]) + HexVal(b).value;
  }

  /** A six-digit colour reads as three components in 0..255, one per digit pair. */
  lemma {:induction false} HexToRgbSix(h: string)
    requires SixDigitHex(h)
    ensures var v := LStripHash(h);
      && HexToRgb(h) == Ok([PairValue(v[0], v[1]), PairValue(v[2], v[3]), PairValue(v[4], v[5])])
      && forall k :: 0 <= k < 3 ==> 0 <= HexToRgb(h).value[k] < 256
  {
    var v := LStripHash(h);
    assert |v| / 3 == 2;
    ChunksOfSix(v);
    ParseSix(v);
    var r := HexToRgb(h);
    assert r == ParseAll(Chunks(v, 2, 0));
    var p := [PairValue(v[0], v[1]), PairValue(v[2], v[3]), PairValue(v[4], v[5])];
    assert r.value == p;
    PairRange(v[0], v[1]);
    PairRange(v[2], v[3]);
    PairRange(v[4], v[5]);
    forall k | 0 <= k < 3 ensures 0 <= p[k] < 256 {
      assert k == 0 || k == 1 || k == 2;
    }
  }

  lemma PairRange(a: char, b: char)
    requires IsHexDigit(a) && IsHexDigit(b)
    ensures 0 <= PairValue(a, b) < 256
  {
    HexDigitOfVal(a);
    HexDigitOfVal(b);
  }

  lemma ChunksOfSix(v: string)
    requires |v| == 6
    ensures Chunks(v, 2, 0) == [[v[0], v[1]], [v[2], v[3]], [v[4], v[5]]]
  {
    assert Chunks(v, 2, 6) == [];
    assert Chunks(v, 2, 4) == [v[4..6]] + Chunks(v, 2, 6);
    assert Chunks(v, 2, 2) == [v[2..4]] + Chunks(v, 2, 4);
    assert Chunks(v, 2, 0) == [v[0..2]] + Chunks(v, 2, 2);
    assert v[0..2] == [v[0], v[1]] && v[2..4] == [v[2], v[3]] && v[4..6] == [v[4], v[5]];
  }

  lemma ParseSix(v: string)
    requires |v| == 6 && AllHex(v)
    ensures ParseAll([[v[0], v[1]], [v[2], v[3]], [v[4], v[5]]])
         == Ok([PairValue(v[0], v[1]), PairValue(v[2], v[3]), PairValue(v[4], v[5])])
  {
    var c0, c1, c2 := [v[0], v[1]], [v[2], v[3]], [v[4], v[5]];
    ParseTwo(v[0], v[1]);
    ParseTwo(v[2], v[3]);
    ParseTwo(v[4], v[5]);
    var p0, p1, p2 := PairValue(v[0], v[1]), PairValue(v[2], v[3]), PairValue(v[4], v[5]);
    assert ParseAll([]) == Ok([]);
    ParseAllCons(c2, [], p2, []);
    assert [c2] + [] == [c2] && [p2] + [] == [p2];
    ParseAllCons(c1, [c2], p1, [p2]);
    assert [c1] + [c2] == [c1, c2] && [p1] + [p2] == [p1, p2];
    ParseAllCons(c0, [c1, c2], p0, [p1, p2]);
    assert [c0] + [c1, c2] == [c0, c1, c2] && [p0] + [p1, p2] == [p0, p1, p2];
  }

  lemma ParseAllCons(c: string, cs: seq<string>, h: int, t: seq<int>)
    requires ParseHex(c) == Ok(h) && ParseAll(cs) == Ok(t)
    ensures ParseAll([c] + cs) == Ok([h] + t)
  {
    assert ([c] + cs)[0] == c;
    assert ([c] + cs)[1..] == cs;
  }

  lemma PairRoundTrip(a: char, b: char)
    requires IsHexDigit(a) && IsHexDigit(b)
    ensures Fmt02x(PairValue(a, b)) == [LowerChar(a), LowerChar(b)]
  {
    HexDigitOfVal(a);
    HexDigitOfVal(b);
    var n := PairValue(a, b);
    assert n / 16 == HexVal(a).value && n % 16 == HexVal(b).value;
    Fmt02xByte(n);
  }

  /** `rgb2hex(hex_to_rgb(h))` gives back the digits of `h`, lower-cased. */
  lemma {:induction false} HexRoundTrip(h: string)
    requires SixDigitHex(h)
    ensures HexToRgb(h).Ok? && Rgb2Hex(HexToRgb(h).value) == Ok(Lower(LStripHash(h)))
  {
    var v := LStripHash(h);
    HexToRgbSix(h);
    PairRoundTrip(v[0], v[1]);
    PairRoundTrip(v[2], v[3]);
    PairRoundTrip(v[4], v[5]);
    LowerSix(v);
  }

  lemma LowerSix(v: string)
    requires |v| == 6
    ensures Lower(v) == [LowerChar(v[0]), LowerChar(v[1])] + [LowerChar(v[2]), LowerChar(v[3])] + [LowerChar(v[4]), LowerChar(v[5])]
  {
  }

  /** A component in 0..255 is written as two digits that read back as that component. */
  lemma ByteDigits(n: int)
    requires 0 <= n < 256
    ensures |Fmt02x(n)| == 2 && IsHexDigit(Fmt02x(n)[0]) && IsHexDigit(Fmt02x(n)[1])
    ensures PairValue(Fmt02x(n)[0], Fmt02x(n)[1]) == n
  {
    Fmt02xByte(n);
  }

  /** A colour with components in 0..255 is written as six digits, one pair per component. */
  lemma SixOfBytes(rgb: seq<int>)
    requires |rgb| == 3 && forall k :: 0 <= k < 3 ==> 0 <= rgb[k] < 256
    ensures Rgb2Hex(rgb).Ok? && SixDigitHex(Rgb2Hex(rgb).value)
    ensures var v := LStripHash(Rgb2Hex(rgb).value);
      PairValue(v[0], v[1]) == rgb[0] && PairValue(v[2], v[3]) == rgb[1] && PairValue(v[4], v[5]) == rgb[2]
  {
    var a, b, c := Fmt02x(rgb[0]), Fmt02x(rgb[1]), Fmt02x(rgb[2]);
    ByteDigits(rgb[0]);
    ByteDigits(rgb[1]);
    ByteDigits(rgb[2]);
    JoinPairs(a, b, c, rgb[0], rgb[1], rgb[2]);
    assert Rgb2Hex(rgb) == Ok(a + b + c);
  }

  /** Three digit pairs put together make a six-digit colour whose pairs
      read back as the values of the pairs. */
  lemma JoinPairs(a: string, b: string, c: string, x: int, y: int, z: int)
    requires |a| == 2 && |b| == 2 && |c| == 2
    requires IsHexDigit(a[0]) && IsHexDigit(a[1]) && IsHexDigit(b[0]) && IsHexDigit(b[1])
    requires IsHexDigit(c[0]) && IsHexDigit(c[1])
    requires PairValue(a[0], a[1]) == x && PairValue(b[0], b[1]) == y && PairValue(c[0], c[1]) == z
    ensures var s := a + b + c; SixDigitHex(s)
    ensures var v := LStripHash(a + b + c);
      PairValue(v[0], v[1]) == x && PairValue(v[2], v[3]) == y && PairValue(v[4], v[5]) == z
  {
    var s := a + b + c;
    assert s == [a[0], a[1], b[0], b[1], c[0], c[1]];
    assert s[0] != '#';
    assert LStripHash(s) == s;
  }

  /** `hex_to_rgb(rgb2hex(rgb))` gives back any colour with components in 0..255. */
  lemma {:induction false} RgbRoundTrip(rgb: seq<int>)
    requires |rgb| == 3 && forall k :: 0 <= k < 3 ==> 0 <= rgb[k] < 256
    ensures Rgb2Hex(rgb).Ok? && HexToRgb(Rgb2Hex(rgb).value) == Ok(rgb)
  {
    SixOfBytes(rgb);
    var v := LStripHash(Rgb2Hex(rgb).value);
    HexToRgbSix(Rgb2Hex(rgb).value);
    SameTriple(rgb, PairValue(v[0], v[1]), PairValue(v[2], v[3]), PairValue(v[4], v[5]));
  }

  lemma SameTriple(rgb: seq<int>, x: int, y: int, z: int)
    requires |rgb| == 3 && rgb[0] == x && rgb[1] == y && rgb[2] == z
    ensures [x, y, z] == rgb
  {
  }
}

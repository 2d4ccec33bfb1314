/**
 * The mapping on a 4 x 4 grid (two dimensions, two bits per coordinate),
 * evaluated cell by cell: the sixteen cells are numbered along the curve.
 */
module HilbertTable {
  import opened Arithmetic
  import opened HilbertCurves

  /** The two-bit primitives in closed form. */
  lemma TwoBits(a: bool, b: bool)
    ensures SuffixParities([a, b]) == [a != b, b]
    ensures Principal([a, b]) == if a == b then 0 else 1
    ensures PopCount([a, b]) == (if a then 1 else 0) + (if b then 1 else 0)
    ensures ToNat([a, b]) == (if a then 1 else 0) + (if b then 2 else 0)
    ensures RotateRight([a, b], 0) == [a, b] && RotateRight([a, b], 1) == [b, a]
  {
    TwoSuffix(a, b);
    TwoPrincipal(a, b);
    TwoPopCount(a, b);
    assert [a, b][1..] == [b] && [b][1..] == [];
    assert [a, b][..0] == [] && [a, b][0..] == [a, b] && [a, b][..1] == [a] && [a, b][1..] == [b];
  }

  lemma TwoSuffix(a: bool, b: bool)
    ensures SuffixParities([a, b]) == [a != b, b]
  {
    assert [a, b][1..] == [b] && [b][..0] == [] && [a, b][..1] == [a];
    assert Parity([a]) == a && Parity([b]) == b;
    assert Parity([a, b]) == (a != b);
    assert SuffixParities([a, b])[0] == Parity([a, b]);
    assert SuffixParities([a, b])[1] == Parity([b]);
  }

  lemma TwoPrincipal(a: bool, b: bool)
    ensures Principal([a, b]) == if a == b then 0 else 1
  {
    if a == b {
      assert FirstChange([a, b], 2) == 2;
    }
  }

  lemma TwoPopCount(a: bool, b: bool)
    ensures PopCount([a, b]) == (if a then 1 else 0) + (if b then 1 else 0)
  {
    assert [a, b][..1] == [a] && [a][..0] == [];
    assert PopCount([a]) == PopCount([]) + (if a then 1 else 0);
  }

  lemma XorTwo(a: bool, b: bool, c: bool, d: bool)
    ensures Xor([a, b], [c, d]) == [a != c, b != d]
  {
  }

  /** One round of the mapping on a two-bit chunk `[c0, c1]`, written out case by case. */
  function TwoRound(st: CurveState, c0: bool, c1: bool): CurveState
    requires |st.mirror| == 2 && st.rotation < 2
  {
    var x0, x1 := c0 != st.mirror[0], c1 != st.mirror[1];
    var u, v := if st.rotation == 0 then x0 else x1, if st.rotation == 0 then x1 else x0;
    var p := if (u != v) == v then 0 else 1;
    var u', v' := if u == v && p == 0 then !u else u, if u == v && p == 1 then !v else v;
    var w0, w1 := if st.rotation == 0 then !u' else v', if st.rotation == 0 then v' else !u';
    CurveState(st.result * 4 + (if u != v then 1 else 0) + (if v then 2 else 0),
               (st.rotation + p + 1) % 2, [st.mirror[0] != w0, st.mirror[1] != w1])
  }

  /** The chunk after mirroring and rotation. */
  lemma TwoTransform(m: seq<bool>, rot: nat, c0: bool, c1: bool)
    requires |m| == 2 && rot < 2
    ensures RotateRight(Xor([c0, c1], m), rot) ==
      if rot == 0 then [c0 != m[0], c1 != m[1]] else [c1 != m[1], c0 != m[0]]
  {
    assert m == [m[0], m[1]];
    XorTwo(c0, c1, m[0], m[1]);
    TwoBits(c0 != m[0], c1 != m[1]);
  }

  /** The next mirror mask, from the (possibly flipped) chunk `[a, b]`. */
  lemma TwoMirror(m: seq<bool>, rot: nat, a: bool, b: bool)
    requires |m| == 2 && rot < 2
    ensures Xor(m, RotateRight(Xor([a, b], One(2)), rot)) ==
      if rot == 0 then [m[0] != !a, m[1] != b] else [m[0] != b, m[1] != !a]
  {
    assert One(2) == [true, false];
    XorTwo(a, b, true, false);
    TwoBits(!a, b);
    assert m == [m[0], m[1]];
    XorTwo(m[0], m[1], !a, b);
    XorTwo(m[0], m[1], b, !a);
  }

  /** A round in terms of its transformed chunk `c`. */
  lemma RoundOf(st: CurveState, chunk: seq<bool>, c: seq<bool>)
    requires |chunk| == |st.mirror| && st.rotation < |chunk|
    requires c == RotateRight(Xor(chunk, st.mirror), st.rotation)
    ensures var turn := st.rotation + Principal(SuffixParities(c)) + 1;
      Round(st, chunk) == CurveState(Append(st.result, SuffixParities(c)),
        if turn < |chunk| then turn else turn - |chunk|,
        Xor(st.mirror, RotateRight(Xor(Flipped(c), One(|chunk|)), st.rotation)))
  {
  }

  lemma RoundTwoResult(st: CurveState, c0: bool, c1: bool)
    requires |st.mirror| == 2 && st.rotation < 2
    ensures Round(st, [c0, c1]).result == TwoRound(st, c0, c1).result
  {
    var m, rot := st.mirror, st.rotation;
    var u := if rot == 0 then c0 != m[0] else c1 != m[1];
    var v := if rot == 0 then c1 != m[1] else c0 != m[0];
    var c := [u, v];
    TwoTransform(m, rot, c0, c1);
    RoundOf(st, [c0, c1], c);
    TwoBits(u, v);
    TwoBits(u != v, v);
    assert ShiftLeft(st.result, 1) == 2 * st.result;
    assert ShiftLeft(st.result, 2) == 4 * st.result;
  }

  lemma RoundTwoRotation(st: CurveState, c0: bool, c1: bool)
    requires |st.mirror| == 2 && st.rotation < 2
    ensures Round(st, [c0, c1]).rotation == TwoRound(st, c0, c1).rotation
  {
    var m, rot := st.mirror, st.rotation;
    var u := if rot == 0 then c0 != m[0] else c1 != m[1];
    var v := if rot == 0 then c1 != m[1] else c0 != m[0];
    var c := [u, v];
    TwoTransform(m, rot, c0, c1);
    RoundOf(st, [c0, c1], c);
    TwoBits(u, v);
    TwoBits(u != v, v);
  }

  /** The two-bit chunk `[u, v]` after the principal flip of an even chunk. */
  lemma TwoFlipped(u: bool, v: bool)
    ensures Flipped([u, v]) == if u == v && v then [u, !v] else if u == v then [!u, v] else [u, v]
  {
    TwoBits(u, v);
    TwoBits(u != v, v);
  }

  lemma RoundTwoMirror(st: CurveState, c0: bool, c1: bool)
    requires |st.mirror| == 2 && st.rotation < 2
    ensures Round(st, [c0, c1]).mirror == TwoRound(st, c0, c1).mirror
  {
    var m, rot := st.mirror, st.rotation;
    var u := if rot == 0 then c0 != m[0] else c1 != m[1];
    var v := if rot == 0 then c1 != m[1] else c0 != m[0];
    var c := [u, v];
    TwoTransform(m, rot, c0, c1);
    RoundOf(st, [c0, c1], c);
    TwoFlipped(u, v);
    var p := if (u != v) == v then 0 else 1;
    var u', v' := if u == v && p == 0 then !u else u, if u == v && p == 1 then !v else v;
    assert Flipped(c) == [u', v'];
    TwoMirror(m, rot, u', v');
  }

  lemma RoundTwo(st: CurveState, c0: bool, c1: bool)
    requires |st.mirror| == 2 && st.rotation < 2
    ensures Round(st, [c0, c1]) == TwoRound(st, c0, c1)
  {
    RoundTwoResult(st, c0, c1);
    RoundTwoRotation(st, c0, c1);
    RoundTwoMirror(st, c0, c1);
  }

  /** The chunk of round `i` on a two-bit grid: the first coordinate gives the high bit. */
  lemma TwoByTwoChunk(x: nat, y: nat, i: nat)
    requires i < 2
    ensures Chunk([x, y], 2, i) == [Bit(y, 1 - i), Bit(x, 1 - i)]
  {
  }

  /** The Hilbert value of a cell of the 4 x 4 grid: two rounds from the initial state. */
  lemma GridValue(x: nat, y: nat)
    ensures HilbertValue([x, y], 2) == CellValue(Bit(x, 1), Bit(y, 1), Bit(x, 0), Bit(y, 0))
  {
    var s0 := CurveState(0, 0, [false, false]);
    assert Rounds([x, y], 2, 0) == s0;
    TwoByTwoChunk(x, y, 0);
    RoundTwo(s0, Bit(y, 1), Bit(x, 1));
    var s1 := TwoRound(s0, Bit(y, 1), Bit(x, 1));
    assert Rounds([x, y], 2, 1) == s1;
    TwoByTwoChunk(x, y, 1);
    RoundTwo(s1, Bit(y, 0), Bit(x, 0));
    assert Rounds([x, y], 2, 2) == TwoRound(s1, Bit(y, 0), Bit(x, 0));
  }

  /** The two bits of a coordinate below 4. */
  lemma TwoBitsOf(x: nat)
    requires x < 4
    ensures Bit(x, 1) == (x >= 2) && Bit(x, 0) == (x % 2 == 1)
  {
    assert Pow2(1) == 2;
  }

  /** The cells of the 4 x 4 grid in the order the curve visits them, quarter by quarter. */
  function Visit(k: nat): (cell: (nat, nat))
    requires k < 16
    ensures cell.0 < 4 && cell.1 < 4
  {
    match k
    case 0 => (0, 0)
    case 1 => (1, 0)
    case 2 => (1, 1)
    case 3 => (0, 1)
    case 4 => (0, 2)
    case 5 => (0, 3)
    case 6 => (1, 3)
    case 7 => (1, 2)
    case 8 => (2, 2)
    case 9 => (2, 3)
    case 10 => (3, 3)
    case 11 => (3, 2)
    case 12 => (3, 1)
    case 13 => (2, 1)
    case 14 => (2, 0)
    case _ => (3, 0)
  }

  /** The value of the cell whose coordinates have high bits `xh`, `yh` and low bits `xl`, `yl`. */
  function CellValue(xh: bool, yh: bool, xl: bool, yl: bool): nat {
    TwoRound(TwoRound(CurveState(0, 0, [false, false]), yh, xh), yl, xl).result
  }

  /* The sixteen cells, quarter by quarter of the grid. */

  lemma LowerLeft()
    ensures CellValue(false, false, false, false) == 0
    ensures CellValue(false, false, true, false) == 1
    ensures CellValue(false, false, true, true) == 2
    ensures CellValue(false, false, false, true) == 3
  {
    var s1 := CurveState(0, 1, [false, false]);
    assert TwoRound(CurveState(0, 0, [false, false]), false, false) == s1;
    assert TwoRound(s1, false, false).result == 0;
    assert TwoRound(s1, false, true).result == 1;
    assert TwoRound(s1, true, true).result == 2;
    assert TwoRound(s1, true, false).result == 3;
  }

  lemma UpperLeft()
    ensures CellValue(false, true, false, false) == 4
    ensures CellValue(false, true, false, true) == 5
    ensures CellValue(false, true, true, true) == 6
    ensures CellValue(false, true, true, false) == 7
  {
    var s1 := CurveState(1, 0, [false, false]);
    assert TwoRound(CurveState(0, 0, [false, false]), true, false) == s1;
    assert TwoRound(s1, false, false).result == 4;
    assert TwoRound(s1, true, false).result == 5;
    assert TwoRound(s1, true, true).result == 6;
    assert TwoRound(s1, false, true).result == 7;
  }

  lemma UpperRight()
    ensures CellValue(true, true, false, false) == 8
    ensures CellValue(true, true, false, true) == 9
    ensures CellValue(true, true, true, true) == 10
    ensures CellValue(true, true, true, false) == 11
  {
    var s1 := CurveState(2, 0, [false, false]);
    assert TwoRound(CurveState(0, 0, [false, false]), true, true) == s1;
    assert TwoRound(s1, false, false).result == 8;
    assert TwoRound(s1, true, false).result == 9;
    assert TwoRound(s1, true, true).result == 10;
    assert TwoRound(s1, false, true).result == 11;
  }

  lemma LowerRight()
    ensures CellValue(true, false, true, true) == 12
    ensures CellValue(true, false, false, true) == 13
    ensures CellValue(true, false, false, false) == 14
    ensures CellValue(true, false, true, false) == 15
  {
    var s1 := CurveState(3, 1, [true, true]);
    assert TwoRound(CurveState(0, 0, [false, false]), false, true) == s1;
    assert TwoRound(s1, true, true).result == 12;
    assert TwoRound(s1, true, false).result == 13;
    assert TwoRound(s1, false, false).result == 14;
    assert TwoRound(s1, false, true).result == 15;
  }

  /** The value of a cell of the 4 x 4 grid, given the bits of its coordinates. */
  lemma CellIs(x: nat, y: nat, xh: bool, yh: bool, xl: bool, yl: bool)
    requires x < 4 && y < 4
    requires xh == (x >= 2) && yh == (y >= 2) && xl == (x % 2 == 1) && yl == (y % 2 == 1)
    ensures HilbertValue([x, y], 2) == CellValue(xh, yh, xl, yl)
  {
    GridValue(x, y);
    TwoBitsOf(x);
    TwoBitsOf(y);
  }

  lemma LowerLeftVisits(k: nat, x: nat, y: nat)
    requires k < 4 && Visit(k) == (x, y)
    ensures HilbertValue([x, y], 2) == k
  {
    if k == 0 {
      assert x == 0 && y == 0;
      CellIs(x, y, false, false, false, false);
      LowerLeft();
    } else if k == 1 {
      assert x == 1 && y == 0;
      CellIs(x, y, false, false, true, false);
      LowerLeft();
    } else if k == 2 {
      assert x == 1 && y == 1;
      CellIs(x, y, false, false, true, true);
      LowerLeft();
    } else if k == 3 {
      assert x == 0 && y == 1;
      CellIs(x, y, false, false, false, true);
      LowerLeft();
    }
  }

  lemma UpperLeftVisits(k: nat, x: nat, y: nat)
    requires 4 <= k < 8 && Visit(k) == (x, y)
    ensures HilbertValue([x, y], 2) == k
  {
    if k == 4 {
      assert x == 0 && y == 2;
      CellIs(x, y, false, true, false, false);
      UpperLeft();
    } else if k == 5 {
      assert x == 0 && y == 3;
      CellIs(x, y, false, true, false, true);
      UpperLeft();
    } else if k == 6 {
      assert x == 1 && y == 3;
      CellIs(x, y, false, true, true, true);
      UpperLeft();
    } else if k == 7 {
      assert x == 1 && y == 2;
      CellIs(x, y, false, true, true, false);
      UpperLeft();
    }
  }

  lemma UpperRightVisits(k: nat, x: nat, y: nat)
    requires 8 <= k < 12 && Visit(k) == (x, y)
    ensures HilbertValue([x, y], 2) == k
  {
    if k == 8 {
      assert x == 2 && y == 2;
      CellIs(x, y, true, true, false, false);
      UpperRight();
    } else if k == 9 {
      assert x == 2 && y == 3;
      CellIs(x, y, true, true, false, true);
      UpperRight();
    } else if k == 10 {
      assert x == 3 && y == 3;
      CellIs(x, y, true, true, true, true);
      UpperRight();
    } else if k == 11 {
      assert x == 3 && y == 2;
      CellIs(x, y, true, true, true, false);
      UpperRight();
    }
  }

  lemma LowerRightVisits(k: nat, x: nat, y: nat)
    requires 12 <= k < 16 && Visit(k) == (x, y)
    ensures HilbertValue([x, y], 2) == k
  {
    if k == 12 {
      assert x == 3 && y == 1;
      CellIs(x, y, true, false, true, true);
      LowerRight();
    } else if k == 13 {
      assert x == 2 && y == 1;
      CellIs(x, y, true, false, false, true);
      LowerRight();
    } else if k == 14 {
      assert x == 2 && y == 0;
      CellIs(x, y, true, false, false, false);
      LowerRight();
    } else if k == 15 {
      assert x == 3 && y == 0;
      CellIs(x, y, true, false, true, false);
      LowerRight();
    }
  }

  /** The k-th cell the curve visits has Hilbert value k. */
  lemma FourByFour(k: nat, x: nat, y: nat)
    requires k < 16 && Visit(k) == (x, y)
    ensures HilbertValue([x, y], 2) == k
  {
    if k < 4 {
      LowerLeftVisits(k, x, y);
    } else if k < 8 {
      UpperLeftVisits(k, x, y);
    } else if k < 12 {
      UpperRightVisits(k, x, y);
    } else {
      LowerRightVisits(k, x, y);
    }
  }
}

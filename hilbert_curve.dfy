/**
 * The Hilbert space-filling curve of the Hilbert R-tree (`HilbertCurve`),
 * after Lawder's table-free mapping. A D-bit chunk is a sequence of D booleans
 * indexed from the least significant bit, as `std::bitset<D>` is. The mapping
 * reads one bit of every coordinate per round, most significant first, and
 * emits D bits of the Hilbert value per round. Coordinates are points of an
 * integer grid with `order` bits per dimension.
 */
module HilbertCurves {
  import opened Arithmetic

  /** Bit `k` of `x`, counted from the least significant bit. */
  function Bit(x: nat, k: nat): bool {
    (x / Pow2(k)) % 2 == 1
  }

  /** Bitwise exclusive or of two chunks. */
  function Xor(a: seq<bool>, b: seq<bool>): (r: seq<bool>)
    requires |a| == |b|
    ensures |r| == |a|
  {
    seq(|a|, i requires 0 <= i < |a| => a[i] != b[i])
  }

  /** The number of set bits (`count()`). */
  function PopCount(s: seq<bool>): nat {
    if |s| == 0 then 0 else PopCount(s[..|s| - 1]) + (if s[|s| - 1] then 1 else 0)
  }

  lemma {:induction false} PopCountIsMultiplicity(s: seq<bool>)
    ensures PopCount(s) == multiset(s)[true]
  {
    if |s| > 0 {
      PopCountIsMultiplicity(s[..|s| - 1]);
      assert s == s[..|s| - 1] + [s[|s| - 1]];
    }
  }

  /**
   * `rotateRight(bs, rotation)`: `(bs >> r) | (bs << (D - r))`, which moves
   * the bit at position i + r (modulo D) down to position i.
   */
  function RotateRight(bs: seq<bool>, r: nat): (res: seq<bool>)
    requires r < |bs|
    ensures |res| == |bs|
  {
    bs[r..] + bs[..r]
  }

  /** The rotation takes bit i + r (modulo D) to position i. */
  lemma RotateRightIndex(bs: seq<bool>, r: nat)
    requires r < |bs|
    ensures forall i :: 0 <= i < |bs| ==> RotateRight(bs, r)[i] == bs[(i + r) % |bs|]
  {
    forall i | 0 <= i < |bs| ensures RotateRight(bs, r)[i] == bs[(i + r) % |bs|] {
      ModSmall(i + r, |bs|);
    }
  }

  /** Rotation keeps the number of set bits. */
  lemma RotateRightPopCount(bs: seq<bool>, r: nat)
    requires r < |bs|
    ensures PopCount(RotateRight(bs, r)) == PopCount(bs)
  {
    var lo, hi := bs[..r], bs[r..];
    PopCountIsMultiplicity(bs);
    PopCountIsMultiplicity(hi + lo);
    assert bs == lo + hi;
    calc {
      multiset(hi + lo);
      multiset(hi) + multiset(lo);
      multiset(lo + hi);
    }
  }

  /** The exclusive or of all bits of `s`. */
  function Parity(s: seq<bool>): bool {
    if |s| == 0 then false else Parity(s[..|s| - 1]) != s[|s| - 1]
  }

  /** `leftXor`'s specification: bit j is the parity of the bits at positions j and above. */
  function SuffixParities(bs: seq<bool>): (r: seq<bool>)
    ensures |r| == |bs|
  {
    seq(|bs|, j requires 0 <= j < |bs| => Parity(bs[j..]))
  }

  /**
   * `leftXor(bs)`: `bs ^ (bs >> 1) ^ ... ^ (bs >> (D - 1))`, accumulated one
   * shift at a time.
   */
  method LeftXor(bs: seq<bool>) returns (result: seq<bool>)
    ensures result == SuffixParities(bs)
  {
    result := bs;
    var i := 1;
    while i < |bs|
      invariant 1 <= i <= |bs| || |bs| == 0
      invariant |result| == |bs|
      invariant forall j :: 0 <= j < |bs| ==> result[j] == Parity(bs[j..Min(j + i, |bs|)])
    {
      var shifted := seq(|bs|, j requires 0 <= j < |bs| => if j + i < |bs| then bs[j + i] else false);
      ghost var prev := result;
      result := Xor(result, shifted);
      forall j | 0 <= j < |bs|
        ensures result[j] == Parity(bs[j..Min(j + i + 1, |bs|)])
      {
        if j + i < |bs| {
          assert bs[j..j + i + 1][..i] == bs[j..j + i];
        }
      }
      i := i + 1;
    }
    forall j | 0 <= j < |bs| ensures result[j] == Parity(bs[j..]) {
      assert bs[j..Min(j + |bs|, |bs|)] == bs[j..];
    }
  }

  function Min(x: int, y: int): int { if x < y then x else y }

  /** The first position from `i` on whose bit differs from bit 0, or `|bs|`. */
  function FirstChange(bs: seq<bool>, i: nat): (r: nat)
    requires |bs| > 0
    decreases |bs| - i
    ensures r >= i
  {
    if i >= |bs| || bs[i] != bs[0] then i else FirstChange(bs, i + 1)
  }

  /**
   * `principalPosition`'s specification: the first change, or 0 when there is
   * none (the source's `i % D`, `i` being at most `D`; see `PrincipalIsMod`).
   */
  function Principal(bs: seq<bool>): (p: nat)
    requires |bs| > 0
    ensures p < |bs|
  {
    var i := FirstChange(bs, 1);
    if i < |bs| then i else 0
  }

  lemma PrincipalIsMod(bs: seq<bool>)
    requires |bs| > 0
    ensures Principal(bs) == FirstChange(bs, 1) % |bs|
  {
    FirstChangeFacts(bs, 1);
    ModSmall(FirstChange(bs, 1), |bs|);
  }

  /**
   * The principal position is a bit position; it is 0 exactly when all bits
   * are equal, and otherwise the first position whose bit differs from bit 0.
   */
  lemma PrincipalCharacterization(bs: seq<bool>)
    requires |bs| > 0
    ensures Principal(bs) < |bs|
    ensures Principal(bs) == 0 <==> forall i :: 0 <= i < |bs| ==> bs[i] == bs[0]
    ensures Principal(bs) != 0 ==> bs[Principal(bs)] != bs[0]
    ensures forall i :: 0 < i < Principal(bs) ==> bs[i] == bs[0]
  {
    FirstChangeFacts(bs, 1);
  }

  lemma {:induction false} FirstChangeFacts(bs: seq<bool>, i: nat)
    requires |bs| > 0 && 1 <= i
    ensures i <= FirstChange(bs, i)
    ensures FirstChange(bs, i) <= |bs| || FirstChange(bs, i) == i
    ensures forall k :: i <= k < FirstChange(bs, i) && k < |bs| ==> bs[k] == bs[0]
    ensures FirstChange(bs, i) < |bs| ==> bs[FirstChange(bs, i)] != bs[0]
    decreases |bs| - i
  {
    if !(i >= |bs| || bs[i] != bs[0]) {
      FirstChangeFacts(bs, i + 1);
    }
  }

  /** `principalPosition(bs)`: scan up from bit 1 for the first bit unlike bit 0. */
  method PrincipalPosition(bs: seq<bool>) returns (p: nat)
    requires |bs| > 0
    ensures p == Principal(bs)
  {
    var i := 1;
    while i < |bs| && bs[i] == bs[0]
      invariant 1 <= i
      invariant FirstChange(bs, i) == FirstChange(bs, 1)
      decreases |bs| - i
    {
      i := i + 1;
    }
    PrincipalIsMod(bs);
    return i % |bs|;
  }

  /** `to_ullong`: the chunk read as a binary number. */
  function ToNat(r: seq<bool>): (n: nat)
    ensures n < Pow2(|r|)
  {
    if |r| == 0 then 0 else (if r[0] then 1 else 0) + 2 * ToNat(r[1..])
  }

  /** The chunk of round `i`: bit `D - d - 1` is bit `order - 1 - i` of coordinate `d`. */
  function Chunk(coords: seq<nat>, order: nat, i: nat): (c: seq<bool>)
    requires i < order
    ensures |c| == |coords|
  {
    seq(|coords|, b requires 0 <= b < |coords| => Bit(coords[|coords| - b - 1], order - 1 - i))
  }

  /** The single bit `std::bitset<D>(1)`. */
  function One(d: nat): (r: seq<bool>)
    ensures |r| == d
  {
    seq(d, i => i == 0)
  }

  /** The empty chunk. */
  function Zeros(d: nat): (r: seq<bool>)
    ensures |r| == d
  {
    seq(d, _ => false)
  }

  /** `result <<= D; result |= r`: the low D bits of the shifted value are clear, so the or adds. */
  function Append(result: nat, r: seq<bool>): nat {
    ShiftLeft(result, |r|) + ToNat(r)
  }

  /** Capacity(d, i) = (2^d)^i, the number of values i rounds of d bits can express. */
  function Capacity(d: nat, i: nat): (c: nat)
    ensures c >= 1
  {
    if i == 0 then 1 else ShiftLeft(Capacity(d, i - 1), d)
  }

  lemma {:induction false} CapacityIsPow2(d: nat, i: nat)
    ensures Capacity(d, i) == Pow2(d * i)
  {
    if i > 0 {
      CapacityIsPow2(d, i - 1);
      ShiftLeftIsMul(Capacity(d, i - 1), d);
      Pow2Add(d * (i - 1), d);
      assert d * (i - 1) + d == d * i;
    }
  }

  /** The state carried between rounds: the bits emitted so far, the rotation and the mirror mask. */
  datatype CurveState = CurveState(result: nat, rotation: nat, mirror: seq<bool>)

  /** The D bits one round emits for `chunk`. */
  function RoundBits(st: CurveState, chunk: seq<bool>): (bits: seq<bool>)
    requires |chunk| == |st.mirror| && st.rotation < |chunk|
    ensures |bits| == |chunk|
  {
    SuffixParities(RotateRight(Xor(chunk, st.mirror), st.rotation))
  }

  /**
   * One round of `map`: emit the round's bits and update the rotation and the
   * mirror. The new rotation is `(rotation + p + 1) mod D`; both terms being
   * below D, the sum is below 2D and one subtraction reduces it.
   */
  function Round(st: CurveState, chunk: seq<bool>): (next: CurveState)
    requires |chunk| == |st.mirror| && st.rotation < |chunk|
    ensures |next.mirror| == |chunk| && next.rotation < |chunk|
    ensures next.result == Append(st.result, RoundBits(st, chunk))
  {
    var d := |chunk|;
    var c := RotateRight(Xor(chunk, st.mirror), st.rotation);
    var r := SuffixParities(c);
    var p := Principal(r);
    var turn := st.rotation + p + 1;
    CurveState(Append(st.result, r), if turn < d then turn else turn - d,
               Xor(st.mirror, RotateRight(Xor(Flipped(c), One(d)), st.rotation)))
  }

  /** The rotated chunk with its principal bit flipped when its parity is even, as the mirror update uses it. */
  function Flipped(c: seq<bool>): (f: seq<bool>)
    requires |c| > 0
    ensures |f| == |c|
  {
    var p := Principal(SuffixParities(c));
    if PopCount(c) % 2 == 0 then c[p := !c[p]] else c
  }

  /** The state after the first `i` rounds: D bits per round so far. */
  function Rounds(coords: seq<nat>, order: nat, i: nat): (st: CurveState)
    requires |coords| > 0 && i <= order
    ensures |st.mirror| == |coords| && st.rotation < |coords|
    ensures st.result < Capacity(|coords|, i)
  {
    if i == 0 then CurveState(0, 0, Zeros(|coords|))
    else
      var prev := Rounds(coords, order, i - 1);
      var chunk := Chunk(coords, order, i - 1);
      RoundResultBound(prev, chunk, Capacity(|coords|, i - 1));
      Round(prev, chunk)
  }

  /** The Hilbert value of a grid point. */
  function HilbertValue(coords: seq<nat>, order: nat): nat
    requires |coords| > 0
  {
    Rounds(coords, order, order).result
  }

  /** A round appends exactly |chunk| bits: a value below `cap` stays below `cap << |chunk|`. */
  lemma RoundResultBound(st: CurveState, chunk: seq<bool>, cap: nat)
    requires |chunk| == |st.mirror| && st.rotation < |chunk| && st.result < cap
    ensures Round(st, chunk).result < ShiftLeft(cap, |chunk|)
  {
    ShiftLeftGap(st.result, cap, |chunk|);
  }

  /** Every Hilbert value of a grid with `order` bits per dimension is below 2^(D order). */
  lemma HilbertValueBound(coords: seq<nat>, order: nat)
    requires |coords| > 0
    ensures HilbertValue(coords, order) < Pow2(|coords| * order)
  {
    CapacityIsPow2(|coords|, order);
  }

  /** The chunk-building loop of `map`: bit `order - 1 - i` of every coordinate, the first coordinate highest. */
  method ExtractChunk(coords: seq<nat>, order: nat, i: nat) returns (chunk: seq<bool>)
    requires i < order
    ensures chunk == Chunk(coords, order, i)
  {
    var d := |coords|;
    chunk := Zeros(d);
    for k := 0 to d
      invariant |chunk| == d
      invariant forall b :: 0 <= b < d ==> chunk[b] == (d - b - 1 < k && Bit(coords[d - b - 1], order - 1 - i))
    {
      if Bit(coords[k], order - 1 - i) {
        chunk := chunk[d - k - 1 := true];
      }
    }
  }

  /** The body of one round of `map`, on the state it carries between rounds. */
  method Transform(result: nat, rotation: nat, mirror: seq<bool>, chunk: seq<bool>)
    returns (result': nat, rotation': nat, mirror': seq<bool>)
    requires |chunk| == |mirror| && rotation < |chunk|
    ensures CurveState(result', rotation', mirror') == Round(CurveState(result, rotation, mirror), chunk)
  {
    var d := |chunk|;
    var c := RotateRight(Xor(chunk, mirror), rotation);
    var r := LeftXor(c);
    result' := Append(result, r);
    var p := PrincipalPosition(r);
    ghost var flipped := Flipped(c);
    if PopCount(c) % 2 == 0 {
      c := c[p := !c[p]];
    }
    assert c == flipped;
    mirror' := Xor(mirror, RotateRight(Xor(c, One(d)), rotation));
    rotation' := (rotation + p + 1) % d;
    ModSmall(rotation + p + 1, d);
  }

  /**
   * `map(point, bounds)` on a grid point: `order` rounds, each extracting one
   * bit of every coordinate, transforming the chunk and appending D bits.
   */
  method Map(coords: seq<nat>, order: nat) returns (result: nat)
    requires |coords| > 0
    ensures result == HilbertValue(coords, order)
  {
    result := 0;
    var rotation := 0;
    var mirror := Zeros(|coords|);
    for i := 0 to order
      invariant Rounds(coords, order, i) == CurveState(result, rotation, mirror)
    {
      var chunk := ExtractChunk(coords, order, i);
      result, rotation, mirror := Transform(result, rotation, mirror, chunk);
    }
  }
}

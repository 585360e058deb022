/** The integer vectors `ivec2`, `ivec3` and `ivec4` of Source/Math/Vector.h.
    A vector is its sequence of 32-bit components in x, y, z, w order; its
    length is the vector's dimension. Signed overflow is undefined behaviour
    in C++, so every operation that could overflow requires that it does not,
    and `/` truncates toward zero as C++ integer division does. */
module IntVectors {
  import MathHelpers

  const INT32_MIN: int := -0x8000_0000
  const INT32_MAX: int := 0x7fff_ffff

  predicate IsInt32(x: int) {
    INT32_MIN <= x <= INT32_MAX
  }

  type Int32 = x: int | IsInt32(x)

  datatype IVec = IVec(c: seq<Int32>)

  function IVec2(x: Int32, y: Int32): IVec { IVec([x, y]) }
  function IVec3(x: Int32, y: Int32, z: Int32): IVec { IVec([x, y, z]) }
  function IVec4(x: Int32, y: Int32, z: Int32, w: Int32): IVec { IVec([x, y, z, w]) }

  function Abs(x: int): nat { if x < 0 then -x else x }

  /** C++ `/` on `int`: the quotient with its fractional part discarded,
      so its magnitude is the floor of the magnitudes' quotient and its sign
      is the product of the operands' signs. */
  function TruncDiv(a: int, b: int): (q: int)
    requires b != 0
    ensures Abs(q) == Abs(a) / Abs(b)
    ensures q > 0 ==> (a > 0 && b > 0) || (a < 0 && b < 0)
    ensures q < 0 ==> (a > 0 && b < 0) || (a < 0 && b > 0)
    ensures Abs(q) <= Abs(a)
  {
    var A, B := Abs(a), Abs(b);
    NonNegQuotient(A, B);
    QuotientAtMost(A, B);
    var m := A / B;
    if (a < 0) == (b < 0) then m else -m
  }

  lemma NonNegQuotient(a: nat, b: nat)
    requires b > 0
    ensures a / b >= 0
  {
  }

  lemma DivBounds(a: nat, b: nat)
    requires b > 0
    ensures (a / b) * b <= a < (a / b) * b + b
  {
    assert a == (a / b) * b + a % b;
  }

  lemma NonNegProduct(x: nat, y: nat)
    ensures x * y >= 0
  {
  }

  lemma QuotientAtMost(a: nat, b: nat)
    requires b > 0
    ensures a / b <= a
  {
    var m := a / b;
    DivBounds(a, b);
    NonNegProduct(m, b - 1);
    assert m * b == m * (b - 1) + m;
  }

  lemma ProductMagnitude(x: int, y: int)
    ensures Abs(x * y) == Abs(x) * Abs(y)
    ensures x * y > 0 <==> (x > 0 && y > 0) || (x < 0 && y < 0)
    ensures x * y < 0 <==> (x > 0 && y < 0) || (x < 0 && y > 0)
  {
    if x < 0 && y < 0 {
      assert x * y == (-x) * (-y);
    } else if x < 0 {
      assert x * y == -((-x) * y);
    } else if y < 0 {
      assert x * y == -(x * (-y));
    }
  }

  /** The division `a / b` is defined in 32-bit C++: non-zero divisor, and not
      the one quotient that overflows. */
  predicate CanDivide(a: int, b: int) {
    b != 0 && !(a == INT32_MIN && b == -1)
  }

  lemma HalfQuotient(a: nat, b: nat)
    requires b >= 2
    ensures 2 * (a / b) <= a
  {
    var m := a / b;
    DivBounds(a, b);
    NonNegProduct(m, b - 2);
    assert m * b == m * (b - 2) + 2 * m;
  }

  lemma TruncDivFits(a: Int32, b: int)
    requires CanDivide(a, b)
    ensures IsInt32(TruncDiv(a, b))
  {
    var q := TruncDiv(a, b);
    assert IsInt32(a);
    if Abs(b) >= 2 {
      HalfQuotient(Abs(a), Abs(b));
      assert 2 * Abs(q) <= Abs(a);
    } else {
      assert Abs(a) / 1 == Abs(a);
      assert Abs(q) == Abs(a);
      if b == -1 {
        assert a != INT32_MIN;
      }
    }
  }

  /** The component-wise sum `a + b` (all three types; ivec3 `+=` too). */
  function Add(a: IVec, b: IVec): (r: IVec)
    requires |a.c| == |b.c|
    requires forall i :: 0 <= i < |a.c| ==> IsInt32(a.c[i] as int + b.c[i])
    ensures |r.c| == |a.c|
    ensures forall i :: 0 <= i < |r.c| ==> r.c[i] == a.c[i] as int + b.c[i]
  {
    IVec(seq(|a.c|, i requires 0 <= i < |a.c| => a.c[i] as int + b.c[i]))
  }

  /** The component-wise difference `a - b` (all three types; ivec3 `-=` too). */
  function Sub(a: IVec, b: IVec): (r: IVec)
    requires |a.c| == |b.c|
    requires forall i :: 0 <= i < |a.c| ==> IsInt32(a.c[i] as int - b.c[i])
    ensures |r.c| == |a.c|
    ensures forall i :: 0 <= i < |r.c| ==> r.c[i] == a.c[i] as int - b.c[i]
  {
    IVec(seq(|a.c|, i requires 0 <= i < |a.c| => a.c[i] as int - b.c[i]))
  }

  /** The component-wise product `a * b` (ivec2 and ivec3; `MultiplyComponents` of ivec3). */
  function Mul(a: IVec, b: IVec): (r: IVec)
    requires |a.c| == |b.c| && |a.c| in {2, 3}
    requires forall i :: 0 <= i < |a.c| ==> IsInt32(a.c[i] as int * b.c[i])
    ensures |r.c| == |a.c|
    ensures forall i :: 0 <= i < |r.c| ==> r.c[i] == a.c[i] as int * b.c[i]
  {
    IVec(seq(|a.c|, i requires 0 <= i < |a.c| => a.c[i] as int * b.c[i]))
  }

  /** The component-wise quotient `a / b` (ivec2 and ivec3): every divisor
      component must be non-zero. */
  function Div(a: IVec, b: IVec): (r: IVec)
    requires |a.c| == |b.c| && |a.c| in {2, 3}
    requires forall i :: 0 <= i < |a.c| ==> b.c[i] != 0 && !(a.c[i] == INT32_MIN && b.c[i] == -1)
    ensures |r.c| == |a.c|
    ensures forall i :: 0 <= i < |r.c| ==> r.c[i] == TruncDiv(a.c[i], b.c[i])
  {
    IVec(seq(|a.c|, i requires 0 <= i < |a.c| && CanDivide(a.c[i], b.c[i]) =>
      TruncDivFits(a.c[i], b.c[i]); TruncDiv(a.c[i], b.c[i]) as Int32))
  }

  /** Unary minus (all three types). */
  function Neg(v: IVec): (r: IVec)
    requires forall i :: 0 <= i < |v.c| ==> v.c[i] != INT32_MIN
    ensures |r.c| == |v.c|
    ensures forall i :: 0 <= i < |r.c| ==> r.c[i] == -v.c[i]
  {
    IVec(seq(|v.c|, i requires 0 <= i < |v.c| => -v.c[i]))
  }

  /** `v + s`, `v - s`, `v * s` with an int on the right (ivec2 and ivec3). */
  function AddScalar(v: IVec, s: int): (r: IVec)
    requires |v.c| in {2, 3}
    requires forall i :: 0 <= i < |v.c| ==> IsInt32(v.c[i] + s)
    ensures |r.c| == |v.c|
    ensures forall i :: 0 <= i < |r.c| ==> r.c[i] == v.c[i] + s
  {
    IVec(seq(|v.c|, i requires 0 <= i < |v.c| => v.c[i] + s))
  }

  function SubScalar(v: IVec, s: int): (r: IVec)
    requires |v.c| in {2, 3}
    requires forall i :: 0 <= i < |v.c| ==> IsInt32(v.c[i] - s)
    ensures |r.c| == |v.c|
    ensures forall i :: 0 <= i < |r.c| ==> r.c[i] == v.c[i] - s
  {
    IVec(seq(|v.c|, i requires 0 <= i < |v.c| => v.c[i] - s))
  }

  function MulScalar(v: IVec, s: int): (r: IVec)
    requires |v.c| in {2, 3}
    requires forall i :: 0 <= i < |v.c| ==> IsInt32(v.c[i] * s)
    ensures |r.c| == |v.c|
    ensures forall i :: 0 <= i < |r.c| ==> r.c[i] == v.c[i] * s
  {
    IVec(seq(|v.c|, i requires 0 <= i < |v.c| => v.c[i] * s))
  }

  /** `v / s` with an int on the right (ivec2 and ivec3). */
  function DivScalar(v: IVec, s: int): (r: IVec)
    requires |v.c| in {2, 3}
    requires s != 0 && !(s == -1 && INT32_MIN in v.c)
    ensures |r.c| == |v.c|
    ensures forall i :: 0 <= i < |r.c| ==> r.c[i] == TruncDiv(v.c[i], s)
  {
    IVec(seq(|v.c|, i requires 0 <= i < |v.c| && CanDivide(v.c[i], s) =>
      TruncDivFits(v.c[i], s); TruncDiv(v.c[i], s) as Int32))
  }

  /** `s + v` with the int on the left (all three types). */
  function ScalarAdd(s: int, v: IVec): (r: IVec)
    requires forall i :: 0 <= i < |v.c| ==> IsInt32(s + v.c[i])
    ensures |r.c| == |v.c|
    ensures forall i :: 0 <= i < |r.c| ==> r.c[i] as int - v.c[i] == s
  {
    IVec(seq(|v.c|, i requires 0 <= i < |v.c| => s + v.c[i]))
  }

  /** `s * v` with the int on the left (all three types). */
  function ScalarMul(s: int, v: IVec): (r: IVec)
    requires forall i :: 0 <= i < |v.c| ==> IsInt32(s * v.c[i])
    ensures |r.c| == |v.c|
    ensures forall i :: 0 <= i < |r.c| ==> r.c[i] == s * v.c[i]
  {
    IVec(seq(|v.c|, i requires 0 <= i < |v.c| => s * v.c[i]))
  }

  /** On ivec2 and ivec3, where both spellings exist, the int may stand on
      either side of `+` and `*`. */
  lemma ScalarOnEitherSide(v: IVec, s: int)
    requires |v.c| in {2, 3}
    ensures (forall i :: 0 <= i < |v.c| ==> IsInt32(v.c[i] + s)) ==> ScalarAdd(s, v) == AddScalar(v, s)
    ensures (forall i :: 0 <= i < |v.c| ==> IsInt32(v.c[i] * s)) ==> ScalarMul(s, v) == MulScalar(v, s)
  {
  }

  /** `s - v` with the int on the left (all three types): not `v - s`. */
  function ScalarSub(s: int, v: IVec): (r: IVec)
    requires forall i :: 0 <= i < |v.c| ==> IsInt32(s - v.c[i])
    ensures |r.c| == |v.c|
    ensures forall i :: 0 <= i < |r.c| ==> r.c[i] as int + v.c[i] == s
  {
    IVec(seq(|v.c|, i requires 0 <= i < |v.c| => s - v.c[i]))
  }

  /** `s / v` with the int on the left (all three types): `s` is divided by
      every component. */
  function ScalarDiv(s: int, v: IVec): (r: IVec)
    requires IsInt32(s)
    requires forall i :: 0 <= i < |v.c| ==> v.c[i] != 0 && !(s == INT32_MIN && v.c[i] == -1)
    ensures |r.c| == |v.c|
    ensures forall i :: 0 <= i < |r.c| ==> r.c[i] == TruncDiv(s, v.c[i])
  {
    IVec(seq(|v.c|, i requires 0 <= i < |v.c| && CanDivide(s, v.c[i]) =>
      TruncDivFits(s, v.c[i]); TruncDiv(s, v.c[i]) as Int32))
  }

  /** `operator[]`: asserts `0 <= i < n`, then reads component `i`. */
  function Index(v: IVec, i: int): (r: Int32)
    requires 0 <= i < |v.c|
    ensures i == 0 ==> r == v.c[0]
    ensures r in v.c
  {
    v.c[i]
  }

  /** A copy of `v` with component `i` replaced. */
  function With(v: IVec, i: nat, value: Int32): (r: IVec)
    requires i < |v.c|
    ensures |r.c| == |v.c| && r.c[i] == value
    ensures forall j :: 0 <= j < |v.c| && j != i ==> r.c[j] == v.c[j]
  {
    IVec(v.c[i := value])
  }

  function WithX(v: IVec, x: Int32): (r: IVec)
    requires |v.c| >= 2
    ensures r == With(v, 0, x)
  {
    IVec([x] + v.c[1..])
  }

  function WithY(v: IVec, y: Int32): (r: IVec)
    requires |v.c| >= 2
    ensures r == With(v, 1, y)
  {
    IVec([v.c[0], y] + v.c[2..])
  }

  function WithZ(v: IVec, z: Int32): (r: IVec)
    requires |v.c| >= 3
    ensures r == With(v, 2, z)
  {
    IVec(v.c[..2] + [z] + v.c[3..])
  }

  function WithW(v: IVec, w: Int32): (r: IVec)
    requires |v.c| == 4
    ensures r == With(v, 3, w)
  {
    IVec(v.c[..3] + [w])
  }

  /** `operator==`: every component equal. */
  predicate Eq(a: IVec, b: IVec): (r: bool)
    requires |a.c| == |b.c|
    ensures r <==> a == b
  {
    var same := forall i :: 0 <= i < |a.c| ==> a.c[i] == b.c[i];
    if same then assert a.c == b.c; true else false
  }

  /** `operator!=`: some component differs. */
  predicate Neq(a: IVec, b: IVec): (r: bool)
    requires |a.c| == |b.c|
    ensures r <==> a != b
  {
    exists i :: 0 <= i < |a.c| && a.c[i] != b.c[i]
  }

  /** `==` is value equality and `!=` its exact negation. */
  lemma EqualityIsValueEquality(a: IVec, b: IVec)
    requires |a.c| == |b.c|
    ensures Eq(a, b) <==> a == b
    ensures Neq(a, b) <==> !Eq(a, b)
  {
    if Eq(a, b) {
      assert a.c == b.c;
    }
  }

  /** The clamp ivec2 applies to one component: `v<min ? min : v>max ? max : v`. */
  function ClampComponent(value: Int32, min: Int32, max: Int32): (r: Int32)
    ensures min <= max ==> min <= r <= max
    ensures min <= value <= max ==> r == value
    ensures r == value || r == min || r == max
  {
    if value < min then min else if value > max then max else value
  }

  /** `ivec2::ClampX`: only x moves. */
  function ClampX(v: IVec, min: Int32, max: Int32): (r: IVec)
    requires |v.c| == 2
    ensures r.c == [ClampComponent(v.c[0], min, max), v.c[1]]
    ensures min <= max ==> min <= r.c[0] <= max
  {
    With(v, 0, ClampComponent(v.c[0], min, max))
  }

  /** `ivec2::ClampY`: only y moves. */
  function ClampY(v: IVec, min: Int32, max: Int32): (r: IVec)
    requires |v.c| == 2
    ensures r.c == [v.c[0], ClampComponent(v.c[1], min, max)]
    ensures min <= max ==> min <= r.c[1] <= max
  {
    With(v, 1, ClampComponent(v.c[1], min, max))
  }

  /** `ivec2::ClampXY`: both components, same bounds. */
  function ClampXY(v: IVec, min: Int32, max: Int32): (r: IVec)
    requires |v.c| == 2
    ensures r == ClampY(ClampX(v, min, max), min, max)
    ensures min <= max ==> forall i :: 0 <= i < 2 ==> min <= r.c[i] <= max
  {
    IVec([ClampComponent(v.c[0], min, max), ClampComponent(v.c[1], min, max)])
  }

  /** With ordered bounds the vector clamp agrees with `MyClamp_Return`. */
  lemma ClampAgreesWithMyClamp(value: Int32, min: Int32, max: Int32)
    requires min <= max
    ensures ClampComponent(value, min, max) == MathHelpers.ClampReturn(value, min, max)
  {
  }

  /** With crossed bounds the two clamps part ways: the vector clamp tests
      `min` first and returns it, `MyClamp_Return` ends at `max`. */
  lemma CrossedBoundsDisagree()
    ensures ClampComponent(0, 5, 1) == 5
    ensures MathHelpers.ClampReturn(0, 5, 1) == 1
  {
  }

  /** `ivec3::LengthSquared`, computed in `int`. */
  function LengthSquared(v: IVec): (r: int)
    requires |v.c| == 3
    requires IsInt32(v.c[0] as int * v.c[0] + v.c[1] as int * v.c[1] + v.c[2] as int * v.c[2])
    ensures r >= 0
    ensures r == 0 <==> v == IVec3(0, 0, 0)
  {
    var x, y, z: int := v.c[0], v.c[1], v.c[2];
    ProductMagnitude(x, x);
    ProductMagnitude(y, y);
    ProductMagnitude(z, z);
    x * x + y * y + z * z
  }

  /** Unary minus undoes itself. */
  lemma NegInvolution(v: IVec)
    requires forall i :: 0 <= i < |v.c| ==> v.c[i] != INT32_MIN
    ensures Neg(Neg(v)) == v
  {
    assert Neg(Neg(v)).c == v.c;
  }

  /** `(a - b) + b == a` whenever `a - b` does not overflow. */
  lemma SubThenAdd(a: IVec, b: IVec)
    requires |a.c| == |b.c|
    requires forall i :: 0 <= i < |a.c| ==> IsInt32(a.c[i] as int - b.c[i])
    ensures Add(Sub(a, b), b) == a
  {
    assert Add(Sub(a, b), b).c == a.c;
  }

  /** Indexing reads the named components in x, y, z, w order. */
  lemma IndexNamesComponents(x: Int32, y: Int32, z: Int32, w: Int32)
    ensures Index(IVec2(x, y), 0) == x && Index(IVec2(x, y), 1) == y
    ensures Index(IVec3(x, y, z), 0) == x && Index(IVec3(x, y, z), 1) == y && Index(IVec3(x, y, z), 2) == z
    ensures Index(IVec4(x, y, z, w), 0) == x && Index(IVec4(x, y, z, w), 1) == y
    ensures Index(IVec4(x, y, z, w), 2) == z && Index(IVec4(x, y, z, w), 3) == w
  {
  }
}

/** Carry-less arithmetic on bytes. */
module Bits {

  type Gf = bv8

  function Add(a: Gf, b: Gf): Gf {
    a ^ b
  }

  /** Multiplication by x modulo x^8 + x^4 + x^3 + x^2 + 1. */
  function TimesX(a: Gf): Gf {
    Add(a << 1, Reduction(a))
  }

  function Reduction(a: Gf): Gf {
    if a & 0x80 == 0 then 0 else 0x1D
  }

  lemma AddCommutes(a: Gf, b: Gf)
    ensures Add(a, b) == Add(b, a)
  {
  }

  lemma AddAssociates(a: Gf, b: Gf, c: Gf)
    ensures Add(Add(a, b), c) == Add(a, Add(b, c))
  {
  }

  lemma AddZero(a: Gf)
    ensures Add(a, 0) == a && Add(0, a) == a
  {
  }

  lemma AddExchanges(a: Gf, b: Gf, c: Gf, d: Gf)
    ensures Add(Add(a, b), Add(c, d)) == Add(Add(a, c), Add(b, d))
  {
    AddAssociates(a, b, Add(c, d));
    AddAssociates(b, c, d);
    AddCommutes(b, c);
    AddAssociates(c, b, d);
    AddAssociates(a, c, Add(b, d));
  }

  lemma TimesXAdds(a: Gf, b: Gf)
    ensures TimesX(Add(a, b)) == Add(TimesX(a), TimesX(b))
  {
    ShiftAdds(a, b);
    ReductionAdds(a, b);
    AddExchanges(a << 1, b << 1, Reduction(a), Reduction(b));
  }

  lemma ReductionAdds(a: Gf, b: Gf)
    ensures Reduction(Add(a, b)) == Add(Reduction(a), Reduction(b))
  {
    HighBit(a, b);
  }

  lemma HighBit(a: Gf, b: Gf)
    ensures Add(a, b) & 0x80 == 0 <==> (a & 0x80 == 0 <==> b & 0x80 == 0)
  {
  }

  lemma ShiftAdds(a: Gf, b: Gf)
    ensures Add(a, b) << 1 == Add(a << 1, b << 1)
  {
  }

  lemma TimesXZero()
    ensures TimesX(0) == 0
  {
  }
}

/** The field of 256 elements the Reed-Solomon code works over, and the linear algebra the grid needs. */
module Gf256 {
  import opened Bits

  function MulSteps(n: nat, a: Gf, b: Gf): Gf {
    if n == 0 then 0 else Add(if a & 1 == 1 then b else 0, MulSteps(n - 1, a >> 1, TimesX(b)))
  }

  function Mul(a: Gf, b: Gf): Gf {
    MulSteps(8, a, b)
  }

  // ---------- laws ----------

  lemma {:induction false} MulAdds(n: nat, a: Gf, b: Gf, c: Gf)
    ensures MulSteps(n, a, Add(b, c)) == Add(MulSteps(n, a, b), MulSteps(n, a, c))
  {
    if n > 0 {
      TimesXAdds(b, c);
      MulAdds(n - 1, a >> 1, TimesX(b), TimesX(c));
      if a & 1 == 1 {
        AddExchanges(b, c, MulSteps(n - 1, a >> 1, TimesX(b)), MulSteps(n - 1, a >> 1, TimesX(c)));
      } else {
        AddZero(0);
        AddExchanges(0, 0, MulSteps(n - 1, a >> 1, TimesX(b)), MulSteps(n - 1, a >> 1, TimesX(c)));
      }
    }
  }

  lemma {:induction false} MulZero(n: nat, a: Gf)
    ensures MulSteps(n, a, 0) == 0
  {
    if n > 0 {
      TimesXZero();
      MulZero(n - 1, a >> 1);
      assert (if a & 1 == 1 then 0 else 0) == 0 as Gf;
    }
  }

  lemma {:induction false} MulTimesX(n: nat, a: Gf, b: Gf)
    ensures TimesX(MulSteps(n, a, b)) == MulSteps(n, a, TimesX(b))
  {
    if n > 0 {
      var rest := MulSteps(n - 1, a >> 1, TimesX(b));
      MulTimesX(n - 1, a >> 1, TimesX(b));
      TimesXAdds(if a & 1 == 1 then b else 0, rest);
      TimesXZero();
    } else {
      TimesXZero();
    }
  }

  /** Multiplications commute with each other: each is a polynomial in `TimesX`. */
  lemma {:induction false} MulsCommute(n: nat, a: Gf, m: nat, b: Gf, c: Gf)
    ensures MulSteps(n, a, MulSteps(m, b, c)) == MulSteps(m, b, MulSteps(n, a, c))
  {
    if n == 0 {
      MulZero(m, b);
    } else {
      var inner := MulSteps(m, b, c);
      var low := if a & 1 == 1 then c else 0;
      MulTimesX(m, b, c);
      MulsCommute(n - 1, a >> 1, m, b, TimesX(c));
      MulAdds(m, b, low, MulSteps(n - 1, a >> 1, TimesX(c)));
      if a & 1 != 1 { MulZero(m, b); }
    }
  }

  // ---------- dot products ----------

  function Dot(u: seq<Gf>, v: seq<Gf>): Gf
    requires |u| == |v|
  {
    if u == [] then 0 else Add(Mul(u[0], v[0]), Dot(u[1..], v[1..]))
  }

  function AddVec(u: seq<Gf>, v: seq<Gf>): (r: seq<Gf>)
    requires |u| == |v|
    ensures |r| == |u|
  {
    seq(|u|, i requires 0 <= i < |u| => Add(u[i], v[i]))
  }

  function Scale(a: Gf, v: seq<Gf>): (r: seq<Gf>)
    ensures |r| == |v|
  {
    seq(|v|, i requires 0 <= i < |v| => Mul(a, v[i]))
  }

  lemma {:induction false} DotAdds(u: seq<Gf>, v: seq<Gf>, w: seq<Gf>)
    requires |u| == |v| == |w|
    ensures Dot(u, AddVec(v, w)) == Add(Dot(u, v), Dot(u, w))
  {
    if u != [] {
      assert AddVec(v, w)[1..] == AddVec(v[1..], w[1..]);
      DotAdds(u[1..], v[1..], w[1..]);
      MulAdds(8, u[0], v[0], w[0]);
      AddExchanges(Mul(u[0], v[0]), Mul(u[0], w[0]), Dot(u[1..], v[1..]), Dot(u[1..], w[1..]));
    } else {
      AddZero(0);
    }
  }

  lemma {:induction false} DotScales(u: seq<Gf>, a: Gf, v: seq<Gf>)
    requires |u| == |v|
    ensures Dot(u, Scale(a, v)) == Mul(a, Dot(u, v))
  {
    if u != [] {
      assert Scale(a, v)[1..] == Scale(a, v[1..]);
      DotScales(u[1..], a, v[1..]);
      MulsCommute(8, u[0], 8, a, v[0]);
      MulAdds(8, a, Mul(u[0], v[0]), Dot(u[1..], v[1..]));
    } else {
      MulZero(8, a);
    }
  }

  /** Every row of the matrix has `n` entries. */
  ghost predicate IsMatrix(m: seq<seq<Gf>>, n: nat) {
    forall i :: 0 <= i < |m| ==> |m[i]| == n
  }

  function Col(m: seq<seq<Gf>>, j: nat): (r: seq<Gf>)
    requires forall i :: 0 <= i < |m| ==> j < |m[i]|
    ensures |r| == |m| && forall i :: 0 <= i < |m| ==> r[i] == m[i][j]
  {
    seq(|m|, i requires 0 <= i < |m| => m[i][j])
  }

  /** The dot product of `v` with each row, and of `u` with each column. */
  function RowDots(m: seq<seq<Gf>>, v: seq<Gf>): (r: seq<Gf>)
    requires forall i :: 0 <= i < |m| ==> |m[i]| == |v|
    ensures |r| == |m| && forall i :: 0 <= i < |m| ==> r[i] == Dot(v, m[i])
  {
    seq(|m|, i requires 0 <= i < |m| => Dot(v, m[i]))
  }

  ghost function ColDots(m: seq<seq<Gf>>, u: seq<Gf>, n: nat): (r: seq<Gf>)
    requires IsMatrix(m, n) && |u| == |m|
    ensures |r| == n && forall j :: 0 <= j < n ==> r[j] == Dot(u, Col(m, j))
  {
    seq(n, j requires 0 <= j < n => Dot(u, Col(m, j)))
  }

  lemma {:induction false} DotZeros(v: seq<Gf>, z: seq<Gf>)
    requires |v| == |z| && forall j :: 0 <= j < |z| ==> z[j] == 0
    ensures Dot(v, z) == 0
  {
    if v != [] {
      MulZero(8, v[0]);
      DotZeros(v[1..], z[1..]);
      AddZero(0);
    }
  }

  /** Swapping the sums: combining rows then columns is combining columns then rows. */
  lemma {:induction false} SwapSums(m: seq<seq<Gf>>, u: seq<Gf>, v: seq<Gf>)
    requires IsMatrix(m, |v|) && |u| == |m|
    ensures Dot(u, RowDots(m, v)) == Dot(v, ColDots(m, u, |v|))
  {
    var cols := ColDots(m, u, |v|);
    if m == [] {
      DotZeros(v, cols);
    } else {
      var m', u' := m[1..], u[1..];
      SwapSums(m', u', v);
      assert RowDots(m, v)[1..] == RowDots(m', v);
      forall j | 0 <= j < |v| ensures cols[j] == Add(Mul(u[0], m[0][j]), Dot(u', Col(m', j))) {
        assert Col(m, j)[1..] == Col(m', j);
      }
      assert cols == AddVec(Scale(u[0], m[0]), ColDots(m', u', |v|));
      DotAdds(v, Scale(u[0], m[0]), ColDots(m', u', |v|));
      DotScales(v, u[0], m[0]);
    }
  }
}

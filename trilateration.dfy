/**
 * The position step of `processar_dados`: anchors A0 = (0, 0), A1 = (kx, 0) and
 * A2 = (0, ky), and a tag at distances r0, r1, r2 from them. Arithmetic is exact
 * over the reals.
 */
module Trilateration {

  datatype Vec = Vec(x: real, y: real)

  function Add(a: Vec, b: Vec): Vec {
    Vec(a.x + b.x, a.y + b.y)
  }

  function Sub(a: Vec, b: Vec): Vec {
    Vec(a.x - b.x, a.y - b.y)
  }

  function Scale(c: real, v: Vec): Vec {
    Vec(c * v.x, c * v.y)
  }

  /** Division of a vector by a non-zero scalar, as numpy divides an array. */
  function Div(v: Vec, c: real): Vec
    requires c != 0.0
  {
    Vec(v.x / c, v.y / c)
  }

  function Dot(a: Vec, b: Vec): real {
    a.x * b.x + a.y * b.y
  }

  /** The squared distance between two points. */
  function Dist2(a: Vec, b: Vec): real {
    Dot(Sub(a, b), Sub(a, b))
  }

  function Abs(r: real): (a: real)
    ensures a >= 0.0
  {
    if r < 0.0 then -r else r
  }

  /**
   * `np.linalg.norm(v)` for a vector on an axis, the only kind the position step
   * takes the norm of: the non-negative root of `v . v`.
   */
  function AxisNorm(v: Vec): (n: real)
    requires v.x == 0.0 || v.y == 0.0
    ensures n >= 0.0
  {
    if v.x == 0.0 then Abs(v.y) else Abs(v.x)
  }

  /** `AxisNorm` is the Euclidean length: its square is `v . v`, and it is zero only at the origin. */
  lemma AxisNormIsLength(v: Vec)
    requires v.x == 0.0 || v.y == 0.0
    ensures AxisNorm(v) * AxisNorm(v) == Dot(v, v)
    ensures AxisNorm(v) == 0.0 <==> v == Vec(0.0, 0.0)
  {
  }

  /** A positive span divided by itself is one, and zero divided by it is zero. */
  lemma DivSelf(c: real)
    requires c > 0.0
    ensures c / c == 1.0 && 0.0 / c == 0.0
  {
    assert (c / c) * c == c;
  }

  /** A linear equation `2 a q - a^2 == b` with `a > 0` has exactly one solution. */
  lemma SolveAxis(a: real, b: real, q: real)
    requires a > 0.0
    ensures 2.0 * a * q - a * a == b <==> q == (b + a * a) / (2.0 * a)
  {
    var s := (b + a * a) / (2.0 * a);
    assert s * (2.0 * a) == b + a * a;
    if 2.0 * a * q - a * a == b {
      assert (q - s) * (2.0 * a) == 0.0;
    }
  }

  /** The squared distances to A0 and to A1 differ by a linear term in `q.x`. */
  lemma RadicalX(q: Vec, kx: real)
    ensures Dist2(q, Vec(0.0, 0.0)) - Dist2(q, Vec(kx, 0.0)) == 2.0 * kx * q.x - kx * kx
  {
    assert Dist2(q, Vec(kx, 0.0)) == (q.x - kx) * (q.x - kx) + q.y * q.y;
    assert (q.x - kx) * (q.x - kx) == q.x * q.x - 2.0 * kx * q.x + kx * kx;
  }

  /** The squared distances to A0 and to A2 differ by a linear term in `q.y`. */
  lemma RadicalY(q: Vec, ky: real)
    ensures Dist2(q, Vec(0.0, 0.0)) - Dist2(q, Vec(0.0, ky)) == 2.0 * ky * q.y - ky * ky
  {
    assert Dist2(q, Vec(0.0, ky)) == q.x * q.x + (q.y - ky) * (q.y - ky);
    assert (q.y - ky) * (q.y - ky) == q.y * q.y - 2.0 * ky * q.y + ky * ky;
  }

  /**
   * The position step, one numpy statement at a time: the unit vectors `ex` and
   * `ey` along the anchor axes, the offsets `i` and `j`, the span `d`, and the
   * coordinates of the tag in that frame.
   */
  function Locate(r0: real, r1: real, r2: real, kx: real, ky: real): (pos: Vec)
    requires kx > 0.0 && ky > 0.0
  {
    var a0 := Vec(0.0, 0.0);
    var a1 := Vec(kx, 0.0);
    var a2 := Vec(0.0, ky);
    var p1 := Sub(a1, a0);
    var p2 := Sub(a2, a0);
    DivSelf(kx);
    DivSelf(ky);
    var ex := Div(p1, AxisNorm(p1));
    var i := Dot(ex, p2);
    var w := Sub(p2, Scale(i, ex));
    assert w == Vec(0.0, ky);
    var ey := Div(w, AxisNorm(w));
    var d := AxisNorm(p1);
    var j := Dot(ey, p2);
    var x := (r0 * r0 - r1 * r1 + d * d) / (2.0 * d);
    var y := (r0 * r0 - r2 * r2 + i * i + j * j - 2.0 * i * x) / (2.0 * j);
    Add(Add(a0, Scale(x, ex)), Scale(y, ey))
  }

  /** The position step reduces to one closed form per axis. */
  lemma LocateClosedForm(r0: real, r1: real, r2: real, kx: real, ky: real)
    requires kx > 0.0 && ky > 0.0
    ensures Locate(r0, r1, r2, kx, ky)
         == Vec((r0 * r0 - r1 * r1 + kx * kx) / (2.0 * kx),
                (r0 * r0 - r2 * r2 + ky * ky) / (2.0 * ky))
  {
    DivSelf(kx);
    DivSelf(ky);
    var ex := Div(Vec(kx, 0.0), AxisNorm(Vec(kx, 0.0)));
    assert ex == Vec(1.0, 0.0);
    var i := Dot(ex, Vec(0.0, ky));
    assert i == 0.0;
    var w := Sub(Vec(0.0, ky), Scale(i, ex));
    assert w == Vec(0.0, ky);
    var ey := Div(w, AxisNorm(w));
    assert ey == Vec(0.0, 1.0);
    var j := Dot(ey, Vec(0.0, ky));
    assert j == ky;
    var x := (r0 * r0 - r1 * r1 + kx * kx) / (2.0 * kx);
    assert r0 * r0 - r2 * r2 + i * i + j * j - 2.0 * i * x == r0 * r0 - r2 * r2 + ky * ky;
  }

  /** `x` uses only r0, r1 and kx; `y` uses only r0, r2 and ky. */
  lemma LocateSeparable(r0: real, r1: real, r2: real, kx: real, ky: real,
                        r2': real, ky': real, r1': real, kx': real)
    requires kx > 0.0 && ky > 0.0 && kx' > 0.0 && ky' > 0.0
    ensures Locate(r0, r1, r2, kx, ky).x == Locate(r0, r1, r2', kx, ky').x
    ensures Locate(r0, r1, r2, kx, ky).y == Locate(r0, r1', r2, kx', ky).y
  {
    LocateClosedForm(r0, r1, r2, kx, ky);
    LocateClosedForm(r0, r1, r2', kx, ky');
    LocateClosedForm(r0, r1', r2, kx', ky);
  }

  /** The closed-form point satisfies both linear equations. */
  lemma SolutionOnAxes(p: Vec, r0: real, r1: real, r2: real, kx: real, ky: real)
    requires kx > 0.0 && ky > 0.0
    requires p == Vec((r0 * r0 - r1 * r1 + kx * kx) / (2.0 * kx), (r0 * r0 - r2 * r2 + ky * ky) / (2.0 * ky))
    ensures Dist2(p, Vec(0.0, 0.0)) - Dist2(p, Vec(kx, 0.0)) == r0 * r0 - r1 * r1
    ensures Dist2(p, Vec(0.0, 0.0)) - Dist2(p, Vec(0.0, ky)) == r0 * r0 - r2 * r2
  {
    RadicalX(p, kx);
    RadicalY(p, ky);
    SolveAxis(kx, r0 * r0 - r1 * r1, p.x);
    SolveAxis(ky, r0 * r0 - r2 * r2, p.y);
  }

  /** Only the closed-form point satisfies both linear equations. */
  lemma SolutionUnique(q: Vec, r0: real, r1: real, r2: real, kx: real, ky: real)
    requires kx > 0.0 && ky > 0.0
    requires Dist2(q, Vec(0.0, 0.0)) - Dist2(q, Vec(kx, 0.0)) == r0 * r0 - r1 * r1
    requires Dist2(q, Vec(0.0, 0.0)) - Dist2(q, Vec(0.0, ky)) == r0 * r0 - r2 * r2
    ensures q == Vec((r0 * r0 - r1 * r1 + kx * kx) / (2.0 * kx), (r0 * r0 - r2 * r2 + ky * ky) / (2.0 * ky))
  {
    RadicalX(q, kx);
    RadicalY(q, ky);
    SolveAxis(kx, r0 * r0 - r1 * r1, q.x);
    SolveAxis(ky, r0 * r0 - r2 * r2, q.y);
  }

  /**
   * The located point lies on both radical axes: its squared distances to A0 and
   * A1 differ by r0^2 - r1^2, and to A0 and A2 by r0^2 - r2^2.
   */
  lemma LocateOnRadicalAxes(r0: real, r1: real, r2: real, kx: real, ky: real)
    requires kx > 0.0 && ky > 0.0
    ensures Dist2(Locate(r0, r1, r2, kx, ky), Vec(0.0, 0.0))
          - Dist2(Locate(r0, r1, r2, kx, ky), Vec(kx, 0.0)) == r0 * r0 - r1 * r1
    ensures Dist2(Locate(r0, r1, r2, kx, ky), Vec(0.0, 0.0))
          - Dist2(Locate(r0, r1, r2, kx, ky), Vec(0.0, ky)) == r0 * r0 - r2 * r2
  {
    LocateClosedForm(r0, r1, r2, kx, ky);
    var p := Vec((r0 * r0 - r1 * r1 + kx * kx) / (2.0 * kx), (r0 * r0 - r2 * r2 + ky * ky) / (2.0 * ky));
    SolutionOnAxes(p, r0, r1, r2, kx, ky);
  }

  /** No other point lies on both radical axes: the position is determined. */
  lemma LocateUnique(r0: real, r1: real, r2: real, kx: real, ky: real, q: Vec)
    requires kx > 0.0 && ky > 0.0
    requires Dist2(q, Vec(0.0, 0.0)) - Dist2(q, Vec(kx, 0.0)) == r0 * r0 - r1 * r1
    requires Dist2(q, Vec(0.0, 0.0)) - Dist2(q, Vec(0.0, ky)) == r0 * r0 - r2 * r2
    ensures Locate(r0, r1, r2, kx, ky) == q
  {
    LocateClosedForm(r0, r1, r2, kx, ky);
    SolutionUnique(q, r0, r1, r2, kx, ky);
  }

  /**
   * Round trip: distances measured from any point to the three anchors locate
   * that same point.
   */
  lemma LocateRoundTrip(p: Vec, r0: real, r1: real, r2: real, kx: real, ky: real)
    requires kx > 0.0 && ky > 0.0
    requires r0 * r0 == Dist2(p, Vec(0.0, 0.0))
    requires r1 * r1 == Dist2(p, Vec(kx, 0.0))
    requires r2 * r2 == Dist2(p, Vec(0.0, ky))
    ensures Locate(r0, r1, r2, kx, ky) == p
  {
    LocateUnique(r0, r1, r2, kx, ky, p);
  }
}

/** Cubic Bezier curves over the reals and their halving, the step that curve flattening repeats. */
module Bezier {

  datatype Pt = Pt(x: real, y: real)

  datatype Cubic = Cubic(p1: Pt, p2: Pt, p3: Pt, p4: Pt)

  function Eval(t: real, p0: real, p1: real, p2: real, p3: real): real {
    var it := 1.0 - t;
    it*it*it*p0 + 3.0*it*it*t*p1 + 3.0*it*t*t*p2 + t*t*t*p3
  }

  function At(c: Cubic, t: real): Pt {
    Pt(Eval(t, c.p1.x, c.p2.x, c.p3.x, c.p4.x), Eval(t, c.p1.y, c.p2.y, c.p3.y, c.p4.y))
  }

  function Mid(a: Pt, b: Pt): Pt {
    Pt((a.x + b.x) * 0.5, (a.y + b.y) * 0.5)
  }

  function LeftHalf(c: Cubic): Cubic {
    var p12, p23, p34 := Mid(c.p1, c.p2), Mid(c.p2, c.p3), Mid(c.p3, c.p4);
    var p123, p234 := Mid(p12, p23), Mid(p23, p34);
    Cubic(c.p1, p12, p123, Mid(p123, p234))
  }

  function RightHalf(c: Cubic): Cubic {
    var p12, p23, p34 := Mid(c.p1, c.p2), Mid(c.p2, c.p3), Mid(c.p3, c.p4);
    var p123, p234 := Mid(p12, p23), Mid(p23, p34);
    Cubic(Mid(p123, p234), p234, p34, c.p4)
  }

  /** The four Bernstein polynomials at t/2, in terms of those at t. */
  lemma BernsteinHalf(t: real)
    ensures var h := t * 0.5; var u := 1.0 - t; var w := 1.0 - h;
            && w*w*w == u*u*u + 3.0*u*u*t*0.5 + 3.0*u*t*t*0.25 + t*t*t*0.125
            && 3.0*w*w*h == 3.0*u*u*t*0.5 + 3.0*u*t*t*0.5 + t*t*t*0.375
            && 3.0*w*h*h == 3.0*u*t*t*0.25 + t*t*t*0.375
            && h*h*h == t*t*t*0.125
  {
  }

  lemma EvalLeft(t: real, a: real, b: real, c: real, d: real)
    ensures var ab := (a + b) * 0.5; var bc := (b + c) * 0.5; var cd := (c + d) * 0.5;
            var abc := (ab + bc) * 0.5; var bcd := (bc + cd) * 0.5;
            Eval(t, a, ab, abc, (abc + bcd) * 0.5) == Eval(t * 0.5, a, b, c, d)
  {
    BernsteinHalf(t);
  }

  lemma EvalReverse(t: real, a: real, b: real, c: real, d: real)
    ensures Eval(t, a, b, c, d) == Eval(1.0 - t, d, c, b, a)
  {
  }

  lemma EvalRight(t: real, a: real, b: real, c: real, d: real)
    ensures var ab := (a + b) * 0.5; var bc := (b + c) * 0.5; var cd := (c + d) * 0.5;
            var abc := (ab + bc) * 0.5; var bcd := (bc + cd) * 0.5;
            Eval(t, (abc + bcd) * 0.5, bcd, cd, d) == Eval((1.0 + t) * 0.5, a, b, c, d)
  {
    var ab := (a + b) * 0.5; var bc := (b + c) * 0.5; var cd := (c + d) * 0.5;
    var abc := (ab + bc) * 0.5; var bcd := (bc + cd) * 0.5;
    EvalReverse(t, (abc + bcd) * 0.5, bcd, cd, d);
    EvalLeft(1.0 - t, d, c, b, a);
    EvalReverse((1.0 + t) * 0.5, a, b, c, d);
    assert (1.0 - t) * 0.5 == 1.0 - (1.0 + t) * 0.5;
  }

  /** Each half of a split traces exactly its half of the curve. */
  lemma HalvesReparametrise(c: Cubic, t: real)
    ensures At(LeftHalf(c), t) == At(c, t * 0.5)
    ensures At(RightHalf(c), t) == At(c, (1.0 + t) * 0.5)
  {
    EvalLeft(t, c.p1.x, c.p2.x, c.p3.x, c.p4.x);
    EvalLeft(t, c.p1.y, c.p2.y, c.p3.y, c.p4.y);
    EvalRight(t, c.p1.x, c.p2.x, c.p3.x, c.p4.x);
    EvalRight(t, c.p1.y, c.p2.y, c.p3.y, c.p4.y);
  }
}

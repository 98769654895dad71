/** Beam geometry: from offsets in the acoustic plane over the body frame to the navigation frame. */
module Transform {
  import opened Variogram

  datatype Vec3 = Vec3(x: real, y: real, z: real)

  /** A matrix as its three rows. */
  datatype Matrix = Matrix(r0: Vec3, r1: Vec3, r2: Vec3)

  function Dot(a: Vec3, b: Vec3): real {
    a.x * b.x + a.y * b.y + a.z * b.z
  }

  function Cross(a: Vec3, b: Vec3): Vec3 {
    Vec3(a.y * b.z - a.z * b.y, a.z * b.x - a.x * b.z, a.x * b.y - a.y * b.x)
  }

  function RotationMatrixRPY(f: Maths, roll: real, pitch: real, heading: real): Matrix {
    var cr, sr, cp, sp, ch, sh := f.cos(roll), f.sin(roll), f.cos(pitch), f.sin(pitch), f.cos(heading), f.sin(heading);
    Matrix(Vec3(ch * cp, -sh * cr + ch * sp * sr, sh * sr + ch * sp * cr),
           Vec3(sh * cp, ch * cr + sh * sp * sr, -ch * sr + sh * sp * cr),
           Vec3(-sp, cp * sr, cp * cr))
  }

  function ApplyRotation(m: Matrix, v: Vec3): Vec3 {
    Vec3(m.r0.x * v.x + m.r0.y * v.y + m.r0.z * v.z,
         m.r1.x * v.x + m.r1.y * v.y + m.r1.z * v.z,
         m.r2.x * v.x + m.r2.y * v.y + m.r2.z * v.z)
  }

  function AcousticToBody(f: Maths, horiz: real, depth: real, tiltAlong: real, tiltAcross: real): Vec3 {
    var ctA, stA, ctC, stC := f.cos(tiltAlong), f.sin(tiltAlong), f.cos(tiltAcross), f.sin(tiltAcross);
    Vec3(horiz * ctA - depth * stA,
         horiz * stC * stA + depth * stC * ctA,
         -horiz * ctC * stA - depth * ctC * ctA)
  }

  function BodyToNav(f: Maths, body: Vec3, roll: real, pitch: real, heading: real): Vec3 {
    ApplyRotation(RotationMatrixRPY(f, roll, pitch, heading), body)
  }

  // ---------- A rotation is three turns ----------

  function AboutX(c: real, s: real, v: Vec3): Vec3 {
    Vec3(v.x, c * v.y - s * v.z, s * v.y + c * v.z)
  }

  function AboutY(c: real, s: real, v: Vec3): Vec3 {
    Vec3(c * v.x + s * v.z, v.y, -s * v.x + c * v.z)
  }

  function AboutZ(c: real, s: real, v: Vec3): Vec3 {
    Vec3(c * v.x - s * v.y, s * v.x + c * v.y, v.z)
  }

  /** The matrix rolls about the first axis, then pitches about the second, then turns about the third. */
  lemma RotationIsThreeTurns(f: Maths, roll: real, pitch: real, heading: real, v: Vec3)
    ensures BodyToNav(f, v, roll, pitch, heading)
         == AboutZ(f.cos(heading), f.sin(heading), AboutY(f.cos(pitch), f.sin(pitch), AboutX(f.cos(roll), f.sin(roll), v)))
  {
    ThreeTurns(f.cos(roll), f.sin(roll), f.cos(pitch), f.sin(pitch), f.cos(heading), f.sin(heading), v);
  }

  lemma ThreeTurns(cr: real, sr: real, cp: real, sp: real, ch: real, sh: real, v: Vec3)
    ensures ApplyRotation(Matrix(Vec3(ch * cp, -sh * cr + ch * sp * sr, sh * sr + ch * sp * cr),
                                 Vec3(sh * cp, ch * cr + sh * sp * sr, -ch * sr + sh * sp * cr),
                                 Vec3(-sp, cp * sr, cp * cr)), v)
         == AboutZ(ch, sh, AboutY(cp, sp, AboutX(cr, sr, v)))
  {
    var m := Matrix(Vec3(ch * cp, -sh * cr + ch * sp * sr, sh * sr + ch * sp * cr),
                    Vec3(sh * cp, ch * cr + sh * sp * sr, -ch * sr + sh * sp * cr),
                    Vec3(-sp, cp * sr, cp * cr));
    var u := AboutX(cr, sr, v);
    var w := AboutY(cp, sp, u);
    Row(m.r0, v, ch, -sh, cp, sp, cr, sr, u, w);
    Row(m.r1, v, sh, ch, cp, sp, cr, sr, u, w);
    LastRow(cp, sp, cr, sr, v.x, v.y, v.z, u.z);
    assert (-sh) * w.y == -(sh * w.y);
  }

  lemma LastRow(cp: real, sp: real, cr: real, sr: real, x: real, y: real, z: real, z': real)
    requires z' == sr * y + cr * z
    ensures -sp * x + cp * sr * y + cp * cr * z == -sp * x + cp * z'
  {
    assert cp * z' == cp * (sr * y + cr * z);
  }

  /** One row of the matrix, applied to v, combines the pitched components of v. */
  lemma Row(row: Vec3, v: Vec3, c: real, s: real, cp: real, sp: real, cr: real, sr: real, u: Vec3, w: Vec3)
    requires row.x == c * cp && row.y == s * cr + c * sp * sr && row.z == -s * sr + c * sp * cr
    requires u == AboutX(cr, sr, v) && w == AboutY(cp, sp, u)
    ensures row.x * v.x + row.y * v.y + row.z * v.z == c * w.x + s * w.y
  {
    RowExpands(row.x, row.y, row.z, v.x, v.y, v.z, c, s, cp, sp, cr, sr, u.y, u.z, w.x);
  }

  lemma RowExpands(r1: real, r2: real, r3: real, x: real, y: real, z: real, c: real, s: real, cp: real, sp: real,
                   cr: real, sr: real, y': real, z': real, x'': real)
    requires r1 == c * cp && r2 == s * cr + c * sp * sr && r3 == -s * sr + c * sp * cr
    requires y' == cr * y - sr * z && z' == sr * y + cr * z && x'' == cp * x + sp * z'
    ensures r1 * x + r2 * y + r3 * z == c * x'' + s * y'
  {
    assert c * x'' + s * y' == c * (cp * x + sp * (sr * y + cr * z)) + s * (cr * y - sr * z);
  }

  // ---------- Turns keep lengths, angles and handedness ----------

  /** Turning a plane keeps the products and the oriented area of two of its vectors. */
  lemma PlaneTurn(c: real, s: real, a: real, b: real, p: real, q: real)
    requires c * c + s * s == 1.0
    ensures (c * a - s * b) * (c * p - s * q) + (s * a + c * b) * (s * p + c * q) == a * p + b * q
    ensures (c * a - s * b) * (s * p + c * q) - (s * a + c * b) * (c * p - s * q) == a * q - b * p
  {
    assert (c * a - s * b) * (c * p - s * q) + (s * a + c * b) * (s * p + c * q) == (c * c + s * s) * (a * p + b * q);
    assert (c * a - s * b) * (s * p + c * q) - (s * a + c * b) * (c * p - s * q) == (c * c + s * s) * (a * q - b * p);
  }

  /** The same, with the turned vectors (a', b') and (p', q') named. */
  lemma PlaneTurned(c: real, s: real, a: real, b: real, p: real, q: real, a': real, b': real, p': real, q': real)
    requires c * c + s * s == 1.0
    requires a' == c * a - s * b && b' == s * a + c * b && p' == c * p - s * q && q' == s * p + c * q
    ensures a' * p' + b' * q' == a * p + b * q
    ensures a' * q' - b' * p' == a * q - b * p
  {
    PlaneTurn(c, s, a, b, p, q);
  }

  /** The part of a cross product that lies in the turned plane turns along. */
  lemma CrossTurned(c: real, s: real, a1: real, a2: real, a3: real, b1: real, b2: real, b3: real,
                    p2: real, p3: real, q2: real, q3: real, r2: real, r3: real)
    requires p2 == c * a2 - s * a3 && p3 == s * a2 + c * a3 && q2 == c * b2 - s * b3 && q3 == s * b2 + c * b3
    requires r2 == a3 * b1 - a1 * b3 && r3 == a1 * b2 - a2 * b1
    ensures p3 * b1 - a1 * q3 == c * r2 - s * r3
    ensures a1 * q2 - p2 * b1 == s * r2 + c * r3
  {
  }

  lemma AboutXKeeps(c: real, s: real, a: Vec3, b: Vec3)
    requires c * c + s * s == 1.0
    ensures Dot(AboutX(c, s, a), AboutX(c, s, b)) == Dot(a, b)
    ensures Cross(AboutX(c, s, a), AboutX(c, s, b)) == AboutX(c, s, Cross(a, b))
  {
    hide Cross;
    var p, q := AboutX(c, s, a), AboutX(c, s, b);
    PlaneTurned(c, s, a.y, a.z, b.y, b.z, p.y, p.z, q.y, q.z);
    AboutXKeepsCross(c, s, a, b);
  }

  lemma AboutXKeepsCross(c: real, s: real, a: Vec3, b: Vec3)
    requires c * c + s * s == 1.0
    ensures Cross(AboutX(c, s, a), AboutX(c, s, b)) == AboutX(c, s, Cross(a, b))
  {
    var p, q, r := AboutX(c, s, a), AboutX(c, s, b), Cross(a, b);
    CrossAlong(c, s, a, b, p, q, r);
    CrossAround(c, s, a, b, p, q);
  }

  lemma CrossAlong(c: real, s: real, a: Vec3, b: Vec3, p: Vec3, q: Vec3, r: Vec3)
    requires p == AboutX(c, s, a) && q == AboutX(c, s, b) && r == Cross(a, b)
    ensures Cross(p, q).y == c * r.y - s * r.z && Cross(p, q).z == s * r.y + c * r.z
  {
    hide Cross, AboutX;
    AboutXParts(c, s, a, p);
    AboutXParts(c, s, b, q);
    CrossParts(a, b, r, a.x, b.x);
    CrossParts(p, q, Cross(p, q), a.x, b.x);
    CrossTurned(c, s, a.x, a.y, a.z, b.x, b.y, b.z, p.y, p.z, q.y, q.z, r.y, r.z);
  }

  lemma AboutXParts(c: real, s: real, a: Vec3, p: Vec3)
    requires p == AboutX(c, s, a)
    ensures p.x == a.x && p.y == c * a.y - s * a.z && p.z == s * a.y + c * a.z
  {
  }

  lemma CrossParts(p: Vec3, q: Vec3, r: Vec3, px: real, qx: real)
    requires r == Cross(p, q) && p.x == px && q.x == qx
    ensures r.y == p.z * qx - px * q.z && r.z == px * q.y - p.y * qx
  {
  }

  lemma CrossAround(c: real, s: real, a: Vec3, b: Vec3, p: Vec3, q: Vec3)
    requires c * c + s * s == 1.0 && p == AboutX(c, s, a) && q == AboutX(c, s, b)
    ensures Cross(p, q).x == Cross(a, b).x
  {
    PlaneTurned(c, s, a.y, a.z, b.y, b.z, p.y, p.z, q.y, q.z);
  }

  /** Renaming the axes in a circle turns one kind of turn into the next. */
  function Shift(v: Vec3): Vec3 {
    Vec3(v.z, v.x, v.y)
  }

  lemma ShiftKeeps(a: Vec3, b: Vec3)
    ensures Dot(Shift(a), Shift(b)) == Dot(a, b) && Cross(Shift(a), Shift(b)) == Shift(Cross(a, b))
  {
  }

  lemma ShiftTurns(c: real, s: real, v: Vec3)
    ensures Shift(AboutX(c, s, v)) == AboutY(c, s, Shift(v)) && Shift(AboutY(c, s, v)) == AboutZ(c, s, Shift(v))
  {
    assert (-s) * v.z == -(s * v.z);
    assert (-s) * v.x == -(s * v.x);
  }

  function Unshift(v: Vec3): Vec3 {
    Vec3(v.y, v.z, v.x)
  }

  lemma AboutYKeeps(c: real, s: real, a: Vec3, b: Vec3)
    requires c * c + s * s == 1.0
    ensures Dot(AboutY(c, s, a), AboutY(c, s, b)) == Dot(a, b)
    ensures Cross(AboutY(c, s, a), AboutY(c, s, b)) == AboutY(c, s, Cross(a, b))
  {
    hide AboutX, AboutY, AboutZ, Dot, Cross;
    var p, q := Unshift(a), Unshift(b);
    assert Shift(p) == a && Shift(q) == b;
    AboutXKeeps(c, s, p, q);
    ShiftTurns(c, s, p);
    ShiftTurns(c, s, q);
    ShiftTurns(c, s, Cross(p, q));
    ShiftKeeps(p, q);
    ShiftKeeps(AboutX(c, s, p), AboutX(c, s, q));
  }

  lemma AboutZKeeps(c: real, s: real, a: Vec3, b: Vec3)
    requires c * c + s * s == 1.0
    ensures Dot(AboutZ(c, s, a), AboutZ(c, s, b)) == Dot(a, b)
    ensures Cross(AboutZ(c, s, a), AboutZ(c, s, b)) == AboutZ(c, s, Cross(a, b))
  {
    hide AboutX, AboutY, AboutZ, Dot, Cross;
    var p, q := Unshift(a), Unshift(b);
    assert Shift(p) == a && Shift(q) == b;
    AboutYKeeps(c, s, p, q);
    ShiftTurns(c, s, p);
    ShiftTurns(c, s, q);
    ShiftTurns(c, s, Cross(p, q));
    ShiftKeeps(p, q);
    ShiftKeeps(AboutY(c, s, p), AboutY(c, s, q));
  }

  // ---------- The rotation matrix ----------

  /** For every attitude the rotation keeps lengths, angles and handedness. */
  lemma RotationKeeps(f: Maths, roll: real, pitch: real, heading: real, a: Vec3, b: Vec3)
    requires CircleLaw(f)
    ensures Dot(BodyToNav(f, a, roll, pitch, heading), BodyToNav(f, b, roll, pitch, heading)) == Dot(a, b)
    ensures Cross(BodyToNav(f, a, roll, pitch, heading), BodyToNav(f, b, roll, pitch, heading))
         == BodyToNav(f, Cross(a, b), roll, pitch, heading)
  {
    hide AboutX, AboutY, AboutZ, Dot, Cross, BodyToNav;
    var cr, sr, cp, sp, ch, sh := f.cos(roll), f.sin(roll), f.cos(pitch), f.sin(pitch), f.cos(heading), f.sin(heading);
    RotationIsThreeTurns(f, roll, pitch, heading, a);
    RotationIsThreeTurns(f, roll, pitch, heading, b);
    RotationIsThreeTurns(f, roll, pitch, heading, Cross(a, b));
    AboutXKeeps(cr, sr, a, b);
    AboutYKeeps(cp, sp, AboutX(cr, sr, a), AboutX(cr, sr, b));
    AboutZKeeps(ch, sh, AboutY(cp, sp, AboutX(cr, sr, a)), AboutY(cp, sp, AboutX(cr, sr, b)));
  }

  function Column(m: Matrix, j: nat): Vec3
    requires j < 3
  {
    if j == 0 then Vec3(m.r0.x, m.r1.x, m.r2.x)
    else if j == 1 then Vec3(m.r0.y, m.r1.y, m.r2.y)
    else Vec3(m.r0.z, m.r1.z, m.r2.z)
  }

  function Axis(j: nat): Vec3
    requires j < 3
  {
    if j == 0 then Vec3(1.0, 0.0, 0.0) else if j == 1 then Vec3(0.0, 1.0, 0.0) else Vec3(0.0, 0.0, 1.0)
  }

  lemma AxisFacts(i: nat, j: nat)
    requires i < 3 && j < 3
    ensures Dot(Axis(i), Axis(j)) == (if i == j then 1.0 else 0.0)
  {
    hide Dot;
    DotAxis(i, Axis(j));
  }

  lemma DotAxis(i: nat, v: Vec3)
    requires i < 3
    ensures Dot(Axis(i), v) == if i == 0 then v.x else if i == 1 then v.y else v.z
  {
  }

  lemma AxesAreRightHanded()
    ensures Cross(Axis(0), Axis(1)) == Axis(2)
  {
    CrossOfUnits(Axis(0), Axis(1));
  }

  lemma CrossOfUnits(a: Vec3, b: Vec3)
    requires a.x == 1.0 && a.y == a.z == 0.0 && b.y == 1.0 && b.x == b.z == 0.0
    ensures Cross(a, b) == Vec3(0.0, 0.0, 1.0)
  {
    NoProduct(a.y, b.z);
    NoProduct(a.z, b.y);
    NoProduct(a.z, b.x);
    NoProduct(a.x, b.z);
    NoProduct(a.y, b.x);
  }

  lemma NoProduct(x: real, y: real)
    requires x == 0.0 || y == 0.0
    ensures x * y == 0.0
  {
  }

  lemma ColumnIsAxisImage(m: Matrix, j: nat)
    requires j < 3
    ensures Column(m, j) == ApplyRotation(m, Axis(j))
  {
  }

  /** The rotation matrix is orthogonal, and it is a rotation: its third column is the cross product of the others. */
  lemma RotationIsOrthogonal(f: Maths, roll: real, pitch: real, heading: real, i: nat, j: nat)
    requires CircleLaw(f) && i < 3 && j < 3
    ensures var m := RotationMatrixRPY(f, roll, pitch, heading);
      && Dot(Column(m, i), Column(m, j)) == (if i == j then 1.0 else 0.0)
      && Cross(Column(m, 0), Column(m, 1)) == Column(m, 2)
  {
    hide RotationMatrixRPY, ApplyRotation, Column, Dot, Cross, Axis;
    AxisFacts(i, j);
    AxesAreRightHanded();
    var m := RotationMatrixRPY(f, roll, pitch, heading);
    ColumnIsAxisImage(m, i);
    ColumnIsAxisImage(m, j);
    ColumnIsAxisImage(m, 0);
    ColumnIsAxisImage(m, 1);
    ColumnIsAxisImage(m, 2);
    RotationKeeps(f, roll, pitch, heading, Axis(i), Axis(j));
    RotationKeeps(f, roll, pitch, heading, Axis(0), Axis(1));
  }

  // ---------- Beams ----------

  /** Tilting keeps the products of the in-plane offsets. */
  lemma TiltKeeps(f: Maths, h1: real, d1: real, h2: real, d2: real, tiltAlong: real, tiltAcross: real)
    requires CircleLaw(f)
    ensures Dot(AcousticToBody(f, h1, d1, tiltAlong, tiltAcross), AcousticToBody(f, h2, d2, tiltAlong, tiltAcross))
         == h1 * h2 + d1 * d2
  {
    hide AcousticToBody, Dot, AboutX, AboutY;
    var ca, sa, cc, sc := f.cos(tiltAlong), f.sin(tiltAlong), f.cos(tiltAcross), f.sin(tiltAcross);
    var a, b := Vec3(h1, 0.0, -d1), Vec3(h2, 0.0, -d2);
    TiltIsTwoTurns(f, h1, d1, tiltAlong, tiltAcross);
    TiltIsTwoTurns(f, h2, d2, tiltAlong, tiltAcross);
    AboutYKeeps(ca, sa, a, b);
    AboutXKeeps(cc, sc, AboutY(ca, sa, a), AboutY(ca, sa, b));
    InPlaneDot(h1, d1, h2, d2);
  }

  /** A beam's offsets, out and down, turned about the second axis by the tilt along track, then about the first across. */
  lemma TiltIsTwoTurns(f: Maths, h: real, d: real, tiltAlong: real, tiltAcross: real)
    ensures AcousticToBody(f, h, d, tiltAlong, tiltAcross)
         == AboutX(f.cos(tiltAcross), f.sin(tiltAcross), AboutY(f.cos(tiltAlong), f.sin(tiltAlong), Vec3(h, 0.0, -d)))
  {
    TwoTurns(f.cos(tiltAlong), f.sin(tiltAlong), f.cos(tiltAcross), f.sin(tiltAcross), h, d, -f.sin(tiltAlong) * h + f.cos(tiltAlong) * -d);
  }

  lemma TwoTurns(ca: real, sa: real, cc: real, sc: real, h: real, d: real, z: real)
    requires z == -sa * h + ca * -d
    ensures h * ca - d * sa == ca * h + sa * -d
    ensures h * sc * sa + d * sc * ca == cc * 0.0 - sc * z
    ensures -h * cc * sa - d * cc * ca == sc * 0.0 + cc * z
  {
    assert sc * z == sc * (-sa * h + ca * -d) && cc * z == cc * (-sa * h + ca * -d);
  }

  lemma InPlaneDot(h1: real, d1: real, h2: real, d2: real)
    ensures Dot(Vec3(h1, 0.0, -d1), Vec3(h2, 0.0, -d2)) == h1 * h2 + d1 * d2
  {
  }

  /** The turns themselves: each is right-handed, from one of the other two axes to the next. */
  lemma TurnsOfAxes(c: real, s: real)
    ensures AboutX(c, s, Axis(0)) == Axis(0) && AboutX(c, s, Axis(1)) == Vec3(0.0, c, s) && AboutX(c, s, Axis(2)) == Vec3(0.0, -s, c)
    ensures AboutY(c, s, Axis(1)) == Axis(1) && AboutY(c, s, Axis(2)) == Vec3(s, 0.0, c) && AboutY(c, s, Axis(0)) == Vec3(c, 0.0, -s)
    ensures AboutZ(c, s, Axis(2)) == Axis(2) && AboutZ(c, s, Axis(0)) == Vec3(c, s, 0.0) && AboutZ(c, s, Axis(1)) == Vec3(-s, c, 0.0)
  {
  }

  /** Without tilt a beam goes straight out and straight down. */
  lemma NoTilt(f: Maths, h: real, d: real)
    requires f.cos(0.0) == 1.0 && f.sin(0.0) == 0.0
    ensures AcousticToBody(f, h, d, 0.0, 0.0) == Vec3(h, 0.0, -d)
  {
    TiltIsTwoTurns(f, h, d, 0.0, 0.0);
  }

  /**
   The offsets of two beams of one ping keep their products all the way to the navigation frame, for every tilt
   and attitude: with both beams the same, X^2 + Y^2 + Z^2 is the squared slant distance.
   */
  lemma BeamGeometry(f: Maths, h1: real, d1: real, h2: real, d2: real, tiltAlong: real, tiltAcross: real,
                     roll: real, pitch: real, heading: real)
    requires CircleLaw(f)
    ensures Dot(BodyToNav(f, AcousticToBody(f, h1, d1, tiltAlong, tiltAcross), roll, pitch, heading),
                BodyToNav(f, AcousticToBody(f, h2, d2, tiltAlong, tiltAcross), roll, pitch, heading))
         == h1 * h2 + d1 * d2
  {
    hide Dot, AcousticToBody, BodyToNav;
    TiltKeeps(f, h1, d1, h2, d2, tiltAlong, tiltAcross);
    RotationKeeps(f, roll, pitch, heading, AcousticToBody(f, h1, d1, tiltAlong, tiltAcross),
                  AcousticToBody(f, h2, d2, tiltAlong, tiltAcross));
  }
}

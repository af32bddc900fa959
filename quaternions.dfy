/** Quaternion and vector algebra behind `scipy.spatial.transform.Rotation`
    as the converters use it: quaternions stored scalar-last `(x, y, z, w)`,
    `*` as the Hamilton product, `inv()` negating the stored scalar part,
    `apply` and `as_matrix` as the rotation `q (0, v) q*`. */
module Quaternions {

  datatype Vec3 = Vec3(x: real, y: real, z: real)

  /** A quaternion in scipy's scalar-last order. */
  datatype Quat = Quat(x: real, y: real, z: real, w: real)

  /** A 3x3 matrix, row by row. */
  datatype Mat3 = Mat3(r0: Vec3, r1: Vec3, r2: Vec3)

  const One := Quat(0.0, 0.0, 0.0, 1.0)

  function Add(u: Vec3, v: Vec3): Vec3 { Vec3(u.x + v.x, u.y + v.y, u.z + v.z) }

  function Sub(u: Vec3, v: Vec3): Vec3 { Vec3(u.x - v.x, u.y - v.y, u.z - v.z) }

  function NegVec(v: Vec3): Vec3 { Vec3(-v.x, -v.y, -v.z) }

  function Dot(u: Vec3, v: Vec3): real { u.x * v.x + u.y * v.y + u.z * v.z }

  /** `np.dot(m, v)`. */
  function MatVec(m: Mat3, v: Vec3): Vec3 { Vec3(Dot(m.r0, v), Dot(m.r1, v), Dot(m.r2, v)) }

  /** Hamilton product `p q`, the quaternion of `Rotation(p) * Rotation(q)`
      (apply `q` first, then `p`). */
  function Mul(p: Quat, q: Quat): Quat {
    Quat(p.w * q.x + p.x * q.w + p.y * q.z - p.z * q.y,
         p.w * q.y - p.x * q.z + p.y * q.w + p.z * q.x,
         p.w * q.z + p.x * q.y - p.y * q.x + p.z * q.w,
         p.w * q.w - p.x * q.x - p.y * q.y - p.z * q.z)
  }

  function Conj(q: Quat): Quat { Quat(-q.x, -q.y, -q.z, q.w) }

  function Neg(q: Quat): Quat { Quat(-q.x, -q.y, -q.z, -q.w) }

  function NormSq(q: Quat): real { q.x * q.x + q.y * q.y + q.z * q.z + q.w * q.w }

  predicate IsUnit(q: Quat) { NormSq(q) == 1.0 }

  /** The quaternion `Rotation.from_quat(q).inv().as_quat()` returns: scipy
      negates the stored scalar part, which is the conjugate up to sign. */
  function Inv(q: Quat): (r: Quat)
    ensures r == Neg(Conj(q))
    ensures NormSq(r) == NormSq(q)
  {
    Quat(q.x, q.y, q.z, -q.w)
  }

  function Pure(v: Vec3): Quat { Quat(v.x, v.y, v.z, 0.0) }

  /** `Rotation.from_quat(q).apply(v)`: the vector part of `q (0, v) q*`. */
  function Rotate(q: Quat, v: Vec3): Vec3 {
    var r := Mul(Mul(q, Pure(v)), Conj(q));
    Vec3(r.x, r.y, r.z)
  }

  /** `Rotation.from_quat(q).as_matrix()`, entry by entry as scipy computes it. */
  function RotationMatrix(q: Quat): Mat3 {
    var x, y, z, w := q.x, q.y, q.z, q.w;
    Mat3(Vec3(x * x - y * y - z * z + w * w, 2.0 * (x * y - z * w), 2.0 * (x * z + y * w)),
         Vec3(2.0 * (x * y + z * w), -x * x + y * y - z * z + w * w, 2.0 * (y * z - x * w)),
         Vec3(2.0 * (x * z - y * w), 2.0 * (y * z + x * w), -x * x - y * y + z * z + w * w))
  }

  /** The Hamilton product is associative. */
  lemma MulAssoc(a: Quat, b: Quat, c: Quat)
    ensures Mul(Mul(a, b), c) == Mul(a, Mul(b, c))
  {
    UnfoldLeftX(a, b, c);
    UnfoldLeftY(a, b, c);
    UnfoldLeftZ(a, b, c);
    UnfoldLeftW(a, b, c);
    UnfoldRightX(a, b, c);
    UnfoldRightY(a, b, c);
    UnfoldRightZ(a, b, c);
    UnfoldRightW(a, b, c);
    AssocPolynomial(a.x, a.y, a.z, a.w, b.x, b.y, b.z, b.w, c.x, c.y, c.z, c.w);
  }

  /** `One` is the identity of the product. */
  lemma MulOne(q: Quat)
    ensures Mul(One, q) == q && Mul(q, One) == q
  {
  }

  /** Conjugation reverses products. */
  lemma ConjMul(p: Quat, q: Quat)
    ensures Conj(Mul(p, q)) == Mul(Conj(q), Conj(p))
  {
    ConjMulExplicit(p, q, Conj(q), Conj(p));
  }

  lemma ConjMulExplicit(p: Quat, q: Quat, a: Quat, b: Quat)
    requires a == Quat(-q.x, -q.y, -q.z, q.w) && b == Quat(-p.x, -p.y, -p.z, p.w)
    ensures Conj(Mul(p, q)) == Mul(a, b)
  {
    ConjMulX(p, q, a, b);
    ConjMulY(p, q, a, b);
    ConjMulZ(p, q, a, b);
    ConjMulW(p, q, a, b);
  }

  lemma ConjMulX(p: Quat, q: Quat, a: Quat, b: Quat)
    requires a == Quat(-q.x, -q.y, -q.z, q.w) && b == Quat(-p.x, -p.y, -p.z, p.w)
    ensures Conj(Mul(p, q)).x == Mul(a, b).x
  {
  }

  lemma ConjMulY(p: Quat, q: Quat, a: Quat, b: Quat)
    requires a == Quat(-q.x, -q.y, -q.z, q.w) && b == Quat(-p.x, -p.y, -p.z, p.w)
    ensures Conj(Mul(p, q)).y == Mul(a, b).y
  {
  }

  lemma ConjMulZ(p: Quat, q: Quat, a: Quat, b: Quat)
    requires a == Quat(-q.x, -q.y, -q.z, q.w) && b == Quat(-p.x, -p.y, -p.z, p.w)
    ensures Conj(Mul(p, q)).z == Mul(a, b).z
  {
  }

  lemma ConjMulW(p: Quat, q: Quat, a: Quat, b: Quat)
    requires a == Quat(-q.x, -q.y, -q.z, q.w) && b == Quat(-p.x, -p.y, -p.z, p.w)
    ensures Conj(Mul(p, q)).w == Mul(a, b).w
  {
  }

  /** A quaternion times its conjugate is the real quaternion of its squared norm. */
  lemma MulConj(q: Quat)
    ensures Mul(q, Conj(q)) == Quat(0.0, 0.0, 0.0, NormSq(q))
    ensures Mul(Conj(q), q) == Quat(0.0, 0.0, 0.0, NormSq(q))
  {
  }

  /** Negating either factor negates the product. */
  lemma MulNegLeft(p: Quat, q: Quat)
    ensures Mul(Neg(p), q) == Neg(Mul(p, q))
  {
    NegLeftExplicit(p, q, Neg(p));
  }

  lemma NegLeftExplicit(p: Quat, q: Quat, a: Quat)
    requires a == Quat(-p.x, -p.y, -p.z, -p.w)
    ensures Mul(a, q) == Neg(Mul(p, q))
  {
  }

  lemma NegRightExplicit(p: Quat, q: Quat, a: Quat)
    requires a == Quat(-q.x, -q.y, -q.z, -q.w)
    ensures Mul(p, a) == Neg(Mul(p, q))
  {
  }

  lemma MulNegRight(p: Quat, q: Quat)
    ensures Mul(p, Neg(q)) == Neg(Mul(p, q))
  {
    NegRightExplicit(p, q, Neg(q));
  }

  /** The squared norm is multiplicative, so products of unit quaternions are unit. */
  lemma NormSqMul(p: Quat, q: Quat)
    ensures NormSq(Mul(p, q)) == NormSq(p) * NormSq(q)
  {
    var m := Mul(p, q);
    NormPolynomial(p.x, p.y, p.z, p.w, q.x, q.y, q.z, q.w, m.x, m.y, m.z, m.w);
  }

  /** The scipy matrix of `q` applies the same map as `q (0, v) q*`, and that
      product is again a pure quaternion. */
  lemma MatrixRotate(q: Quat, v: Vec3)
    ensures MatVec(RotationMatrix(q), v) == Rotate(q, v)
    ensures Mul(Mul(q, Pure(v)), Conj(q)) == Pure(Rotate(q, v))
  {
    UnfoldRotateX(q, v);
    UnfoldRotateY(q, v);
    UnfoldRotateZ(q, v);
    UnfoldRotateW(q, v);
    UnfoldMatVec(q, v);
    RotatePolynomial(q.x, q.y, q.z, q.w, v.x, v.y, v.z);
  }

  /** Rotation is linear in the vector. */
  lemma RotateAdd(q: Quat, u: Vec3, v: Vec3)
    ensures Rotate(q, Add(u, v)) == Add(Rotate(q, u), Rotate(q, v))
  {
    MatrixRotate(q, u);
    MatrixRotate(q, v);
    MatrixRotate(q, Add(u, v));
    MatVecAdd(RotationMatrix(q), u, v);
  }

  lemma RotateSub(q: Quat, u: Vec3, v: Vec3)
    ensures Rotate(q, Sub(u, v)) == Sub(Rotate(q, u), Rotate(q, v))
  {
    MatrixRotate(q, u);
    MatrixRotate(q, v);
    MatrixRotate(q, Sub(u, v));
    MatVecSub(RotationMatrix(q), u, v);
  }

  lemma MatVecAdd(m: Mat3, u: Vec3, v: Vec3)
    ensures MatVec(m, Add(u, v)) == Add(MatVec(m, u), MatVec(m, v))
  {
  }

  lemma MatVecSub(m: Mat3, u: Vec3, v: Vec3)
    ensures MatVec(m, Sub(u, v)) == Sub(MatVec(m, u), MatVec(m, v))
  {
  }

  lemma RotateNegVec(q: Quat, v: Vec3)
    ensures Rotate(q, NegVec(v)) == NegVec(Rotate(q, v))
  {
    MatrixRotate(q, v);
    MatrixRotate(q, NegVec(v));
  }

  lemma RotateZero(q: Quat)
    ensures Rotate(q, Vec3(0.0, 0.0, 0.0)) == Vec3(0.0, 0.0, 0.0)
  {
    MatrixRotate(q, Vec3(0.0, 0.0, 0.0));
  }

  /** Rotating by a product rotates by the right factor first. */
  lemma RotateCompose(p: Quat, q: Quat, v: Vec3)
    ensures Rotate(Mul(p, q), v) == Rotate(p, Rotate(q, v))
  {
    var a := Mul(q, Pure(v));
    var x := Mul(a, Conj(q));
    MatrixRotate(q, v);
    assert Pure(Rotate(q, v)) == x;
    ConjMul(p, q);
    MulAssoc(p, q, Pure(v));
    MulAssoc(p, a, Mul(Conj(q), Conj(p)));
    MulAssoc(a, Conj(q), Conj(p));
    MulAssoc(p, x, Conj(p));
  }

  /** A quaternion and its negation rotate alike. */
  lemma RotateNeg(q: Quat, v: Vec3)
    ensures Rotate(Neg(q), v) == Rotate(q, v)
  {
    var a := Mul(q, Pure(v));
    MulNegLeft(q, Pure(v));
    assert Conj(Neg(q)) == Neg(Conj(q));
    MulNegRight(Neg(a), Conj(q));
    MulNegLeft(a, Conj(q));
    assert Neg(Neg(Mul(a, Conj(q)))) == Mul(a, Conj(q));
  }

  lemma RotateOne(v: Vec3)
    ensures Rotate(One, v) == v
  {
    RotateOneProduct(v);
  }

  /** scipy's inverse of the identity quaternion is its negation, which still
      rotates nothing. */
  lemma RotateInvOne(v: Vec3)
    ensures Rotate(Inv(One), v) == v
  {
    assert Inv(One) == Neg(One);
    RotateNeg(One, v);
    RotateOne(v);
  }

  lemma RotateOneProduct(v: Vec3)
    ensures Mul(Mul(One, Pure(v)), Conj(One)) == Pure(v)
  {
    MulOne(Pure(v));
    assert Conj(One) == One;
  }

  /** For a unit quaternion, the conjugate (and scipy's inverse) undo the
      rotation from either side. */
  lemma RotateUndo(q: Quat, v: Vec3)
    requires IsUnit(q)
    ensures Rotate(Conj(q), Rotate(q, v)) == v && Rotate(q, Rotate(Conj(q), v)) == v
    ensures Rotate(Inv(q), Rotate(q, v)) == v && Rotate(q, Rotate(Inv(q), v)) == v
  {
    MulConj(q);
    RotateCompose(Conj(q), q, v);
    RotateCompose(q, Conj(q), v);
    RotateOne(v);
    RotateNeg(Conj(q), Rotate(q, v));
    RotateNeg(Conj(q), v);
  }

  /** For a unit quaternion, scipy's inverse cancels from either side, up to
      the sign its negated scalar part leaves behind. */
  lemma InvCancel(b: Quat, x: Quat)
    requires IsUnit(b)
    ensures Mul(b, Mul(Inv(b), x)) == Neg(x)
    ensures Mul(Inv(b), Mul(b, x)) == Neg(x)
  {
    MulAssoc(b, Inv(b), x);
    MulAssoc(Inv(b), b, x);
    MulConj(b);
    MulNegRight(b, Conj(b));
    MulNegLeft(Conj(b), b);
    assert Mul(b, Inv(b)) == Neg(One);
    assert Mul(Inv(b), b) == Neg(One);
    MulNegLeft(One, x);
    MulOne(x);
  }

  // Component-wise unfoldings of nested products, and the polynomial
  // identities behind associativity and the rotation matrix.

  lemma UnfoldLeftX(a: Quat, b: Quat, c: Quat)
    ensures Mul(Mul(a, b), c).x == ((a.w*b.w - a.x*b.x - a.y*b.y - a.z*b.z)*c.x + (a.w*b.x + a.x*b.w + a.y*b.z - a.z*b.y)*c.w + (a.w*b.y - a.x*b.z + a.y*b.w + a.z*b.x)*c.z - (a.w*b.z + a.x*b.y - a.y*b.x + a.z*b.w)*c.y)
  {
  }

  lemma UnfoldRightX(a: Quat, b: Quat, c: Quat)
    ensures Mul(a, Mul(b, c)).x == (a.w*(b.w*c.x + b.x*c.w + b.y*c.z - b.z*c.y) + a.x*(b.w*c.w - b.x*c.x - b.y*c.y - b.z*c.z) + a.y*(b.w*c.z + b.x*c.y - b.y*c.x + b.z*c.w) - a.z*(b.w*c.y - b.x*c.z + b.y*c.w + b.z*c.x))
  {
  }

  lemma UnfoldLeftY(a: Quat, b: Quat, c: Quat)
    ensures Mul(Mul(a, b), c).y == ((a.w*b.w - a.x*b.x - a.y*b.y - a.z*b.z)*c.y - (a.w*b.x + a.x*b.w + a.y*b.z - a.z*b.y)*c.z + (a.w*b.y - a.x*b.z + a.y*b.w + a.z*b.x)*c.w + (a.w*b.z + a.x*b.y - a.y*b.x + a.z*b.w)*c.x)
  {
  }

  lemma UnfoldRightY(a: Quat, b: Quat, c: Quat)
    ensures Mul(a, Mul(b, c)).y == (a.w*(b.w*c.y - b.x*c.z + b.y*c.w + b.z*c.x) - a.x*(b.w*c.z + b.x*c.y - b.y*c.x + b.z*c.w) + a.y*(b.w*c.w - b.x*c.x - b.y*c.y - b.z*c.z) + a.z*(b.w*c.x + b.x*c.w + b.y*c.z - b.z*c.y))
  {
  }

  lemma UnfoldLeftZ(a: Quat, b: Quat, c: Quat)
    ensures Mul(Mul(a, b), c).z == ((a.w*b.w - a.x*b.x - a.y*b.y - a.z*b.z)*c.z + (a.w*b.x + a.x*b.w + a.y*b.z - a.z*b.y)*c.y - (a.w*b.y - a.x*b.z + a.y*b.w + a.z*b.x)*c.x + (a.w*b.z + a.x*b.y - a.y*b.x + a.z*b.w)*c.w)
  {
  }

  lemma UnfoldRightZ(a: Quat, b: Quat, c: Quat)
    ensures Mul(a, Mul(b, c)).z == (a.w*(b.w*c.z + b.x*c.y - b.y*c.x + b.z*c.w) + a.x*(b.w*c.y - b.x*c.z + b.y*c.w + b.z*c.x) - a.y*(b.w*c.x + b.x*c.w + b.y*c.z - b.z*c.y) + a.z*(b.w*c.w - b.x*c.x - b.y*c.y - b.z*c.z))
  {
  }

  lemma UnfoldLeftW(a: Quat, b: Quat, c: Quat)
    ensures Mul(Mul(a, b), c).w == ((a.w*b.w - a.x*b.x - a.y*b.y - a.z*b.z)*c.w - (a.w*b.x + a.x*b.w + a.y*b.z - a.z*b.y)*c.x - (a.w*b.y - a.x*b.z + a.y*b.w + a.z*b.x)*c.y - (a.w*b.z + a.x*b.y - a.y*b.x + a.z*b.w)*c.z)
  {
  }

  lemma UnfoldRightW(a: Quat, b: Quat, c: Quat)
    ensures Mul(a, Mul(b, c)).w == (a.w*(b.w*c.w - b.x*c.x - b.y*c.y - b.z*c.z) - a.x*(b.w*c.x + b.x*c.w + b.y*c.z - b.z*c.y) - a.y*(b.w*c.y - b.x*c.z + b.y*c.w + b.z*c.x) - a.z*(b.w*c.z + b.x*c.y - b.y*c.x + b.z*c.w))
  {
  }

  lemma AssocPolynomial(ax: real, ay: real, az: real, aw: real, bx: real, b_y: real, bz: real, bw: real, cx: real, cy: real, cz: real, cw: real)
    ensures ((aw*bw - ax*bx - ay*b_y - az*bz)*cx + (aw*bx + ax*bw + ay*bz - az*b_y)*cw + (aw*b_y - ax*bz + ay*bw + az*bx)*cz - (aw*bz + ax*b_y - ay*bx + az*bw)*cy)
      == (aw*(bw*cx + bx*cw + b_y*cz - bz*cy) + ax*(bw*cw - bx*cx - b_y*cy - bz*cz) + ay*(bw*cz + bx*cy - b_y*cx + bz*cw) - az*(bw*cy - bx*cz + b_y*cw + bz*cx))
    ensures ((aw*bw - ax*bx - ay*b_y - az*bz)*cy - (aw*bx + ax*bw + ay*bz - az*b_y)*cz + (aw*b_y - ax*bz + ay*bw + az*bx)*cw + (aw*bz + ax*b_y - ay*bx + az*bw)*cx)
      == (aw*(bw*cy - bx*cz + b_y*cw + bz*cx) - ax*(bw*cz + bx*cy - b_y*cx + bz*cw) + ay*(bw*cw - bx*cx - b_y*cy - bz*cz) + az*(bw*cx + bx*cw + b_y*cz - bz*cy))
    ensures ((aw*bw - ax*bx - ay*b_y - az*bz)*cz + (aw*bx + ax*bw + ay*bz - az*b_y)*cy - (aw*b_y - ax*bz + ay*bw + az*bx)*cx + (aw*bz + ax*b_y - ay*bx + az*bw)*cw)
      == (aw*(bw*cz + bx*cy - b_y*cx + bz*cw) + ax*(bw*cy - bx*cz + b_y*cw + bz*cx) - ay*(bw*cx + bx*cw + b_y*cz - bz*cy) + az*(bw*cw - bx*cx - b_y*cy - bz*cz))
    ensures ((aw*bw - ax*bx - ay*b_y - az*bz)*cw - (aw*bx + ax*bw + ay*bz - az*b_y)*cx - (aw*b_y - ax*bz + ay*bw + az*bx)*cy - (aw*bz + ax*b_y - ay*bx + az*bw)*cz)
      == (aw*(bw*cw - bx*cx - b_y*cy - bz*cz) - ax*(bw*cx + bx*cw + b_y*cz - bz*cy) - ay*(bw*cy - bx*cz + b_y*cw + bz*cx) - az*(bw*cz + bx*cy - b_y*cx + bz*cw))
  {
  }

  lemma UnfoldRotateX(q: Quat, v: Vec3)
    ensures Mul(Mul(q, Pure(v)), Conj(q)).x == ((q.w*0.0 - q.x*v.x - q.y*v.y - q.z*v.z)*(-q.x) + (q.w*v.x + q.x*0.0 + q.y*v.z - q.z*v.y)*q.w + (q.w*v.y - q.x*v.z + q.y*0.0 + q.z*v.x)*(-q.z) - (q.w*v.z + q.x*v.y - q.y*v.x + q.z*0.0)*(-q.y))
  {
  }

  lemma UnfoldRotateY(q: Quat, v: Vec3)
    ensures Mul(Mul(q, Pure(v)), Conj(q)).y == ((q.w*0.0 - q.x*v.x - q.y*v.y - q.z*v.z)*(-q.y) - (q.w*v.x + q.x*0.0 + q.y*v.z - q.z*v.y)*(-q.z) + (q.w*v.y - q.x*v.z + q.y*0.0 + q.z*v.x)*q.w + (q.w*v.z + q.x*v.y - q.y*v.x + q.z*0.0)*(-q.x))
  {
  }

  lemma UnfoldRotateZ(q: Quat, v: Vec3)
    ensures Mul(Mul(q, Pure(v)), Conj(q)).z == ((q.w*0.0 - q.x*v.x - q.y*v.y - q.z*v.z)*(-q.z) + (q.w*v.x + q.x*0.0 + q.y*v.z - q.z*v.y)*(-q.y) - (q.w*v.y - q.x*v.z + q.y*0.0 + q.z*v.x)*(-q.x) + (q.w*v.z + q.x*v.y - q.y*v.x + q.z*0.0)*q.w)
  {
  }

  lemma UnfoldRotateW(q: Quat, v: Vec3)
    ensures Mul(Mul(q, Pure(v)), Conj(q)).w == ((q.w*0.0 - q.x*v.x - q.y*v.y - q.z*v.z)*q.w - (q.w*v.x + q.x*0.0 + q.y*v.z - q.z*v.y)*(-q.x) - (q.w*v.y - q.x*v.z + q.y*0.0 + q.z*v.x)*(-q.y) - (q.w*v.z + q.x*v.y - q.y*v.x + q.z*0.0)*(-q.z))
  {
  }

  lemma RotatePolynomial(qx: real, qy: real, qz: real, qw: real, vx: real, vy: real, vz: real)
    ensures ((qw*0.0 - qx*vx - qy*vy - qz*vz)*(-qx) + (qw*vx + qx*0.0 + qy*vz - qz*vy)*qw + (qw*vy - qx*vz + qy*0.0 + qz*vx)*(-qz) - (qw*vz + qx*vy - qy*vx + qz*0.0)*(-qy))
      == (qx*qx - qy*qy - qz*qz + qw*qw) * vx + (2.0 * (qx*qy - qz*qw)) * vy + (2.0 * (qx*qz + qy*qw)) * vz
    ensures ((qw*0.0 - qx*vx - qy*vy - qz*vz)*(-qy) - (qw*vx + qx*0.0 + qy*vz - qz*vy)*(-qz) + (qw*vy - qx*vz + qy*0.0 + qz*vx)*qw + (qw*vz + qx*vy - qy*vx + qz*0.0)*(-qx))
      == (2.0 * (qx*qy + qz*qw)) * vx + (-qx*qx + qy*qy - qz*qz + qw*qw) * vy + (2.0 * (qy*qz - qx*qw)) * vz
    ensures ((qw*0.0 - qx*vx - qy*vy - qz*vz)*(-qz) + (qw*vx + qx*0.0 + qy*vz - qz*vy)*(-qy) - (qw*vy - qx*vz + qy*0.0 + qz*vx)*(-qx) + (qw*vz + qx*vy - qy*vx + qz*0.0)*qw)
      == (2.0 * (qx*qz - qy*qw)) * vx + (2.0 * (qy*qz + qx*qw)) * vy + (-qx*qx - qy*qy + qz*qz + qw*qw) * vz
    ensures ((qw*0.0 - qx*vx - qy*vy - qz*vz)*qw - (qw*vx + qx*0.0 + qy*vz - qz*vy)*(-qx) - (qw*vy - qx*vz + qy*0.0 + qz*vx)*(-qy) - (qw*vz + qx*vy - qy*vx + qz*0.0)*(-qz)) == 0.0
  {
  }

  lemma NormPolynomial(px: real, py: real, pz: real, pw: real, qx: real, qy: real, qz: real, qw: real,
                        mx: real, my: real, mz: real, mw: real)
    requires mx == pw*qx + px*qw + py*qz - pz*qy
    requires my == pw*qy - px*qz + py*qw + pz*qx
    requires mz == pw*qz + px*qy - py*qx + pz*qw
    requires mw == pw*qw - px*qx - py*qy - pz*qz
    ensures mx*mx + my*my + mz*mz + mw*mw
      == (px*px + py*py + pz*pz + pw*pw) * (qx*qx + qy*qy + qz*qz + qw*qw)
  {
  }
  lemma UnfoldMatVec(q: Quat, v: Vec3)
    ensures MatVec(RotationMatrix(q), v).x
      == (q.x*q.x - q.y*q.y - q.z*q.z + q.w*q.w) * v.x + (2.0 * (q.x*q.y - q.z*q.w)) * v.y + (2.0 * (q.x*q.z + q.y*q.w)) * v.z
    ensures MatVec(RotationMatrix(q), v).y
      == (2.0 * (q.x*q.y + q.z*q.w)) * v.x + (-q.x*q.x + q.y*q.y - q.z*q.z + q.w*q.w) * v.y + (2.0 * (q.y*q.z - q.x*q.w)) * v.z
    ensures MatVec(RotationMatrix(q), v).z
      == (2.0 * (q.x*q.z - q.y*q.w)) * v.x + (2.0 * (q.y*q.z + q.x*q.w)) * v.y + (-q.x*q.x - q.y*q.y + q.z*q.z + q.w*q.w) * v.z
  {
  }
}

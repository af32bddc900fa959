/** The transform helpers of the GRobotics target converter
    (GRobotics/Target_converter.py, identical in GRobotics/GRobotics/): a
    pose is inverted and applied through scipy rotation matrices. */
module GRoboticsConverter {
  import opened PyStrings
  import opened Quaternions
  import opened Robtargets
  import TargetConverter

  /** `quaternion_to_rotation_matrix`: scipy's matrix of `q`, which rotates
      every vector exactly as `q` does; a zero quaternion raises. */
  function QuaternionToRotationMatrix(q: Quat): (r: Option<Mat3>)
    ensures r.Some? <==> NormSq(q) != 0.0
    ensures r.Some? ==> forall v :: MatVec(r.value, v) == Rotate(q, v)
  {
    if NormSq(q) == 0.0 then None
    else
      MatrixRotateAll(q);
      Some(RotationMatrix(q))
  }

  lemma MatrixRotateAll(q: Quat)
    ensures forall v :: MatVec(RotationMatrix(q), v) == Rotate(q, v)
  {
    forall v ensures MatVec(RotationMatrix(q), v) == Rotate(q, v) {
      MatrixRotate(q, v);
    }
  }

  /** `apply_transformation`: rotate the position by the frame's matrix and add
      the translation; compose the frame rotation after the target's. Both
      quaternions go through `from_quat`, so either being zero raises. */
  function ApplyTransformation(position: Vec3, q: Quat, translation: Vec3, qcs: Quat): (r: Option<Frame>)
    ensures r.Some? <==> NormSq(q) != 0.0 && NormSq(qcs) != 0.0
    ensures r.Some? ==> r == Some(Frame(Add(Rotate(qcs, position), translation), Mul(qcs, q)))
  {
    match QuaternionToRotationMatrix(q)
    case None => None
    case Some(_) =>
      match QuaternionToRotationMatrix(qcs)
      case None => None
      case Some(mcs) => Some(Frame(Add(MatVec(mcs, position), translation), Mul(qcs, q)))
  }

  /** `invert_transformation`: scipy's inverse quaternion, and the translation
      rotated by it and negated. */
  function InvertTransformation(translation: Vec3, q: Quat): (r: Option<Frame>)
    ensures r.Some? <==> NormSq(q) != 0.0
    ensures r.Some? ==> r == Some(Frame(NegVec(Rotate(Inv(q), translation)), Inv(q)))
  {
    match QuaternionToRotationMatrix(Inv(q))
    case None => None
    case Some(m) => Some(Frame(NegVec(MatVec(m, translation)), Inv(q)))
  }

  /** Applying the inverse of a unit pose undoes applying the pose, in either
      order: the position comes back exactly, the quaternion negated (the same
      rotation). */
  lemma InvertUndoesApply(p: Vec3, q: Quat, t: Vec3, qcs: Quat)
    requires IsUnit(qcs) && NormSq(q) != 0.0
    ensures var i := InvertTransformation(t, qcs).value;
      var a := ApplyTransformation(p, q, t, qcs).value;
      ApplyTransformation(a.pos, a.ori, i.pos, i.ori) == Some(Frame(p, Neg(q)))
    ensures var i := InvertTransformation(t, qcs).value;
      var b := ApplyTransformation(p, q, i.pos, i.ori).value;
      ApplyTransformation(b.pos, b.ori, t, qcs) == Some(Frame(p, Neg(q)))
  {
    var iq := Inv(qcs);
    NormSqMul(qcs, q);
    NormSqMul(iq, q);
    InvCancel(qcs, q);
    ApplyThenInvertPos(p, t, qcs);
    InvertThenApplyPos(p, t, qcs);
  }

  lemma ApplyThenInvertPos(p: Vec3, t: Vec3, qcs: Quat)
    requires IsUnit(qcs)
    ensures Add(Rotate(Inv(qcs), Add(Rotate(qcs, p), t)), NegVec(Rotate(Inv(qcs), t))) == p
  {
    RotateAdd(Inv(qcs), Rotate(qcs, p), t);
    RotateUndo(qcs, p);
  }

  lemma InvertThenApplyPos(p: Vec3, t: Vec3, qcs: Quat)
    requires IsUnit(qcs)
    ensures Add(Rotate(qcs, Add(Rotate(Inv(qcs), p), NegVec(Rotate(Inv(qcs), t)))), t) == p
  {
    RotateAdd(qcs, Rotate(Inv(qcs), p), NegVec(Rotate(Inv(qcs), t)));
    RotateNegVec(qcs, Rotate(Inv(qcs), t));
    RotateUndo(qcs, p);
    RotateUndo(qcs, t);
  }

  /** `transform_robtarget`: invert the input pose, apply it to the target,
      then apply the output pose. Configuration and external axes are carried
      over unchanged. */
  function TransformRobtarget(t: RobTarget, input: Frame, output: Frame): (r: Option<RobTarget>)
    ensures r.Some? <==> Transformable(t, input, output)
    ensures r.Some? ==> r.value.config == t.config && r.value.ext == t.ext
    ensures r.Some? ==> |r.value.pos| == 3 && |r.value.ori| == 4
  {
    if |t.pos| != 3 || |t.ori| != 4 then None
    else
      match InvertTransformation(input.pos, input.ori)
      case None => None
      case Some(inv) =>
        match ApplyTransformation(ToVec(t.pos), ToQuat(t.ori), inv.pos, inv.ori)
        case None => None
        case Some(world) =>
          NormSqMul(inv.ori, ToQuat(t.ori));
          match ApplyTransformation(world.pos, world.ori, output.pos, output.ori)
          case None => None
          case Some(fin) => Some(RobTarget(FromVec(fin.pos), FromQuat(fin.ori), t.config, t.ext))
  }

  /** What the composition computes: the target is read in world coordinates of
      the input frame's local system, `R_out R_in⁻¹ (p − t_in) + t_out`, and
      `q_out ⊗ q_in⁻¹ ⊗ q`. */
  lemma TransformMeaning(t: RobTarget, input: Frame, output: Frame)
    requires Transformable(t, input, output)
    ensures var r := TransformRobtarget(t, input, output).value;
      ToVec(r.pos) == WorldOf(output, LocalOf(input, ToVec(t.pos)))
      && ToQuat(r.ori) == WorldOri(output, LocalOri(input, ToQuat(t.ori)))
  {
    var p, q := ToVec(t.pos), ToQuat(t.ori);
    var iq := Inv(input.ori);
    NormSqMul(iq, q);
    RotateSub(iq, p, input.pos);
    assert Add(Rotate(iq, p), NegVec(Rotate(iq, input.pos))) == LocalOf(input, p);
  }

  /** Transforming between a unit frame and itself returns the position and the
      negated quaternion, which is the same rotation. */
  lemma TransformIdentity(t: RobTarget, f: Frame)
    requires Transformable(t, f, f) && IsUnit(f.ori)
    ensures var r := TransformRobtarget(t, f, f).value;
      r.pos == t.pos && ToQuat(r.ori) == Neg(ToQuat(t.ori))
      && forall v :: Rotate(ToQuat(r.ori), v) == Rotate(ToQuat(t.ori), v)
  {
    var q := ToQuat(t.ori);
    TransformMeaning(t, f, f);
    WorldLocal(f, Vec3(0.0, 0.0, 0.0), ToVec(t.pos));
    WorldLocalOri(f, q, q);
    forall v ensures Rotate(Neg(q), v) == Rotate(q, v) {
      RotateNeg(q, v);
    }
  }

  /** Transforming from `a` to `b` and back restores the target exactly. */
  lemma TransformRoundTrip(t: RobTarget, a: Frame, b: Frame)
    requires Transformable(t, a, b) && IsUnit(a.ori) && IsUnit(b.ori)
    ensures var r := TransformRobtarget(t, a, b).value;
      Transformable(r, b, a) && TransformRobtarget(r, b, a) == Some(t)
  {
    var p, q := ToVec(t.pos), ToQuat(t.ori);
    var r := TransformRobtarget(t, a, b).value;
    TransformMeaning(t, a, b);
    NormSqMul(b.ori, LocalOri(a, q));
    NormSqMul(Inv(a.ori), q);
    assert Transformable(r, b, a);
    TransformMeaning(r, b, a);
    RoundTripPose(p, q, a, b);
    assert FromVec(p) == t.pos && FromQuat(q) == t.ori;
  }

  lemma RoundTripPose(p: Vec3, q: Quat, a: Frame, b: Frame)
    requires IsUnit(a.ori) && IsUnit(b.ori)
    ensures WorldOf(a, LocalOf(b, WorldOf(b, LocalOf(a, p)))) == p
    ensures WorldOri(a, LocalOri(b, WorldOri(b, LocalOri(a, q)))) == q
  {
    WorldLocal(b, LocalOf(a, p), p);
    WorldLocal(a, p, p);
    WorldLocalOri(b, LocalOri(a, q), q);
    MulNegRight(a.ori, LocalOri(a, q));
    WorldLocalOri(a, q, q);
  }

  /** Transforming from `a` to `b` and then from `b` to `c` gives the position
      of the direct transform from `a` to `c` and the negated quaternion. */
  lemma TransformCompose(t: RobTarget, a: Frame, b: Frame, c: Frame)
    requires Transformable(t, a, c) && IsUnit(a.ori) && IsUnit(b.ori) && IsUnit(c.ori)
    ensures var r := TransformRobtarget(t, a, b).value;
      var d := TransformRobtarget(t, a, c).value;
      Transformable(r, b, c)
      && TransformRobtarget(r, b, c).value.pos == d.pos
      && ToQuat(TransformRobtarget(r, b, c).value.ori) == Neg(ToQuat(d.ori))
  {
    var p, q := ToVec(t.pos), ToQuat(t.ori);
    var r := TransformRobtarget(t, a, b).value;
    TransformMeaning(t, a, b);
    TransformMeaning(t, a, c);
    NormSqMul(b.ori, LocalOri(a, q));
    NormSqMul(Inv(a.ori), q);
    assert Transformable(r, b, c);
    TransformMeaning(r, b, c);
    ComposePose(p, q, a, b, c);
  }

  lemma ComposePose(p: Vec3, q: Quat, a: Frame, b: Frame, c: Frame)
    requires IsUnit(b.ori)
    ensures WorldOf(c, LocalOf(b, WorldOf(b, LocalOf(a, p)))) == WorldOf(c, LocalOf(a, p))
    ensures WorldOri(c, LocalOri(b, WorldOri(b, LocalOri(a, q)))) == Neg(WorldOri(c, LocalOri(a, q)))
  {
    WorldLocal(b, LocalOf(a, p), p);
    WorldLocalOri(b, LocalOri(a, q), q);
    MulNegRight(c.ori, LocalOri(a, q));
  }

  /** The application calls `transform_robtarget` with the output frame first
      and the input frame second. That call agrees with the other converter's
      input-to-output conversion whenever one of the two frames is the
      identity frame. */
  lemma SwappedCallAgreesOnIdentity(t: RobTarget, input: Frame, output: Frame)
    requires Transformable(t, input, output)
    requires input == IdentityFrame || output == IdentityFrame
    ensures TransformRobtarget(t, output, input) == TargetConverter.TransformRobtarget(t, input, output)
  {
    var p, q := ToVec(t.pos), ToQuat(t.ori);
    SwappedPosition(p, input, output);
    SwappedOrientation(q, input, output);
    SwappedCallAgrees(t, input, output);
  }

  /** The swapped call and the other converter agree on every target whose
      position and orientation the two compositions of frames treat alike. */
  lemma SwappedCallAgrees(t: RobTarget, input: Frame, output: Frame)
    requires Transformable(t, input, output)
    requires WorldOf(input, LocalOf(output, ToVec(t.pos))) == LocalOf(output, WorldOf(input, ToVec(t.pos)))
    requires WorldOri(input, LocalOri(output, ToQuat(t.ori))) == LocalOri(output, WorldOri(input, ToQuat(t.ori)))
    ensures TransformRobtarget(t, output, input) == TargetConverter.TransformRobtarget(t, input, output)
  {
    TransformMeaning(t, output, input);
    OrientationGrouping(ToQuat(t.ori), input, output);
  }

  lemma OrientationGrouping(q: Quat, input: Frame, output: Frame)
    ensures TargetConverter.ConvertOrientation(q, input, output) == LocalOri(output, WorldOri(input, q))
  {
    MulAssoc(Inv(output.ori), input.ori, q);
  }

  lemma SwappedPosition(p: Vec3, input: Frame, output: Frame)
    requires input == IdentityFrame || output == IdentityFrame
    ensures WorldOf(input, LocalOf(output, p)) == LocalOf(output, WorldOf(input, p))
  {
    if input == IdentityFrame {
      IdentityWorldOf(p);
      IdentityWorldOf(LocalOf(output, p));
    } else {
      IdentityLocalOf(WorldOf(input, p));
      IdentityLocalOf(p);
    }
  }

  lemma SwappedOrientation(q: Quat, input: Frame, output: Frame)
    requires input == IdentityFrame || output == IdentityFrame
    ensures WorldOri(input, LocalOri(output, q)) == LocalOri(output, WorldOri(input, q))
  {
    if input == IdentityFrame {
      IdentityWorldOri(q);
      IdentityWorldOri(LocalOri(output, q));
    } else {
      IdentityLocalOri(q);
      IdentityLocalOri(WorldOri(input, q));
      MulNegRight(input.ori, q);
    }
  }

  /** The identity frame leaves positions alone both ways, and orientations
      too, except that its scipy inverse negates them. */
  lemma IdentityWorldOf(p: Vec3)
    ensures WorldOf(IdentityFrame, p) == p
  {
    RotateOne(p);
  }

  lemma IdentityLocalOf(p: Vec3)
    ensures LocalOf(IdentityFrame, p) == p
  {
    var w := Sub(p, IdentityFrame.pos);
    assert w == p;
    RotateInvOne(w);
  }

  lemma IdentityWorldOri(q: Quat)
    ensures WorldOri(IdentityFrame, q) == q
  {
    MulOne(q);
  }

  lemma IdentityLocalOri(q: Quat)
    ensures LocalOri(IdentityFrame, q) == Neg(q)
  {
    MulOne(q);
    assert Inv(One) == Neg(One);
    MulNegLeft(One, q);
  }

  /** In general the two disagree. For an input frame that only shifts by `d`
      and an output frame that only rotates by `r`, the other converter sends
      the origin to `r⁻¹ d` while the swapped call sends it to `d`. */
  lemma ShiftRotateConverted(d: Vec3, r: Quat)
    ensures TargetConverter.ConvertPosition(Vec3(0.0, 0.0, 0.0), Frame(d, One), Frame(Vec3(0.0, 0.0, 0.0), r))
      == Rotate(Inv(r), d)
  {
    FrameOrigin(d, One);
    UnshiftedLocal(r, d);
  }

  lemma ShiftRotateSwapped(d: Vec3, r: Quat)
    ensures WorldOf(Frame(d, One), LocalOf(Frame(Vec3(0.0, 0.0, 0.0), r), Vec3(0.0, 0.0, 0.0))) == d
  {
    UnshiftedLocal(r, Vec3(0.0, 0.0, 0.0));
    RotateZero(Inv(r));
    FrameOrigin(d, One);
  }

  /** Any frame at `d` puts its origin at `d`. */
  lemma FrameOrigin(d: Vec3, q: Quat)
    ensures WorldOf(Frame(d, q), Vec3(0.0, 0.0, 0.0)) == d
  {
    var o := Vec3(0.0, 0.0, 0.0);
    RotateZero(q);
    assert Add(o, d) == d;
  }

  /** A frame that only rotates by `r` sees a world point `w` at `r⁻¹ w`. */
  lemma UnshiftedLocal(r: Quat, w: Vec3)
    ensures LocalOf(Frame(Vec3(0.0, 0.0, 0.0), r), w) == Rotate(Inv(r), w)
  {
    assert Sub(w, Vec3(0.0, 0.0, 0.0)) == w;
  }

  /** One such pair: a unit shift along x against a half turn about z. The
      other converter sends the origin to `(-1, 0, 0)`, the swapped call to
      `(1, 0, 0)`. */
  lemma HalfTurnConverted()
    ensures TargetConverter.ConvertPosition(Vec3(0.0, 0.0, 0.0), Frame(Vec3(1.0, 0.0, 0.0), One),
      Frame(Vec3(0.0, 0.0, 0.0), Quat(0.0, 0.0, 1.0, 0.0))) == Vec3(-1.0, 0.0, 0.0)
  {
    var d, r := Vec3(1.0, 0.0, 0.0), Quat(0.0, 0.0, 1.0, 0.0);
    ShiftRotateConverted(d, r);
    assert Inv(r) == r;
    HalfTurnZRotates(r, d);
  }

  lemma HalfTurnSwapped()
    ensures WorldOf(Frame(Vec3(1.0, 0.0, 0.0), One),
      LocalOf(Frame(Vec3(0.0, 0.0, 0.0), Quat(0.0, 0.0, 1.0, 0.0)), Vec3(0.0, 0.0, 0.0))) == Vec3(1.0, 0.0, 0.0)
  {
    ShiftRotateSwapped(Vec3(1.0, 0.0, 0.0), Quat(0.0, 0.0, 1.0, 0.0));
  }

  /** A frame that only shifts by one along x, and a frame that only turns
      half about z. */
  const ShiftedX := Frame(Vec3(1.0, 0.0, 0.0), One)
  const HalfTurnZ := Frame(Vec3(0.0, 0.0, 0.0), Quat(0.0, 0.0, 1.0, 0.0))

  /** The same pair on whole robtargets: a target at the origin, whatever its
      (nonzero) orientation, converted from `ShiftedX` to `HalfTurnZ`, lands at
      `(1, 0, 0)` through the application's swapped call and at `(-1, 0, 0)`
      through the other converter. */
  lemma EditionsDiffer(t: RobTarget, input: Frame, output: Frame)
    requires Transformable(t, input, output) && t.pos == [0.0, 0.0, 0.0]
    requires input == ShiftedX && output == HalfTurnZ
    ensures TransformRobtarget(t, output, input).value.pos == [1.0, 0.0, 0.0]
    ensures TargetConverter.TransformRobtarget(t, input, output).value.pos == [-1.0, 0.0, 0.0]
  {
    SwappedOrigin(t, input, output);
    ConvertedOrigin(t, input, output);
  }

  lemma SwappedOrigin(t: RobTarget, input: Frame, output: Frame)
    requires Transformable(t, input, output) && t.pos == [0.0, 0.0, 0.0]
    requires input == ShiftedX && output == HalfTurnZ
    ensures TransformRobtarget(t, output, input).value.pos == [1.0, 0.0, 0.0]
  {
    assert ToVec(t.pos) == Vec3(0.0, 0.0, 0.0);
    HalfTurnSwapped();
    PositionOf(t, output, input, Vec3(1.0, 0.0, 0.0));
  }

  lemma ConvertedOrigin(t: RobTarget, input: Frame, output: Frame)
    requires Transformable(t, input, output) && t.pos == [0.0, 0.0, 0.0]
    requires input == ShiftedX && output == HalfTurnZ
    ensures TargetConverter.TransformRobtarget(t, input, output).value.pos == [-1.0, 0.0, 0.0]
  {
    assert ToVec(t.pos) == Vec3(0.0, 0.0, 0.0);
    HalfTurnConverted();
  }

  /** The position list of a transformed target, given where the composition
      sends the target's position. */
  lemma PositionOf(t: RobTarget, input: Frame, output: Frame, w: Vec3)
    requires Transformable(t, input, output)
    requires WorldOf(output, LocalOf(input, ToVec(t.pos))) == w
    ensures TransformRobtarget(t, input, output).value.pos == [w.x, w.y, w.z]
  {
    TransformMeaning(t, input, output);
    var r := TransformRobtarget(t, input, output).value;
    assert r.pos == [r.pos[0], r.pos[1], r.pos[2]];
  }

  lemma HalfTurnZRotates(q: Quat, v: Vec3)
    requires q == Quat(0.0, 0.0, 1.0, 0.0)
    ensures Rotate(q, v) == Vec3(-v.x, -v.y, v.z)
  {
    MatrixRotate(q, v);
  }
}

/** `transform_robtarget` of the stand-alone target converter
    (Target_converter/Target_converter.py): a robtarget given in the input
    work object is moved to world coordinates and from there into the output
    work object. */
module TargetConverter {
  import opened PyStrings
  import opened Quaternions
  import opened Robtargets

  /** `R_out⁻¹ (R_in p + t_in − t_out)`: into world coordinates through the
      input frame, then out of them through the output frame. */
  function ConvertPosition(p: Vec3, input: Frame, output: Frame): Vec3 {
    LocalOf(output, WorldOf(input, p))
  }

  /** `q_out⁻¹ ⊗ q_in ⊗ q`, with scipy's inverse and left-to-right grouping. */
  function ConvertOrientation(q: Quat, input: Frame, output: Frame): Quat {
    Mul(Mul(Inv(output.ori), input.ori), q)
  }

  /** `transform_robtarget`: `None` where scipy raises; otherwise the position
      and orientation are recomputed and the configuration and external axes
      are carried over unchanged. */
  function TransformRobtarget(t: RobTarget, input: Frame, output: Frame): (r: Option<RobTarget>)
    ensures r.Some? <==> Transformable(t, input, output)
    ensures r.Some? ==> r.value.config == t.config && r.value.ext == t.ext
    ensures r.Some? ==> |r.value.pos| == 3 && |r.value.ori| == 4
  {
    if !Transformable(t, input, output) then None
    else
      Some(RobTarget(FromVec(ConvertPosition(ToVec(t.pos), input, output)),
                     FromQuat(ConvertOrientation(ToQuat(t.ori), input, output)),
                     t.config, t.ext))
  }

  /** The converted target denotes the same world pose: its position seen
      through the output frame is the original position seen through the
      input frame, and likewise for the orientation (up to the quaternion's
      sign, which names the same rotation). */
  lemma SameWorldPose(t: RobTarget, input: Frame, output: Frame)
    requires Transformable(t, input, output) && IsUnit(output.ori)
    ensures var r := TransformRobtarget(t, input, output).value;
      WorldOf(output, ToVec(r.pos)) == WorldOf(input, ToVec(t.pos))
      && WorldOri(output, ToQuat(r.ori)) == Neg(WorldOri(input, ToQuat(t.ori)))
  {
    var q := ToQuat(t.ori);
    WorldLocal(output, Vec3(0.0, 0.0, 0.0), WorldOf(input, ToVec(t.pos)));
    MulAssoc(Inv(output.ori), input.ori, q);
    WorldLocalOri(output, q, WorldOri(input, q));
  }

  /** Converting into the frame the target is already in returns its position
      and the negated quaternion, which is the same rotation. */
  lemma TransformIdentity(t: RobTarget, f: Frame)
    requires Transformable(t, f, f) && IsUnit(f.ori)
    ensures var r := TransformRobtarget(t, f, f).value;
      r.pos == t.pos && ToQuat(r.ori) == Neg(ToQuat(t.ori))
      && forall v :: Rotate(ToQuat(r.ori), v) == Rotate(ToQuat(t.ori), v)
  {
    var q := ToQuat(t.ori);
    WorldLocal(f, ToVec(t.pos), Vec3(0.0, 0.0, 0.0));
    MulAssoc(Inv(f.ori), f.ori, q);
    WorldLocalOri(f, q, q);
    forall v ensures Rotate(Neg(q), v) == Rotate(q, v) {
      RotateNeg(q, v);
    }
  }

  /** Converting from `a` to `b` and back from `b` to `a` restores the target
      exactly. */
  lemma TransformRoundTrip(t: RobTarget, a: Frame, b: Frame)
    requires Transformable(t, a, b) && IsUnit(a.ori) && IsUnit(b.ori)
    ensures var r := TransformRobtarget(t, a, b).value;
      Transformable(r, b, a) && TransformRobtarget(r, b, a) == Some(t)
  {
    var p, q := ToVec(t.pos), ToQuat(t.ori);
    var r := TransformRobtarget(t, a, b).value;
    NormSqMul(Mul(Inv(b.ori), a.ori), q);
    NormSqMul(Inv(b.ori), a.ori);
    assert Transformable(r, b, a);
    WorldLocal(b, p, WorldOf(a, p));
    WorldLocal(a, p, p);
    var q1 := ConvertOrientation(q, a, b);
    MulAssoc(Inv(b.ori), a.ori, q);
    MulAssoc(Inv(a.ori), b.ori, q1);
    WorldLocalOri(b, q, WorldOri(a, q));
    MulNegRight(Inv(a.ori), WorldOri(a, q));
    WorldLocalOri(a, q, q);
    assert ConvertOrientation(q1, b, a) == q;
    assert FromVec(p) == t.pos && FromQuat(q) == t.ori;
  }

  /** Converting from `a` to `b` and then from `b` to `c` gives the position of
      the direct conversion from `a` to `c` and the negated quaternion of it. */
  lemma TransformCompose(t: RobTarget, a: Frame, b: Frame, c: Frame)
    requires Transformable(t, a, c) && IsUnit(a.ori) && IsUnit(b.ori) && IsUnit(c.ori)
    ensures var r := TransformRobtarget(t, a, b).value;
      var d := TransformRobtarget(t, a, c).value;
      Transformable(r, b, c)
      && TransformRobtarget(r, b, c).value.pos == d.pos
      && ToQuat(TransformRobtarget(r, b, c).value.ori) == Neg(ToQuat(d.ori))
  {
    var p, q := ToVec(t.pos), ToQuat(t.ori);
    var r := TransformRobtarget(t, a, b).value;
    NormSqMul(Mul(Inv(b.ori), a.ori), q);
    NormSqMul(Inv(b.ori), a.ori);
    assert Transformable(r, b, c);
    WorldLocal(b, p, WorldOf(a, p));
    var q1 := ConvertOrientation(q, a, b);
    MulAssoc(Inv(b.ori), a.ori, q);
    MulAssoc(Inv(c.ori), b.ori, q1);
    MulAssoc(Inv(c.ori), a.ori, q);
    WorldLocalOri(b, q, WorldOri(a, q));
    MulNegRight(Inv(c.ori), WorldOri(a, q));
  }
}

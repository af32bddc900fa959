/** The robot-target and work-object data both converters share, and
    `format_robtarget`, which is the same text in both. */
module Robtargets {
  import opened PyStrings
  import opened PyNumbers
  import opened Quaternions

  /** A robtarget as the converters hold it: position, orientation quaternion
      (in the order the text gives it, handed to scipy as `(x, y, z, w)`),
      robot configuration and external axes. The list lengths are whatever
      the parsed text held. */
  datatype RobTarget = RobTarget(pos: seq<real>, ori: seq<real>, config: seq<int>, ext: seq<real>)

  /** A work-object frame: translation and quaternion, both taken from the
      wobjdata text as written. */
  datatype Frame = Frame(pos: Vec3, ori: Quat)

  /** The built-in `Wobj0` frame, position `[0, 0, 0]` and orientation
      `[1, 0, 0, 0]`. */
  const Wobj0 := Frame(Vec3(0.0, 0.0, 0.0), Quat(1.0, 0.0, 0.0, 0.0))

  /** The frame whose conversion changes nothing. */
  const IdentityFrame := Frame(Vec3(0.0, 0.0, 0.0), One)

  /** Because the quaternion text is handed to scipy in scalar-last order,
      `Wobj0`'s `[1, 0, 0, 0]` is a half turn about the x axis, not the
      identity. */
  lemma Wobj0IsHalfTurn(v: Vec3)
    ensures Rotate(Wobj0.ori, v) == Vec3(v.x, -v.y, -v.z)
    ensures Wobj0 != IdentityFrame
  {
    var q := Wobj0.ori;
    assert RotationMatrix(q) == Mat3(Vec3(1.0, 0.0, 0.0), Vec3(0.0, -1.0, 0.0), Vec3(0.0, 0.0, -1.0));
    assert MatVec(RotationMatrix(q), v) == Vec3(v.x, -v.y, -v.z);
    MatrixRotate(q, v);
    assert q.w != One.w;
  }

  /** The world coordinates of a point given in frame `f`: rotate, then shift. */
  function WorldOf(f: Frame, p: Vec3): Vec3 {
    Add(Rotate(f.ori, p), f.pos)
  }

  /** The coordinates in frame `f` of a world point: shift back, then rotate
      by scipy's inverse of the frame quaternion. */
  function LocalOf(f: Frame, w: Vec3): Vec3 {
    Rotate(Inv(f.ori), Sub(w, f.pos))
  }

  /** For a unit frame quaternion, `LocalOf` and `WorldOf` undo each other. */
  lemma WorldLocal(f: Frame, p: Vec3, w: Vec3)
    requires IsUnit(f.ori)
    ensures LocalOf(f, WorldOf(f, p)) == p
    ensures WorldOf(f, LocalOf(f, w)) == w
  {
    RotateUndo(f.ori, p);
    RotateUndo(f.ori, Sub(w, f.pos));
    assert Sub(WorldOf(f, p), f.pos) == Rotate(f.ori, p);
  }

  /** The world orientation of an orientation `q` given in frame `f`, and back. */
  function WorldOri(f: Frame, q: Quat): Quat {
    Mul(f.ori, q)
  }

  function LocalOri(f: Frame, r: Quat): Quat {
    Mul(Inv(f.ori), r)
  }

  /** For a unit frame quaternion, `LocalOri` and `WorldOri` undo each other up
      to the sign of the quaternion, which leaves the rotation unchanged. */
  lemma WorldLocalOri(f: Frame, q: Quat, r: Quat)
    requires IsUnit(f.ori)
    ensures LocalOri(f, WorldOri(f, q)) == Neg(q)
    ensures WorldOri(f, LocalOri(f, r)) == Neg(r)
  {
    InvCancel(f.ori, q);
    InvCancel(f.ori, r);
  }

  /** Both converters raise (inside scipy) unless the position has three
      entries, the orientation four, and none of the target's, the input
      frame's or the output frame's quaternions is zero. */
  predicate Transformable(t: RobTarget, input: Frame, output: Frame) {
    |t.pos| == 3 && |t.ori| == 4 && NormSq(ToQuat(t.ori)) != 0.0
    && NormSq(input.ori) != 0.0 && NormSq(output.ori) != 0.0
  }

  function ToVec(s: seq<real>): Vec3
    requires |s| == 3
  {
    Vec3(s[0], s[1], s[2])
  }

  function FromVec(v: Vec3): (s: seq<real>)
    ensures |s| == 3 && ToVec(s) == v
  {
    [v.x, v.y, v.z]
  }

  function ToQuat(s: seq<real>): Quat
    requires |s| == 4
  {
    Quat(s[0], s[1], s[2], s[3])
  }

  function FromQuat(q: Quat): (s: seq<real>)
    ensures |s| == 4 && ToQuat(s) == q
  {
    [q.x, q.y, q.z, q.w]
  }

  /** The external-axis value that stands for "no axis". */
  const Sentinel: real := 9000000000.0

  const SentinelText := "9E+09"

  /** One external-axis entry of `format_robtarget`. */
  function ExtText(x: real): string {
    if Abs(x - Sentinel) >= 0.000001 then FixedPoint(x, 2) else SentinelText
  }

  /** An external-axis entry is printed as `9E+09` exactly when it lies within
      `1e-6` of `9e9`; otherwise it is a two-decimal number. */
  lemma ExtTextSentinel(x: real)
    ensures ExtText(x) == SentinelText <==> Abs(x - Sentinel) < 0.000001
    ensures ExtText(x) != SentinelText ==> ExtText(x) == FixedPoint(x, 2)
  {
    if Abs(x - Sentinel) >= 0.000001 {
      var r := FixedPoint(x, 2);
      if |r| == 5 {
        assert r[2] == '.';
        assert SentinelText[2] == '+';
      }
    }
  }

  function PosTexts(t: RobTarget): seq<string> {
    seq(|t.pos|, i requires 0 <= i < |t.pos| => FixedPoint(t.pos[i], 2))
  }

  function OriTexts(t: RobTarget): seq<string> {
    seq(|t.ori|, i requires 0 <= i < |t.ori| => FixedPoint(t.ori[i], 6))
  }

  function ConfigTexts(t: RobTarget): seq<string> {
    seq(|t.config|, i requires 0 <= i < |t.config| => IntToString(t.config[i]))
  }

  function ExtTexts(t: RobTarget): seq<string> {
    seq(|t.ext|, i requires 0 <= i < |t.ext| => ExtText(t.ext[i]))
  }

  /** The four comma-separated groups of `format_robtarget`, without brackets. */
  function GroupTexts(t: RobTarget): seq<string> {
    [Join(PosTexts(t), ", "), Join(OriTexts(t), ", "), Join(ConfigTexts(t), ", "), Join(ExtTexts(t), ", ")]
  }

  /** `format_robtarget`: `[[p], [o], [c], [e]]` with positions to 2 decimals,
      orientation to 6, configuration as integers and external axes to 2
      decimals or `9E+09`. */
  function Format(t: RobTarget): (r: string)
    ensures |r| >= 4 && r[..2] == "[[" && r[|r| - 2..] == "]]"
  {
    var g := GroupTexts(t);
    "[[" + g[0] + "], [" + g[1] + "], [" + g[2] + "], [" + g[3] + "]]"
  }

  /** Reading `Format(t)` back: the text between the outer brackets splits on
      `], [` into the four groups, each group splits on `, ` into one entry
      per element of the corresponding list (an empty list gives an empty
      group), and every entry parses back to its value: positions and
      orientation within half a unit of the last printed digit, configuration
      exactly, external axes within `0.005`. */
  lemma FormatParse(t: RobTarget)
    ensures var r := Format(t);
      Split(r[2..|r| - 2], "], [") == GroupTexts(t)
    ensures forall k :: 0 <= k < 4 && |GroupEntries(t, k)| > 0 ==>
      Split(GroupTexts(t)[k], ", ") == GroupEntries(t, k)
    ensures forall k :: 0 <= k < 4 && |GroupEntries(t, k)| == 0 ==> GroupTexts(t)[k] == ""
    ensures |PosTexts(t)| == |t.pos| && |OriTexts(t)| == |t.ori|
    ensures |ConfigTexts(t)| == |t.config| && |ExtTexts(t)| == |t.ext|
    ensures forall i :: 0 <= i < |t.pos| ==> ParseFloat(PosTexts(t)[i]) == Some(FixedValue(t.pos[i], 2))
    ensures forall i :: 0 <= i < |t.ori| ==> ParseFloat(OriTexts(t)[i]) == Some(FixedValue(t.ori[i], 6))
    ensures forall i :: 0 <= i < |t.config| ==> ParseInt(ConfigTexts(t)[i]) == Some(t.config[i])
    ensures forall i :: 0 <= i < |t.ext| ==>
      ParseFloat(ExtTexts(t)[i]).Some? && Abs(ParseFloat(ExtTexts(t)[i]).value - t.ext[i]) <= 0.005
  {
    FormatGroups(t);
    forall k | 0 <= k < 4 && |GroupEntries(t, k)| > 0
      ensures Split(GroupTexts(t)[k], ", ") == GroupEntries(t, k)
    {
      GroupSplit(t, k);
    }
    forall k | 0 <= k < 4 && |GroupEntries(t, k)| == 0 ensures GroupTexts(t)[k] == "" {
      EntriesNumeral(t, k);
    }
    EntriesParse(t);
  }

  /** The outer level of `Format(t)` splits back into the four groups. */
  lemma FormatGroups(t: RobTarget)
    ensures var r := Format(t);
      Split(r[2..|r| - 2], "], [") == GroupTexts(t)
  {
    var g := GroupTexts(t);
    forall k | 0 <= k < 4 ensures NoChar(g[k], ']') {
      GroupNoChar(t, k, ']');
    }
    BracketGroups(g);
  }

  /** Four bracket-free groups written as `[[a], [b], [c], [d]]` split back. */
  lemma BracketGroups(g: seq<string>)
    requires |g| == 4 && forall k :: 0 <= k < 4 ==> NoChar(g[k], ']')
    ensures var r := "[[" + g[0] + "], [" + g[1] + "], [" + g[2] + "], [" + g[3] + "]]";
      Split(r[2..|r| - 2], "], [") == g
  {
    var sep := "], [";
    var r := "[[" + g[0] + "], [" + g[1] + "], [" + g[2] + "], [" + g[3] + "]]";
    assert Join(g[3..], sep) == g[3];
    assert Join(g[2..], sep) == g[2] + sep + g[3] by { assert g[2..][1..] == g[3..]; }
    assert Join(g[1..], sep) == g[1] + sep + g[2] + sep + g[3] by { assert g[1..][1..] == g[2..]; }
    assert Join(g, sep) == g[0] + sep + g[1] + sep + g[2] + sep + g[3];
    assert r == "[[" + Join(g, sep) + "]]";
    assert r[2..|r| - 2] == Join(g, sep);
    SplitJoin(g, sep);
  }

  /** A nonempty group splits back into its entries. */
  lemma GroupSplit(t: RobTarget, k: nat)
    requires k < 4 && |GroupEntries(t, k)| > 0
    ensures Split(GroupTexts(t)[k], ", ") == GroupEntries(t, k)
  {
    EntriesNumeral(t, k);
    var e := GroupEntries(t, k);
    forall i | 0 <= i < |e| ensures NoChar(e[i], ',') {
      NumeralNoChar(e[i], ',');
    }
    SplitJoin(e, ", ");
  }

  lemma GroupNoChar(t: RobTarget, k: nat, c: char)
    requires k < 4 && (c == ']' || c == ',' || c == '\n')
    ensures c != ',' ==> NoChar(GroupTexts(t)[k], c)
  {
    EntriesNumeral(t, k);
    var e := GroupEntries(t, k);
    forall i | 0 <= i < |e| ensures NoChar(e[i], c) {
      NumeralNoChar(e[i], c);
    }
    if c != ',' {
      JoinNoChar(e, ", ", c);
    }
  }

  /** `format_robtarget` writes a single line. */
  lemma FormatOneLine(t: RobTarget)
    ensures NoChar(Format(t), '\n')
  {
    var g := GroupTexts(t);
    forall k | 0 <= k < 4 ensures NoChar(g[k], '\n') {
      GroupNoChar(t, k, '\n');
    }
    var open, sep, close := "[[", "], [", "]]";
    assert NoChar(open, '\n') && NoChar(sep, '\n') && NoChar(close, '\n');
    NoCharConcat(open, g[0], '\n');
    NoCharConcat(open + g[0], sep, '\n');
    NoCharConcat(open + g[0] + sep, g[1], '\n');
    NoCharConcat(open + g[0] + sep + g[1], sep, '\n');
    NoCharConcat(open + g[0] + sep + g[1] + sep, g[2], '\n');
    NoCharConcat(open + g[0] + sep + g[1] + sep + g[2], sep, '\n');
    NoCharConcat(open + g[0] + sep + g[1] + sep + g[2] + sep, g[3], '\n');
    NoCharConcat(open + g[0] + sep + g[1] + sep + g[2] + sep + g[3], close, '\n');
  }

  /** Every printed entry parses back to (an approximation of) its value. */
  lemma EntriesParse(t: RobTarget)
    ensures |PosTexts(t)| == |t.pos| && |OriTexts(t)| == |t.ori|
    ensures |ConfigTexts(t)| == |t.config| && |ExtTexts(t)| == |t.ext|
    ensures forall i :: 0 <= i < |t.pos| ==> ParseFloat(PosTexts(t)[i]) == Some(FixedValue(t.pos[i], 2))
    ensures forall i :: 0 <= i < |t.ori| ==> ParseFloat(OriTexts(t)[i]) == Some(FixedValue(t.ori[i], 6))
    ensures forall i :: 0 <= i < |t.config| ==> ParseInt(ConfigTexts(t)[i]) == Some(t.config[i])
    ensures forall i :: 0 <= i < |t.ext| ==>
      ParseFloat(ExtTexts(t)[i]).Some? && Abs(ParseFloat(ExtTexts(t)[i]).value - t.ext[i]) <= 0.005
  {
    forall i | 0 <= i < |t.pos| ensures ParseFloat(PosTexts(t)[i]) == Some(FixedValue(t.pos[i], 2)) {
      FixedPointParse(t.pos[i], 2);
    }
    forall i | 0 <= i < |t.ori| ensures ParseFloat(OriTexts(t)[i]) == Some(FixedValue(t.ori[i], 6)) {
      FixedPointParse(t.ori[i], 6);
    }
    forall i | 0 <= i < |t.config| ensures ParseInt(ConfigTexts(t)[i]) == Some(t.config[i]) {
      IntRoundTrip(t.config[i]);
    }
    forall i | 0 <= i < |t.ext|
      ensures ParseFloat(ExtTexts(t)[i]).Some? && Abs(ParseFloat(ExtTexts(t)[i]).value - t.ext[i]) <= 0.005
    {
      ExtTextParse(t.ext[i]);
    }
  }

  /** The entries of group `k` of `Format(t)`. */
  function GroupEntries(t: RobTarget, k: nat): seq<string>
    requires k < 4
  {
    if k == 0 then PosTexts(t) else if k == 1 then OriTexts(t)
    else if k == 2 then ConfigTexts(t) else ExtTexts(t)
  }

  lemma EntriesNumeral(t: RobTarget, k: nat)
    requires k < 4
    ensures forall i :: 0 <= i < |GroupEntries(t, k)| ==>
      (NumeralChars(GroupEntries(t, k)[i]) || GroupEntries(t, k)[i] == SentinelText)
    ensures GroupTexts(t)[k] == Join(GroupEntries(t, k), ", ")
  {
  }

  lemma NumeralNoChar(s: string, c: char)
    requires NumeralChars(s) || s == SentinelText
    requires c == ']' || c == ',' || c == '\n'
    ensures NoChar(s, c)
  {
  }

  lemma ExtTextParse(x: real)
    ensures ParseFloat(ExtText(x)).Some? && Abs(ParseFloat(ExtText(x)).value - x) <= 0.005
  {
    if Abs(x - Sentinel) >= 0.000001 {
      TwoDecimalsClose(x);
    } else {
      SentinelParse();
    }
  }

  /** `float("9E+09")` is `9e9`. */
  lemma SentinelParse()
    ensures ParseFloat(SentinelText) == Some(Sentinel)
  {
    var s := SentinelText;
    IndexOfAnyFirst(s, {'e', 'E'}, 1);
    assert s[..1] == "9" && s[2..] == "+09";
    IndexOfAnyFirst("9", {'.'}, 1);
    assert "9"[..1] == "9";
    assert DigitsValue("9") == 9;
    assert "+09"[1..] == "09";
    assert DigitsValue("09") == 9 by {
      assert "09"[..1] == "0";
      assert DigitsValue("0") == 0;
    }
    assert Pow10(9) == 1000000000;
  }
}

/** The workspace-limiting rule and the mocap control vector of the simxarm
    task base class: every step turns a 4-component action into a 9-component
    mocap command, after suppressing motion that would take the gripper
    further out of its box above the table.

    Coordinates are `real`; the simulator (site lookups, mocap actuation,
    physics substeps) is outside the model, so the gripper position is a
    parameter and the control vector is returned instead of being sent. */
module TaskBase {

  datatype Option<T> = None | Some(value: T)

  /** Why `_apply_action` refuses an action: its shape is not (4,). */
  datatype Error = ActionShape(length: nat)

  datatype Result<T> = Success(value: T) | Failure(error: Error)

  /** The quaternion used when the task is built without a gripper rotation. */
  const DefaultGripperRotation: seq<real> := [0.0, 1.0, 0.0, 0.0]
  const CenterOfTable: seq<real> := [1.655, 0.3, 0.63625]
  const MaxZ: real := 1.2
  const MinZ: real := 0.2
  const Substeps: nat := 20
  /** The only action shape `_apply_action` accepts. */
  const ActionSize: nat := 4

  /** The task parameters fixed when the environment is built; none of them
      changes afterwards. */
  datatype Base = Base(
    gripperRotation: seq<real>,
    centerOfTable: seq<real>,
    maxZ: real,
    minZ: real,
    nSubsteps: nat)

  /** What construction guarantees: a 3-D table centre, a z range that is not
      empty and at least one substep per step. */
  predicate Valid(b: Base)
  {
    |b.centerOfTable| == 3 && b.minZ < b.maxZ && b.nSubsteps > 0
  }

  /** The constructor: the default rotation unless one is given, the fixed
      table centre and z range, and 20 substeps per step. */
  function New(gripperRotation: Option<seq<real>>): (b: Base)
    ensures Valid(b)
    ensures gripperRotation.Some? ==> b.gripperRotation == gripperRotation.value
    ensures gripperRotation.None? ==> b.gripperRotation == DefaultGripperRotation
    ensures b.centerOfTable == CenterOfTable && b.maxZ == MaxZ && b.minZ == MinZ
    ensures b.nSubsteps == Substeps
  {
    var rotation := if gripperRotation.None? then DefaultGripperRotation else gripperRotation.value;
    Base(rotation, CenterOfTable, MaxZ, MinZ, Substeps)
  }

  // ---------------------------------------------------------------------------
  // The workspace box

  /** The upper bound on axis 0 (x), 1 (y) or 2 (z). */
  function Upper(b: Base, axis: nat): real
    requires Valid(b) && axis < 3
  {
    if axis == 0 then b.centerOfTable[0] - 0.105 + 0.15
    else if axis == 1 then b.centerOfTable[1] + 0.3
    else b.maxZ
  }

  /** The lower bound on an axis; it lies strictly below the upper bound, so
      the two rules of one axis never both fire. */
  function Lower(b: Base, axis: nat): (lo: real)
    requires Valid(b) && axis < 3
    ensures lo < Upper(b, axis)
  {
    if axis == 0 then b.centerOfTable[0] - 0.105 - 0.3
    else if axis == 1 then b.centerOfTable[1] - 0.3
    else b.minZ
  }

  /** The box of the default task: x in [1.25, 1.7], y in [0, 0.6], z in [0.2, 1.2],
      that is, x within [cx - 0.405, cx + 0.045] and y within cy -/+ 0.3. */
  lemma DefaultWorkspace(rotation: Option<seq<real>>)
    ensures Lower(New(rotation), 0) == CenterOfTable[0] - 0.405 == 1.25
    ensures Upper(New(rotation), 0) == CenterOfTable[0] + 0.045 == 1.7
    ensures Lower(New(rotation), 1) == 0.0 && Upper(New(rotation), 1) == 0.6
    ensures Lower(New(rotation), 2) == 0.2 && Upper(New(rotation), 2) == 1.2
  {
  }

  // ---------------------------------------------------------------------------
  // One axis

  /** Python's `min(a, b)`: the first argument unless the second is smaller. */
  function Min(a: real, b: real): (m: real)
    ensures m <= a && m <= b && (m == a || m == b)
  {
    if b < a then b else a
  }

  /** Python's `max(a, b)`: the first argument unless the second is larger. */
  function Max(a: real, b: real): (m: real)
    ensures m >= a && m >= b && (m == a || m == b)
  {
    if b > a then b else a
  }

  /** A delta is allowed on an axis when it does not move a gripper that is
      already past a bound any further out. */
  predicate Allowed(pos: real, lo: real, hi: real, d: real)
  {
    (pos > hi ==> d <= 0.0) && (pos < lo ==> d >= 0.0)
  }

  /** The two rules of one axis, in the order the source applies them: past
      the upper bound the delta becomes `min(d, 0)`, then below the lower
      bound it becomes `max(d, 0)`. */
  function LimitAxis(pos: real, lo: real, hi: real, d: real): (r: real)
    ensures r == d || r == 0.0
    ensures Allowed(pos, lo, hi, r)
  {
    var afterUpper := if pos > hi then Min(d, 0.0) else d;
    if pos < lo then Max(afterUpper, 0.0) else afterUpper
  }

  /** The rule is exactly "cancel a delta that points further out": the
      sequential min/max form agrees with this reference on every input,
      whatever the order of the bounds. */
  lemma LimitAxisCancelsOutwardMotion(pos: real, lo: real, hi: real, d: real)
    ensures LimitAxis(pos, lo, hi, d)
         == if (pos > hi && d > 0.0) || (pos < lo && d < 0.0) then 0.0 else d
  {
  }

  function Sq(x: real): real
  {
    x * x
  }

  /** Squares of non-negative reals are ordered as the reals are, strictly
      when they differ. */
  lemma SqMonotoneNonNegative(a: real, b: real)
    requires 0.0 <= a <= b
    ensures Sq(a) <= Sq(b)
    ensures a != b ==> Sq(a) < Sq(b)
  {
    var gap, sum := b - a, b + a;
    assert gap >= 0.0 && sum >= 0.0;
    assert gap * sum >= 0.0;
    assert Sq(b) - Sq(a) == gap * sum;
    if a != b {
      assert gap > 0.0 && sum > 0.0;
      assert gap * sum > 0.0;
    }
  }

  /** Squares ordered by magnitude: from `0 <= a <= b` or `b <= a <= 0`
      follows `a * a <= b * b`, strictly when `a != b`. */
  lemma SqMonotone(a: real, b: real)
    requires 0.0 <= a <= b || b <= a <= 0.0
    ensures Sq(a) <= Sq(b)
    ensures a != b ==> Sq(a) < Sq(b)
  {
    if 0.0 <= a <= b {
      SqMonotoneNonNegative(a, b);
    } else {
      SqMonotoneNonNegative(-a, -b);
      assert Sq(-a) == Sq(a) && Sq(-b) == Sq(b);
    }
  }

  /** The limited delta of one axis is the allowed delta nearest to the
      requested one, and no other allowed delta is as near. */
  lemma LimitAxisIsNearest(pos: real, lo: real, hi: real, d: real, e: real)
    requires Allowed(pos, lo, hi, e)
    ensures Sq(LimitAxis(pos, lo, hi, d) - d) <= Sq(e - d)
    ensures e != LimitAxis(pos, lo, hi, d) ==> Sq(LimitAxis(pos, lo, hi, d) - d) < Sq(e - d)
  {
    var r := LimitAxis(pos, lo, hi, d);
    if r == d {
      if e != d {
        SqMonotone(0.0, e - d);
      }
      assert Sq(0.0) == 0.0;
    } else {
      // r == 0 and d points outwards, while e does not
      assert r == 0.0;
      if d > 0.0 {
        assert pos > hi && e <= 0.0;
        SqMonotone(-d, e - d);
      } else {
        assert pos < lo && e >= 0.0;
        SqMonotone(-d, e - d);
      }
    }
  }

  // ---------------------------------------------------------------------------
  // `_limit_gripper` on the whole position control

  /** A position control is allowed when each of its three axes is. */
  predicate AllowedDelta(b: Base, gripperPos: seq<real>, posCtrl: seq<real>)
    requires Valid(b) && |gripperPos| >= 3 && |posCtrl| >= 3
  {
    forall i :: 0 <= i < 3 ==> Allowed(gripperPos[i], Lower(b, i), Upper(b, i), posCtrl[i])
  }

  /** `_limit_gripper` as a function: components 0-2 pass through the rules
      of their axis, anything after them is returned as it came. */
  function Limit(b: Base, gripperPos: seq<real>, posCtrl: seq<real>): (r: seq<real>)
    requires Valid(b) && |gripperPos| >= 3 && |posCtrl| >= 3
    ensures |r| == |posCtrl| && r[3..] == posCtrl[3..]
    ensures forall i :: 0 <= i < |r| ==> r[i] == posCtrl[i] || r[i] == 0.0
    ensures AllowedDelta(b, gripperPos, r)
  {
    posCtrl[0 := LimitAxis(gripperPos[0], Lower(b, 0), Upper(b, 0), posCtrl[0])]
           [1 := LimitAxis(gripperPos[1], Lower(b, 1), Upper(b, 1), posCtrl[1])]
           [2 := LimitAxis(gripperPos[2], Lower(b, 2), Upper(b, 2), posCtrl[2])]
  }

  /** The rules axis by axis: past the upper bound the delta is `min(d, 0)`,
      past the lower bound `max(d, 0)`, and inside the closed interval it is
      left alone (the comparisons are strict, so a bound itself is inside). */
  lemma LimitRules(b: Base, gripperPos: seq<real>, posCtrl: seq<real>, i: nat)
    requires Valid(b) && |gripperPos| >= 3 && |posCtrl| >= 3 && i < 3
    ensures gripperPos[i] > Upper(b, i) ==> Limit(b, gripperPos, posCtrl)[i] == Min(posCtrl[i], 0.0)
    ensures gripperPos[i] < Lower(b, i) ==> Limit(b, gripperPos, posCtrl)[i] == Max(posCtrl[i], 0.0)
    ensures Lower(b, i) <= gripperPos[i] <= Upper(b, i) ==> Limit(b, gripperPos, posCtrl)[i] == posCtrl[i]
  {
  }

  /** A control is left as it is exactly when it is already allowed. */
  lemma LimitFixesAllowed(b: Base, gripperPos: seq<real>, posCtrl: seq<real>)
    requires Valid(b) && |gripperPos| >= 3 && |posCtrl| >= 3
    ensures Limit(b, gripperPos, posCtrl) == posCtrl <==> AllowedDelta(b, gripperPos, posCtrl)
  {
    var r := Limit(b, gripperPos, posCtrl);
    if AllowedDelta(b, gripperPos, posCtrl) {
      forall i | 0 <= i < |r| ensures r[i] == posCtrl[i] {
        if i < 3 {
          assert Allowed(gripperPos[i], Lower(b, i), Upper(b, i), posCtrl[i]);
          LimitAxisCancelsOutwardMotion(gripperPos[i], Lower(b, i), Upper(b, i), posCtrl[i]);
        } else {
          assert r[3..][i - 3] == posCtrl[3..][i - 3];
        }
      }
    }
  }

  /** Limiting twice from the same gripper position changes nothing more. */
  lemma LimitIdempotent(b: Base, gripperPos: seq<real>, posCtrl: seq<real>)
    requires Valid(b) && |gripperPos| >= 3 && |posCtrl| >= 3
    ensures Limit(b, gripperPos, Limit(b, gripperPos, posCtrl)) == Limit(b, gripperPos, posCtrl)
  {
    LimitFixesAllowed(b, gripperPos, Limit(b, gripperPos, posCtrl));
  }

  /** Squared Euclidean distance between two position controls. */
  function SqDist(u: seq<real>, v: seq<real>): real
    requires |u| >= 3 && |v| >= 3
  {
    Sq(u[0] - v[0]) + Sq(u[1] - v[1]) + Sq(u[2] - v[2])
  }

  /** Independent characterisation of the rule: the limited control is the
      allowed control nearest to the request, and the only one that near. */
  lemma LimitIsNearest(b: Base, gripperPos: seq<real>, posCtrl: seq<real>, other: seq<real>)
    requires Valid(b) && |gripperPos| >= 3 && |posCtrl| >= 3 && |other| >= 3
    requires AllowedDelta(b, gripperPos, other)
    ensures SqDist(Limit(b, gripperPos, posCtrl), posCtrl) <= SqDist(other, posCtrl)
    ensures SqDist(other, posCtrl) <= SqDist(Limit(b, gripperPos, posCtrl), posCtrl)
            ==> other[..3] == Limit(b, gripperPos, posCtrl)[..3]
  {
    var r := Limit(b, gripperPos, posCtrl);
    forall i | 0 <= i < 3
      ensures Sq(r[i] - posCtrl[i]) <= Sq(other[i] - posCtrl[i])
      ensures other[i] != r[i] ==> Sq(r[i] - posCtrl[i]) < Sq(other[i] - posCtrl[i])
    {
      assert Allowed(gripperPos[i], Lower(b, i), Upper(b, i), other[i]);
      LimitAxisIsNearest(gripperPos[i], Lower(b, i), Upper(b, i), posCtrl[i], other[i]);
    }
    if SqDist(other, posCtrl) <= SqDist(r, posCtrl) {
      forall i | 0 <= i < 3 ensures other[i] == r[i] {
      }
      assert other[..3] == r[..3];
    }
  }

  /** `_limit_gripper` as the source runs it: six conditional assignments on
      the control array, which it then returns. */
  method LimitGripper(b: Base, gripperPos: seq<real>, posCtrl: array<real>) returns (limited: array<real>)
    requires Valid(b) && |gripperPos| >= 3 && posCtrl.Length >= 3
    modifies posCtrl
    ensures limited == posCtrl
    ensures posCtrl[..] == Limit(b, gripperPos, old(posCtrl[..]))
    ensures AllowedDelta(b, gripperPos, posCtrl[..])
  {
    if gripperPos[0] > b.centerOfTable[0] - 0.105 + 0.15 {
      posCtrl[0] := Min(posCtrl[0], 0.0);
    }
    if gripperPos[0] < b.centerOfTable[0] - 0.105 - 0.3 {
      posCtrl[0] := Max(posCtrl[0], 0.0);
    }
    if gripperPos[1] > b.centerOfTable[1] + 0.3 {
      posCtrl[1] := Min(posCtrl[1], 0.0);
    }
    if gripperPos[1] < b.centerOfTable[1] - 0.3 {
      posCtrl[1] := Max(posCtrl[1], 0.0);
    }
    if gripperPos[2] > b.maxZ {
      posCtrl[2] := Min(posCtrl[2], 0.0);
    }
    if gripperPos[2] < b.minZ {
      posCtrl[2] := Max(posCtrl[2], 0.0);
    }
    limited := posCtrl;
  }

  // ---------------------------------------------------------------------------
  // `_apply_action`: the control vector sent to the mocap

  /** Scaling by `1 / nSubsteps` turns a per-step delta into the increment of
      one substep: `nSubsteps` increments add up to the step's delta. */
  function PerSubstep(b: Base, v: seq<real>): (r: seq<real>)
    requires Valid(b)
    ensures |r| == |v|
    ensures forall i :: 0 <= i < |v| ==> r[i] * (b.nSubsteps as real) == v[i]
    ensures forall i :: 0 <= i < |v| ==> (r[i] < 0.0 <==> v[i] < 0.0) && (r[i] > 0.0 <==> v[i] > 0.0)
  {
    seq(|v|, i requires 0 <= i < |v| => v[i] * (1.0 / b.nSubsteps as real))
  }

  /** What the mocap receives for a 4-component action: the limited position
      delta scaled per substep, the gripper rotation, and the gripper scalar
      once per finger. */
  predicate ControlLayout(b: Base, gripperPos: seq<real>, action: seq<real>, ctrl: seq<real>)
    requires Valid(b) && |gripperPos| >= 3 && |action| == ActionSize
  {
    var rot := b.gripperRotation;
    |ctrl| == 3 + |rot| + 2
    && (forall i :: 0 <= i < 3 ==>
          ctrl[i] * (b.nSubsteps as real) == Limit(b, gripperPos, action[..3])[i])
    && ctrl[3..3 + |rot|] == rot
    && ctrl[3 + |rot|] == action[3] && ctrl[4 + |rot|] == action[3]
  }

  /** `_apply_action` without the actuation: refuse an action whose shape is
      not (4,), otherwise build the mocap control vector. */
  function MocapControl(b: Base, gripperPos: seq<real>, action: seq<real>): (r: Result<seq<real>>)
    requires Valid(b) && |gripperPos| >= 3
    ensures r.Failure? <==> |action| != ActionSize
    ensures r.Failure? ==> r.error == ActionShape(|action|)
    ensures r.Success? ==> ControlLayout(b, gripperPos, action, r.value)
  {
    if |action| != ActionSize then Failure(ActionShape(|action|))
    else
      var posCtrl := PerSubstep(b, Limit(b, gripperPos, action[..3]));
      var ctrl := posCtrl + b.gripperRotation + [action[3], action[3]];
      assert ctrl[..3] == posCtrl;
      assert ctrl[3..3 + |b.gripperRotation|] == b.gripperRotation;
      Success(ctrl)
  }

  /** The per-substep position increment obeys the workspace rule as well:
      each component is the requested delta over `nSubsteps` or zero, and
      limiting it again leaves it unchanged. */
  lemma ControlRespectsWorkspace(b: Base, gripperPos: seq<real>, action: seq<real>)
    requires Valid(b) && |gripperPos| >= 3 && |action| == ActionSize
    ensures MocapControl(b, gripperPos, action).Success?
    ensures var ctrl := MocapControl(b, gripperPos, action).value;
      && (forall i :: 0 <= i < 3 ==>
            ctrl[i] * (b.nSubsteps as real) == action[i] || ctrl[i] == 0.0)
      && AllowedDelta(b, gripperPos, ctrl[..3])
      && Limit(b, gripperPos, ctrl[..3]) == ctrl[..3]
  {
    var ctrl := MocapControl(b, gripperPos, action).value;
    var limited := Limit(b, gripperPos, action[..3]);
    var scaled := PerSubstep(b, limited);
    assert ctrl[..3] == scaled;
    forall i | 0 <= i < 3
      ensures ctrl[i] * (b.nSubsteps as real) == action[i] || ctrl[i] == 0.0
      ensures Allowed(gripperPos[i], Lower(b, i), Upper(b, i), ctrl[i])
    {
      assert ctrl[i] == scaled[i];
      assert Allowed(gripperPos[i], Lower(b, i), Upper(b, i), limited[i]);
    }
    LimitFixesAllowed(b, gripperPos, ctrl[..3]);
  }

  /** With the default task the control vector has 9 elements: three
      position increments, each the limited delta times 1/20, the quaternion
      [0, 1, 0, 0], and the gripper scalar twice. */
  lemma DefaultControlVector(gripperPos: seq<real>, action: seq<real>)
    requires |gripperPos| >= 3 && |action| == ActionSize
    ensures var r := MocapControl(New(None), gripperPos, action);
      && r.Success?
      && |r.value| == 9
      && (forall i :: 0 <= i < 3 ==>
            r.value[i] * 20.0 == Limit(New(None), gripperPos, action[..3])[i])
      && r.value[3..7] == [0.0, 1.0, 0.0, 0.0]
      && r.value[7] == r.value[8] == action[3]
  {
  }

  /** A large downward command with the gripper below the floor of the box
      (z < 0.2) produces no vertical motion at all. */
  lemma DescentStopsBelowFloor(gripperPos: seq<real>)
    requires |gripperPos| == 3 && Lower(New(None), 2) > gripperPos[2]
    ensures MocapControl(New(None), gripperPos, [0.0, 0.0, -10.0, 0.0]).Success?
    ensures MocapControl(New(None), gripperPos, [0.0, 0.0, -10.0, 0.0]).value[2] == 0.0
  {
    var b := New(None);
    LimitRules(b, gripperPos, [0.0, 0.0, -10.0], 2);
  }

  /** `_apply_action` as the source runs it: the action is copied first, and
      the limit rewrites the first three slots of the copy in place (the
      slice `action[:3]` is a view of the copy). There is no `modifies`
      clause, so the caller's array is left as it was. */
  method ApplyAction(b: Base, gripperPos: seq<real>, action: array<real>) returns (r: Result<seq<real>>)
    requires Valid(b) && |gripperPos| >= 3
    ensures r == MocapControl(b, gripperPos, action[..])
  {
    if action.Length != ActionSize {
      return Failure(ActionShape(action.Length));
    }
    var copy := new real[ActionSize];
    forall i | 0 <= i < ActionSize {
      copy[i] := action[i];
    }
    var gripperCtrl := copy[3];
    var limited := LimitGripper(b, gripperPos, copy);
    assert limited[..3] == Limit(b, gripperPos, action[..][..3]);
    var posCtrl := PerSubstep(b, limited[..3]);
    r := Success(posCtrl + b.gripperRotation + [gripperCtrl, gripperCtrl]);
  }
}

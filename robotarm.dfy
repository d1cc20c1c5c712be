/**
  A robot arm: a chain of joints rooted at a base frame, grown at its tail
  and driven by writing or adding to the joints' variable parameters.
 */
module Arm {
  import opened Wrappers
  import opened Geometry
  import opened RobotParts

  /**
    The shape of every arm's chain: a base frame at index 0 and nowhere else,
    and no end effector before the tail.
   */
  predicate ValidChain(chain: seq<Joint>) {
    && |chain| >= 1
    && chain[0].variant.BaseFrame?
    && (forall i :: 0 < i < |chain| ==> !chain[i].variant.BaseFrame?)
    && (forall i :: 0 <= i < |chain| - 1 ==> !chain[i].variant.EndEffector?)
  }

  /** `prevLink` of joint k: the joint before it, none for the base. */
  function PrevLink(chain: seq<Joint>, k: nat): Option<nat>
    requires k < |chain|
  {
    if k == 0 then None else Some(k - 1)
  }

  /** `nextLink` of joint k: the joint after it, none for the tail. */
  function NextLink(chain: seq<Joint>, k: nat): Option<nat>
    requires k < |chain|
  {
    if k == |chain| - 1 then None else Some(k + 1)
  }

  /**
    Appending joint `j` links it: the old tail's `nextLink` becomes `j`, `j`'s
    `prevLink` is the old tail and its `nextLink` is none; the links of every
    other joint are as they were.
   */
  lemma AppendLinks(chain: seq<Joint>, j: Joint)
    requires |chain| > 0
    ensures var c := chain + [j];
            && NextLink(c, |chain| - 1) == Some(|chain|)
            && PrevLink(c, |chain|) == Some(|chain| - 1) && NextLink(c, |chain|) == None
            && c[|chain|] == j
            && (forall k :: 0 <= k < |chain| ==> PrevLink(c, k) == PrevLink(chain, k) && c[k] == chain[k])
            && (forall k :: 0 <= k < |chain| - 1 ==> NextLink(c, k) == NextLink(chain, k))
  {
  }

  datatype IndexReason = InvalidJointNumber | ListIndexOutOfRange

  /** ValueError from a value list of the wrong length; IndexError from a bad joint number. */
  datatype ArmError = WrongValueCount | IndexError(reason: IndexReason)

  /** Python list indexing `xs[i]` for a list of length n: negative i counts from the end. */
  function ListIndex(n: nat, i: int): (r: Option<nat>)
    ensures r.Some? <==> -(n as int) <= i < n
    ensures r.Some? ==> r.value < n && (r.value as int - i) % n == 0
  {
    if 0 <= i < n then Some(i)
    else if -(n as int) <= i < 0 then Some(n + i)
    else None
  }

  /** Joint `j` after `set_joint_value(v)` if v is not None. */
  function SetIfGiven(j: Joint, v: Option<real>): Joint {
    if v.Some? then SetJointValue(j, v.value) else j
  }

  /** Joint `j` after `change_joint_value(v)` if v is not None. */
  function ChangeIfGiven(j: Joint, v: Option<real>): Joint {
    if v.Some? then ChangeJointValue(j, v.value) else j
  }

  /** The chain after `set_arm_values(values)`: entry i applies to joint i + 1. */
  function SetAll(chain: seq<Joint>, values: seq<Option<real>>): (r: seq<Joint>)
    requires |chain| == |values| + 1
    ensures |r| == |chain| && r[0] == chain[0]
    ensures forall i :: 0 < i < |chain| ==> r[i] == SetIfGiven(chain[i], values[i - 1])
  {
    [chain[0]] + seq(|values|, i requires 0 <= i < |values| => SetIfGiven(chain[i + 1], values[i]))
  }

  /** Writing joint values keeps the shape of the chain. */
  lemma SetAllKeepsShape(chain: seq<Joint>, values: seq<Option<real>>)
    requires ValidChain(chain) && |chain| == |values| + 1
    ensures ValidChain(SetAll(chain, values))
    ensures forall i :: 0 <= i < |chain| ==> SetAll(chain, values)[i].variant == chain[i].variant
  {
  }

  /**
    Joints up to k whose values are all None do not move: their cumulative
    transforms are those before `set_arm_values`.
   */
  lemma {:induction false} SetAllLeavesUntouchedPrefix(trig: Trig, chain: seq<Joint>,
                                                        values: seq<Option<real>>, k: nat)
    requires |chain| == |values| + 1 && k < |chain|
    requires forall i :: 0 <= i < k ==> values[i].None?
    ensures Forward(trig, SetAll(chain, values), k) == Forward(trig, chain, k)
  {
    var r := SetAll(chain, values);
    assert r[..k + 1] == chain[..k + 1] by {
      forall i | 0 <= i < k + 1
        ensures r[i] == chain[i]
      {
        if i > 0 {
          assert values[i - 1].None?;
        }
      }
    }
    ForwardDependsOnPrefix(trig, r, chain, k);
  }

  /** Attaching a joint at the tail leaves every earlier cumulative transform as it was. */
  lemma AppendKeepsEarlierTransforms(trig: Trig, chain: seq<Joint>, j: Joint, k: nat)
    requires k < |chain|
    ensures Forward(trig, chain + [j], k) == Forward(trig, chain, k)
  {
    assert (chain + [j])[..k + 1] == chain[..k + 1];
    ForwardDependsOnPrefix(trig, chain + [j], chain, k);
  }

  class RobotArm {
    /** `self.joints`: index 0 is the base frame, the last entry the tail. */
    var joints: seq<Joint>

    ghost predicate Valid()
      reads this
    {
      ValidChain(joints)
    }

    /** `RobotArm(coords, rotation)`: an arm holding only its base frame. */
    constructor (coords: Vec3, rotation: (real, real))
      ensures Valid()
      ensures joints == [NewBaseFrame(coords, rotation)]
    {
      joints := [NewBaseFrame(coords, rotation)];
    }

    /** `self.joints[-1]`. */
    function Tail(): Joint
      reads this
      requires Valid()
    {
      joints[|joints| - 1]
    }

    /**
      Constructs a joint of `variant` after the tail and appends it; when the
      constructor refuses (the tail is an end effector) nothing is appended.
     */
    method Attach(variant: Variant, d: real, theta: real, a: real, alpha: real)
      returns (r: Result<(), JointError>)
      requires Valid() && !variant.BaseFrame?
      modifies this
      ensures Valid()
      ensures r.Success? <==> !old(Tail()).variant.EndEffector?
      ensures r.Success? ==> joints == old(joints) + [Joint(variant, d, theta, a, alpha)]
      ensures r.Failure? ==> r.error == TypeError && joints == old(joints)
    {
      var link := NewJoint(variant, d, theta, a, alpha, Some(joints[|joints| - 1]));
      if link.Failure? {
        return Failure(link.error);
      }
      joints := joints + [link.value];
      return Success(());
    }

    /** `add_revolute`: appends a revolute joint, unless the tail is an end effector. */
    method AddRevolute(d: real, theta: real, a: real, alpha: real) returns (r: Result<(), JointError>)
      requires Valid()
      modifies this
      ensures Valid()
      ensures r.Success? <==> !old(Tail()).variant.EndEffector?
      ensures r.Success? ==> joints == old(joints) + [Joint(RevoluteJoint, d, theta, a, alpha)]
      ensures r.Failure? ==> r.error == TypeError && joints == old(joints)
    {
      r := Attach(RevoluteJoint, d, theta, a, alpha);
    }

    /** `add_prismatic`: appends a prismatic joint, unless the tail is an end effector. */
    method AddPrismatic(d: real, theta: real, a: real, alpha: real) returns (r: Result<(), JointError>)
      requires Valid()
      modifies this
      ensures Valid()
      ensures r.Success? <==> !old(Tail()).variant.EndEffector?
      ensures r.Success? ==> joints == old(joints) + [Joint(PrismaticJoint, d, theta, a, alpha)]
      ensures r.Failure? ==> r.error == TypeError && joints == old(joints)
    {
      r := Attach(PrismaticJoint, d, theta, a, alpha);
    }

    /** `add_end_effector`: appends an end effector, unless the tail already is one. */
    method AddEndEffector(d: real, theta: real, a: real, alpha: real) returns (r: Result<(), JointError>)
      requires Valid()
      modifies this
      ensures Valid()
      ensures r.Success? <==> !old(Tail()).variant.EndEffector?
      ensures r.Success? ==> joints == old(joints) + [Joint(EndEffector, d, theta, a, alpha)]
      ensures r.Failure? ==> r.error == TypeError && joints == old(joints)
    {
      r := Attach(EndEffector, d, theta, a, alpha);
    }

    /**
      `forward_kinematics(targetJoint)`: the cumulative transform of the joint
      at Python index `targetJoint` (-1, the default, is the tail). The guard
      rejects indices above the length; the length itself passes the guard
      and is then rejected by the list lookup, as are indices below -length.
     */
    function ForwardKinematics(trig: Trig, targetJoint: int): (r: Result<Mat4, ArmError>)
      reads this
      ensures targetJoint > |joints| ==> r == Failure(IndexError(InvalidJointNumber))
      ensures r.Success? <==> -|joints| <= targetJoint < |joints|
      ensures r.Success? ==> IsHomogeneous(r.value)
      ensures 0 <= targetJoint < |joints| ==> r == Success(Forward(trig, joints, targetJoint))
      ensures -|joints| <= targetJoint < 0 ==> r == Success(Forward(trig, joints, |joints| + targetJoint))
    {
      if targetJoint <= |joints| then
        match ListIndex(|joints|, targetJoint)
        case Some(k) => Success(Forward(trig, joints, k))
        case None => Failure(IndexError(ListIndexOutOfRange))
      else
        Failure(IndexError(InvalidJointNumber))
    }

    /** The default target, -1, is the tail joint's cumulative transform. */
    lemma DefaultTargetIsTail(trig: Trig)
      requires Valid()
      ensures ForwardKinematics(trig, -1) == Success(Forward(trig, joints, |joints| - 1))
    {
    }

    /**
      `set_arm_values(values)`: one value per non-base joint, else ValueError
      and no joint changes; entry i is written into joint i + 1 unless None.
     */
    method SetArmValues(values: seq<Option<real>>) returns (r: Result<bool, ArmError>)
      requires Valid()
      modifies this
      ensures Valid()
      ensures |values| != |old(joints)| - 1 ==> r == Failure(WrongValueCount) && joints == old(joints)
      ensures |values| == |old(joints)| - 1 ==> r == Success(true) && joints == SetAll(old(joints), values)
    {
      if |values| != |joints| - 1 {
        return Failure(WrongValueCount);
      }
      var i := 0;
      while i < |values|
        invariant 0 <= i <= |values| == |joints| - 1
        invariant |joints| == |old(joints)| && joints[0] == old(joints)[0]
        invariant forall k :: 0 < k <= i ==> joints[k] == SetIfGiven(old(joints)[k], values[k - 1])
        invariant forall k :: i < k < |joints| ==> joints[k] == old(joints)[k]
      {
        if values[i].Some? {
          joints := joints[i + 1 := SetJointValue(joints[i + 1], values[i].value)];
        }
        i := i + 1;
      }
      SetAllKeepsShape(old(joints), values);
      return Success(true);
    }

    /**
      `change_arm_values(deltas)`: the same length check, then each non-None
      entry i is added to joint i + 1.
     */
    method ChangeArmValues(deltas: seq<Option<real>>) returns (r: Result<bool, ArmError>)
      requires Valid()
      modifies this
      ensures Valid()
      ensures |deltas| != |old(joints)| - 1 ==> r == Failure(WrongValueCount) && joints == old(joints)
      ensures |deltas| == |old(joints)| - 1 ==> r == Success(true) && |joints| == |old(joints)|
      ensures |deltas| == |old(joints)| - 1 ==>
                joints[0] == old(joints)[0] &&
                (forall k :: 0 < k < |joints| ==> joints[k] == ChangeIfGiven(old(joints)[k], deltas[k - 1]))
    {
      if |deltas| != |joints| - 1 {
        return Failure(WrongValueCount);
      }
      var i := 0;
      while i < |deltas|
        invariant 0 <= i <= |deltas| == |joints| - 1
        invariant |joints| == |old(joints)| && joints[0] == old(joints)[0]
        invariant forall k :: 0 < k <= i ==> joints[k] == ChangeIfGiven(old(joints)[k], deltas[k - 1])
        invariant forall k :: i < k < |joints| ==> joints[k] == old(joints)[k]
        invariant Valid()
      {
        if deltas[i].Some? {
          joints := joints[i + 1 := ChangeJointValue(joints[i + 1], deltas[i].value)];
        }
        i := i + 1;
      }
      return Success(true);
    }

    /**
      `dh_matrices`: one cumulative transform per joint in chain order; the
      first is the base's own matrix and each later one extends its
      predecessor's by the joint's local matrix.
     */
    function DhMatrices(trig: Trig): (ms: seq<Mat4>)
      reads this
      ensures |ms| == |joints|
      ensures |joints| > 0 ==> ms[0] == MatrixDh(trig, joints[0])
      ensures forall i :: 0 < i < |ms| ==> ms[i] == Mul(ms[i - 1], MatrixDh(trig, joints[i]))
      ensures forall i :: 0 <= i < |ms| ==> IsHomogeneous(ms[i])
    {
      var chain := joints;
      seq(|chain|, i requires 0 <= i < |chain| => Forward(trig, chain, i))
    }

    /**
      `jointLocations`: one point per joint in chain order; the base sits at
      its anchor and every later joint at its DH offset as seen from its
      predecessor's cumulative frame.
     */
    function JointLocations(trig: Trig): (ps: seq<Vec3>)
      reads this
      requires Valid()
      ensures |ps| == |joints|
      ensures ps[0] == joints[0].variant.loc
      ensures forall i :: 0 < i < |ps| ==>
                ps[i] == Apply(Forward(trig, joints, i - 1), Translation(MatrixDh(trig, joints[i])))
    {
      var chain := joints;
      var ps := seq(|chain|, i requires 0 <= i < |chain| => JointCoordinates(trig, chain, i));
      assert forall i :: 0 < i < |ps| ==>
               ps[i] == Apply(Forward(trig, chain, i - 1), Translation(MatrixDh(trig, chain[i]))) by {
        forall i | 0 < i < |ps|
          ensures ps[i] == Apply(Forward(trig, chain, i - 1), Translation(MatrixDh(trig, chain[i])))
        {
          LocationStep(trig, chain, i);
        }
      }
      ps
    }
  }
}

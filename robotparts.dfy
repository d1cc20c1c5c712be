/**
  The joints of an arm and the Denavit-Hartenberg transforms they contribute.

  A joint is a value: its four DH parameters (d, theta, a, alpha) and its
  variant. In a chain the predecessor of joint k is joint k - 1 and its
  successor joint k + 1, so `prevLink`/`nextLink` are indices into the chain
  sequence rather than references.

  `cos` and `sin` are not given numerically: every transform takes a `Trig`
  carrying the two functions, so what is proved about transforms holds
  whatever values they take.
 */
module RobotParts {
  import opened Wrappers
  import opened Geometry

  /** The cosine and sine used to build transforms. */
  datatype Trig = Trig(cos: real -> real, sin: real -> real)

  /** cos^2 + sin^2 = 1 at every angle. */
  ghost predicate Pythagorean(trig: Trig) {
    forall x :: trig.cos(x) * trig.cos(x) + trig.sin(x) * trig.sin(x) == 1.0
  }

  /** The joint classes: the base frame carries its anchor location `loc`. */
  datatype Variant = BaseFrame(loc: Vec3) | RevoluteJoint | PrismaticJoint | EndEffector

  datatype Joint = Joint(variant: Variant, d: real, theta: real, a: real, alpha: real)

  /** The attribute names of the four DH parameters. */
  datatype Param = D | Theta | A | Alpha

  function Get(j: Joint, p: Param): real {
    match p
    case D => j.d
    case Theta => j.theta
    case A => j.a
    case Alpha => j.alpha
  }

  /** `variable_property`: the parameter a joint's actuator drives, if any. */
  function VariableProperty(v: Variant): (p: Option<Param>)
    ensures p.Some? <==> v.RevoluteJoint? || v.PrismaticJoint?
    ensures p == Some(Theta) <==> v.RevoluteJoint?
    ensures p == Some(D) <==> v.PrismaticJoint?
  {
    match v
    case RevoluteJoint => Some(Theta)
    case PrismaticJoint => Some(D)
    case _ => None
  }

  datatype JointError = ValueError | TypeError

  /** `BaseFrame(loc, rot)`: no offset, rotation (theta, alpha) = rot, anchored at loc. */
  function NewBaseFrame(loc: Vec3, rot: (real, real)): (j: Joint)
    ensures j.variant.BaseFrame? && j.variant.loc == loc
    ensures j.d == 0.0 && j.a == 0.0 && j.theta == rot.0 && j.alpha == rot.1
  {
    Joint(BaseFrame(loc), 0.0, rot.0, 0.0, rot.1)
  }

  /**
    `Joint.__init__` for a non-base joint attached after `prevLink`: anything
    that is not a joint is refused with ValueError, and a predecessor that is an
    end effector refuses the link (`addLink`) with TypeError.
   */
  function NewJoint(variant: Variant, d: real, theta: real, a: real, alpha: real,
                    prevLink: Option<Joint>): (r: Result<Joint, JointError>)
    requires !variant.BaseFrame?
    ensures prevLink.None? ==> r == Failure(ValueError)
    ensures prevLink.Some? && prevLink.value.variant.EndEffector? ==> r == Failure(TypeError)
    ensures r.Success? <==> prevLink.Some? && !prevLink.value.variant.EndEffector?
    ensures r.Success? ==> r.value.variant == variant &&
                           forall p :: Get(r.value, p) == Get(Joint(variant, d, theta, a, alpha), p)
  {
    if prevLink.None? then Failure(ValueError)
    else if prevLink.value.variant.EndEffector? then Failure(TypeError)
    else Success(Joint(variant, d, theta, a, alpha))
  }

  /**
    `set_joint_value`: writes `value` into the variable property and leaves
    every other parameter as it was; a no-op on a base frame or end effector.
   */
  function SetJointValue(j: Joint, value: real): (r: Joint)
    ensures r.variant == j.variant
    ensures forall p :: Get(r, p) == if VariableProperty(j.variant) == Some(p) then value else Get(j, p)
  {
    match j.variant
    case RevoluteJoint => j.(theta := value)
    case PrismaticJoint => j.(d := value)
    case _ => j
  }

  /** `change_joint_value`: adds `delta` to the variable property; a no-op where there is none. */
  function ChangeJointValue(j: Joint, delta: real): (r: Joint)
    ensures r.variant == j.variant
    ensures forall p :: Get(r, p) == if VariableProperty(j.variant) == Some(p) then Get(j, p) + delta else Get(j, p)
  {
    match VariableProperty(j.variant)
    case None => j
    case Some(p) => SetJointValue(j, Get(j, p) + delta)
  }

  /** A joint without a variable property is left exactly as it is by both setters. */
  lemma FixedJointsIgnoreValues(j: Joint, value: real)
    requires VariableProperty(j.variant).None?
    ensures SetJointValue(j, value) == j && ChangeJointValue(j, value) == j
  {
  }

  /** Setting twice keeps only the second value; a change after a set adds to it. */
  lemma {:induction false} SetThenChange(j: Joint, value: real, delta: real)
    ensures SetJointValue(SetJointValue(j, value), delta) == SetJointValue(j, delta)
    ensures VariableProperty(j.variant).Some? ==>
              ChangeJointValue(SetJointValue(j, value), delta) == SetJointValue(j, value + delta)
  {
  }

  /** `make_dh_matrix(a, al, d, th)`: the standard DH link transform. */
  function MakeDhMatrix(trig: Trig, a: real, al: real, d: real, th: real): (m: Mat4)
    ensures IsHomogeneous(m)
  {
    var c, s, ca, sa := trig.cos(th), trig.sin(th), trig.cos(al), trig.sin(al);
    Rows([c, -s * ca, s * sa, a * c],
         [s, c * ca, -c * sa, a * s],
         [0.0, sa, ca, d],
         BottomRow)
  }

  /** `BaseFrame.matrix_dh`: the DH rotation for (theta, alpha), translated to `loc`. */
  function BaseMatrix(trig: Trig, loc: Vec3, theta: real, alpha: real): (m: Mat4)
    ensures IsHomogeneous(m) && Translation(m) == loc
  {
    var c, s, ca, sa := trig.cos(theta), trig.sin(theta), trig.cos(alpha), trig.sin(alpha);
    Rows([c, -s * ca, s * sa, loc.x],
         [s, c * ca, -c * sa, loc.y],
         [0.0, sa, ca, loc.z],
         BottomRow)
  }

  /** A DH link sits at (a cos theta, a sin theta, d) in its predecessor's frame. */
  lemma DhOffset(trig: Trig, a: real, al: real, d: real, th: real)
    ensures Translation(MakeDhMatrix(trig, a, al, d, th)) == Vec3(a * trig.cos(th), a * trig.sin(th), d)
  {
  }

  /** The base frame rotates exactly as a DH link with the same theta and alpha would. */
  lemma BaseRotationIsDh(trig: Trig, loc: Vec3, a: real, d: real, theta: real, alpha: real)
    ensures forall i, j :: 0 <= i < 3 && 0 <= j < 3 ==>
              BaseMatrix(trig, loc, theta, alpha)[i][j] == MakeDhMatrix(trig, a, alpha, d, theta)[i][j]
  {
  }

  /** `matrix_dh`, dispatched on the joint's variant. */
  function MatrixDh(trig: Trig, j: Joint): (m: Mat4)
    ensures IsHomogeneous(m)
    ensures j.variant.BaseFrame? ==> Translation(m) == j.variant.loc
  {
    match j.variant
    case BaseFrame(loc) => BaseMatrix(trig, loc, j.theta, j.alpha)
    case _ => MakeDhMatrix(trig, j.a, j.alpha, j.d, j.theta)
  }

  /** The six column products of a DH rotation block, for unit (c, s) and (ca, sa). */
  lemma UnitColumns(c: real, s: real, ca: real, sa: real)
    requires c * c + s * s == 1.0 && ca * ca + sa * sa == 1.0
    ensures c * c + s * s + 0.0 * 0.0 == 1.0
    ensures (-s * ca) * (-s * ca) + (c * ca) * (c * ca) + sa * sa == 1.0
    ensures (s * sa) * (s * sa) + (-c * sa) * (-c * sa) + ca * ca == 1.0
    ensures c * (-s * ca) + s * (c * ca) + 0.0 * sa == 0.0
    ensures c * (s * sa) + s * (-c * sa) + 0.0 * ca == 0.0
    ensures (-s * ca) * (s * sa) + (c * ca) * (-c * sa) + sa * ca == 0.0
  {
    assert (-s * ca) * (-s * ca) + (c * ca) * (c * ca) == (c * c + s * s) * (ca * ca);
    assert (s * sa) * (s * sa) + (-c * sa) * (-c * sa) == (c * c + s * s) * (sa * sa);
    assert (-s * ca) * (s * sa) + (c * ca) * (-c * sa) == -(c * c + s * s) * (ca * sa);
  }

  /** `m` has the rotation block of (theta, alpha), whatever its translation. */
  predicate HasDhRotation(trig: Trig, m: Mat4, theta: real, alpha: real) {
    var c, s, ca, sa := trig.cos(theta), trig.sin(theta), trig.cos(alpha), trig.sin(alpha);
    && m[0][0] == c && m[0][1] == -s * ca && m[0][2] == s * sa
    && m[1][0] == s && m[1][1] == c * ca && m[1][2] == -c * sa
    && m[2][0] == 0.0 && m[2][1] == sa && m[2][2] == ca
  }

  /** With cos^2 + sin^2 = 1 every DH rotation block is orthonormal. */
  lemma {:induction false} DhRotationOrthonormal(trig: Trig, m: Mat4, theta: real, alpha: real)
    requires Pythagorean(trig) && HasDhRotation(trig, m, theta, alpha)
    ensures OrthonormalRotation(m)
  {
    var c, s, ca, sa := trig.cos(theta), trig.sin(theta), trig.cos(alpha), trig.sin(alpha);
    assert c * c + s * s == 1.0;
    assert ca * ca + sa * sa == 1.0;
    UnitColumns(c, s, ca, sa);
    assert ColumnDot(m, 0, 0) == c * c + s * s + 0.0 * 0.0;
    assert ColumnDot(m, 1, 1) == (-s * ca) * (-s * ca) + (c * ca) * (c * ca) + sa * sa;
    assert ColumnDot(m, 2, 2) == (s * sa) * (s * sa) + (-c * sa) * (-c * sa) + ca * ca;
    assert ColumnDot(m, 0, 1) == c * (-s * ca) + s * (c * ca) + 0.0 * sa;
    assert ColumnDot(m, 0, 2) == c * (s * sa) + s * (-c * sa) + 0.0 * ca;
    assert ColumnDot(m, 1, 2) == (-s * ca) * (s * sa) + (c * ca) * (-c * sa) + sa * ca;
  }

  /** Every joint's `matrix_dh`, base or link, has the DH rotation of its own theta and alpha. */
  lemma MatrixDhRotation(trig: Trig, j: Joint)
    ensures HasDhRotation(trig, MatrixDh(trig, j), j.theta, j.alpha)
  {
  }

  /** `matrix_dh_inv`: [R^T, -R^T t; 0 0 0 1] built from `matrix_dh`. */
  function MatrixDhInv(trig: Trig, j: Joint): (m: Mat4)
    ensures IsHomogeneous(m)
  {
    InvertRigid(MatrixDh(trig, j))
  }

  /** With cos^2 + sin^2 = 1, `matrix_dh_inv` undoes `matrix_dh` for every joint. */
  lemma {:induction false} MatrixDhInvUndoes(trig: Trig, j: Joint)
    requires Pythagorean(trig)
    ensures Mul(MatrixDhInv(trig, j), MatrixDh(trig, j)) == Identity
  {
    var m := MatrixDh(trig, j);
    MatrixDhRotation(trig, j);
    DhRotationOrthonormal(trig, m, j.theta, j.alpha);
    InvertRigidUndoes(m);
  }


  /**
    `evaluate_forwards` of joint k of `chain`: joint 0 (the base) gives its
    own matrix; any other joint left-multiplies its predecessor's cumulative
    transform onto its own matrix.
   */
  function Forward(trig: Trig, chain: seq<Joint>, k: nat): (m: Mat4)
    requires k < |chain|
    ensures IsHomogeneous(m)
  {
    if k == 0 then MatrixDh(trig, chain[0])
    else Mul(Forward(trig, chain, k - 1), MatrixDh(trig, chain[k]))
  }

  /** `jointCoordinates`: the translation column of the cumulative transform. */
  function JointCoordinates(trig: Trig, chain: seq<Joint>, k: nat): (p: Vec3)
    requires k < |chain|
    ensures p == Apply(Forward(trig, chain, k), Vec3(0.0, 0.0, 0.0))
  {
    Translation(Forward(trig, chain, k))
  }

  /** `evaluate_inverse` of joint k: its own inverse matrix times its successor's result. */
  function EvaluateInverse(trig: Trig, chain: seq<Joint>, k: nat): (m: Mat4)
    requires k < |chain|
    ensures IsHomogeneous(m)
    decreases |chain| - k
  {
    if k == |chain| - 1 then MatrixDhInv(trig, chain[k])
    else Mul(MatrixDhInv(trig, chain[k]), EvaluateInverse(trig, chain, k + 1))
  }

  /**
    The local matrices of joints k..n-1 multiplied in reverse chain order,
    M[n-1] @ ... @ M[k]: the transform that `evaluate_inverse` undoes.
   */
  function Backward(trig: Trig, chain: seq<Joint>, k: nat): (m: Mat4)
    requires k < |chain|
    decreases |chain| - k
  {
    if k == |chain| - 1 then MatrixDh(trig, chain[k])
    else Mul(Backward(trig, chain, k + 1), MatrixDh(trig, chain[k]))
  }

  /**
    With cos^2 + sin^2 = 1, `evaluate_inverse` of joint k is a left inverse of
    the reverse-order product of the local matrices from joint k to the tail
    (the inverses are multiplied in chain order, so it is this product, and not
    the forward one, that they undo).
   */
  lemma {:induction false} EvaluateInverseUndoes(trig: Trig, chain: seq<Joint>, k: nat)
    requires Pythagorean(trig) && k < |chain|
    ensures Mul(EvaluateInverse(trig, chain, k), Backward(trig, chain, k)) == Identity
    decreases |chain| - k
  {
    var inv, m := MatrixDhInv(trig, chain[k]), MatrixDh(trig, chain[k]);
    MatrixDhInvUndoes(trig, chain[k]);
    if k < |chain| - 1 {
      var rest, back := EvaluateInverse(trig, chain, k + 1), Backward(trig, chain, k + 1);
      EvaluateInverseUndoes(trig, chain, k + 1);
      calc {
        Mul(Mul(inv, rest), Mul(back, m));
        { MulAssoc(inv, rest, Mul(back, m)); }
        Mul(inv, Mul(rest, Mul(back, m)));
        { MulAssoc(rest, back, m); }
        Mul(inv, Mul(Mul(rest, back), m));
        { MulIdentity(m); }
        Mul(inv, m);
      }
    }
  }

  /** The local matrices of a chain, in chain order. */
  function Locals(trig: Trig, chain: seq<Joint>): (ms: seq<Mat4>)
    ensures |ms| == |chain|
    ensures forall i :: 0 <= i < |chain| ==> ms[i] == MatrixDh(trig, chain[i])
  {
    seq(|chain|, i requires 0 <= i < |chain| => MatrixDh(trig, chain[i]))
  }

  /** The local matrices of a chain with one more joint are those of the chain and one more. */
  lemma LocalsSnoc(trig: Trig, chain: seq<Joint>, j: Joint)
    ensures Locals(trig, chain + [j]) == Locals(trig, chain) + [MatrixDh(trig, j)]
  {
    var l, r := Locals(trig, chain + [j]), Locals(trig, chain) + [MatrixDh(trig, j)];
    assert |l| == |r|;
    forall i | 0 <= i < |l|
      ensures l[i] == r[i]
    {
      if i < |chain| {
        assert (chain + [j])[i] == chain[i];
      }
    }
  }

  /** The product ms[0] @ ms[1] @ ... @ ms[n-1], bracketed from the right. */
  function Product(ms: seq<Mat4>): Mat4
    requires |ms| > 0
  {
    if |ms| == 1 then ms[0] else Mul(ms[0], Product(ms[1..]))
  }

  /** Multiplying one more matrix on the right of a product. */
  lemma {:induction false} ProductSnoc(ms: seq<Mat4>, m: Mat4)
    requires |ms| > 0
    ensures Product(ms + [m]) == Mul(Product(ms), m)
  {
    if |ms| == 1 {
      assert (ms + [m])[1..] == [m];
    } else {
      assert (ms + [m])[1..] == ms[1..] + [m];
      ProductSnoc(ms[1..], m);
      MulAssoc(ms[0], Product(ms[1..]), m);
    }
  }

  /** The cumulative transform of joint k is the ordered product of the local matrices of joints 0..k. */
  lemma {:induction false} ForwardIsProduct(trig: Trig, chain: seq<Joint>, k: nat)
    requires k < |chain|
    ensures Forward(trig, chain, k) == Product(Locals(trig, chain[..k + 1]))
  {
    if k == 0 {
      assert Locals(trig, chain[..1]) == [MatrixDh(trig, chain[0])];
    } else {
      var prefix, m := Locals(trig, chain[..k]), MatrixDh(trig, chain[k]);
      assert chain[..k + 1] == chain[..k] + [chain[k]];
      calc {
        Forward(trig, chain, k);
        Mul(Forward(trig, chain, k - 1), m);
        { ForwardIsProduct(trig, chain, k - 1); }
        Mul(Product(prefix), m);
        { ProductSnoc(prefix, m); }
        Product(prefix + [m]);
        { LocalsSnoc(trig, chain[..k], chain[k]); }
        Product(Locals(trig, chain[..k + 1]));
      }
    }
  }

  /** The cumulative transform of joint k depends only on joints 0..k. */
  lemma {:induction false} ForwardDependsOnPrefix(trig: Trig, c1: seq<Joint>, c2: seq<Joint>, k: nat)
    requires k < |c1| && k < |c2| && c1[..k + 1] == c2[..k + 1]
    ensures Forward(trig, c1, k) == Forward(trig, c2, k)
  {
    assert c1[k] == c1[..k + 1][k] == c2[..k + 1][k] == c2[k];
    if k > 0 {
      assert c1[..k] == c1[..k + 1][..k] == c2[..k + 1][..k] == c2[..k];
      ForwardDependsOnPrefix(trig, c1, c2, k - 1);
    }
  }

  /** A joint sits at its DH offset as seen from its predecessor's cumulative frame. */
  lemma LocationStep(trig: Trig, chain: seq<Joint>, k: nat)
    requires 0 < k < |chain|
    ensures JointCoordinates(trig, chain, k) ==
            Apply(Forward(trig, chain, k - 1), Translation(MatrixDh(trig, chain[k])))
  {
    TranslationOfMul(Forward(trig, chain, k - 1), MatrixDh(trig, chain[k]));
  }

  /** The base frame of a chain sits at its anchor location. */
  lemma BaseAtLoc(trig: Trig, chain: seq<Joint>)
    requires |chain| > 0 && chain[0].variant.BaseFrame?
    ensures JointCoordinates(trig, chain, 0) == chain[0].variant.loc
  {
  }

  /** A freshly built base frame sits at `loc`. */
  lemma NewBaseFrameAtLoc(trig: Trig, loc: Vec3, rot: (real, real))
    ensures NewBaseFrame(loc, rot).variant == BaseFrame(loc)
    ensures VariableProperty(NewBaseFrame(loc, rot).variant).None?
    ensures JointCoordinates(trig, [NewBaseFrame(loc, rot)], 0) == loc
  {
  }
}

# robotarm — a Dafny model

`robotarm` simulates serial robot arms in a 3D room. An arm is a chain of
joints. The chain starts at a base frame anchored at a point of the room.
Revolute and prismatic joints follow, and an end effector may close it.
Each joint carries four Denavit-Hartenberg (DH) parameters `d`, `theta`,
`a` and `alpha`. A revolute joint is driven through `theta` and a prismatic
joint through `d`. The pose of joint k is the product of the local DH
transforms of joints 0..k (forward kinematics). A room keeps the arms by
name, with the control scheme registered for each, and can trace the path of
one joint over an animation. The elbow example sorts a list of time-tagged
waypoints by time and steers an arm along a scipy spline fitted through
them. It also defines `points_to_route`, a linear interpolator between the
two waypoints that bracket a requested time; the example never calls it, and
it is the route the model covers.

The model has five modules, plus `Wrappers`:

- `Geometry` (geometry.dfy): 3-vectors and 4x4 real matrices. It covers the
  part of numpy the arm uses: the `@` product, the translation column, and
  the rigid-body inverse.
- `RobotParts` (robotparts.dfy): joints as values, their setters, their DH
  matrices and the recursive forward and inverse evaluations over a chain.
- `Arm` (robotarm.dfy): the class `RobotArm`. Its `joints` sequence is grown
  at the tail and rewritten in place by loops.
- `Rooms` (room.dfy): the class `Room`. It has the two name-keyed maps and
  the three trace paths.
- `SimpleElbow` (simple_elbow.dfy): waypoints, the stable time sort, the
  column converter and `points_to_route`.

`Wrappers` (wrappers.dfy) holds the `Option` and `Result` types used for the
Python exceptions. A Python exception is a `Failure` carrying an error value
of the module that raises it:

- `RobotParts.JointError`: `ValueError` and `TypeError` of the joint
  constructors.
- `Arm.ArmError`: `WrongValueCount` is the `ValueError` of
  `set_arm_values` and `change_arm_values`; `IndexError(reason)` is the
  `IndexError` of `forward_kinematics`, with the reason telling the guard
  from the list lookup.
- `SimpleElbow.RouteError`: `StopIteration` from the `next(...)` searches.

`cos` and `sin` are not computed. Every transform takes a `Trig` value
holding the two functions, so the structural facts hold for any angles. The
facts about inverses assume only `cos^2 + sin^2 = 1` (`Pythagorean`).

A joint's `prevLink` and `nextLink` become the indices k - 1 and k + 1 in
the arm's `joints` sequence (`Arm.PrevLink`, `Arm.NextLink`).

Edge cases of the code that the model keeps as written:

- `points_to_route` does not clamp a time outside the waypoints' span to
  the nearest end point. Its `next(...)` searches raise StopIteration, and
  the model returns `Failure(StopIteration)`.
- For waypoints with equal time tags, `points_to_route` returns the position
  of the later one in sorted order, because the last point is found by a
  reversed scan.
- The guard of `forward_kinematics` is `targetJoint <= len(joints)`, so it
  admits `len(joints)` itself. That index then fails in the list lookup. The
  model keeps both IndexErrors apart (`InvalidJointNumber` from the guard,
  `ListIndexOutOfRange` from the lookup).

## Model

| member | source | states |
|---|---|---|
| RobotParts.NewJoint | robotarm/robotparts.py:6-16 | a joint built after no predecessor is a ValueError; after an end effector it is a TypeError, raised by the end effector's `addLink` (robotarm/robotparts.py:117-118); otherwise it succeeds with exactly the given variant and d, theta, a, alpha |
| Arm.AppendLinks | robotarm/robotparts.py:14-16 | appending a joint makes it the old tail's nextLink, gives it the old tail as prevLink and no nextLink, and leaves every other joint and link as it was |
| RobotParts.SetJointValue | robotarm/robotparts.py:18-19 | keeps the variant and writes the value into the variable property only (theta for revolute, d for prismatic), every other parameter unchanged |
| RobotParts.ChangeJointValue | robotarm/robotparts.py:21-23 | keeps the variant and adds delta to the variable property only, every other parameter unchanged |
| RobotParts.VariableProperty | robotarm/robotparts.py:81-131 | exactly revolute and prismatic joints have a variable property: theta for a revolute joint (line 127), d for a prismatic one (line 131); the base frame (line 81) and the end effector (line 115) have none |
| RobotParts.FixedJointsIgnoreValues | robotarm/robotparts.py:108-124 | on a base frame or end effector both setters return the joint unchanged |
| RobotParts.NewBaseFrame | robotarm/robotparts.py:83-95 | a base frame is anchored at loc with d = a = 0, theta = rot[0] and alpha = rot[1] |
| RobotParts.SetThenChange | robotarm/robotparts.py:18-23 | a second set overrides the first; a change after a set equals setting the sum |
| RobotParts.MakeDhMatrix | robotarm/robotparts.py:71-78 | every DH link matrix has bottom row [0, 0, 0, 1] |
| RobotParts.DhOffset | robotarm/robotparts.py:72-78 | a DH link's translation is (a cos theta, a sin theta, d) |
| RobotParts.BaseMatrix | robotarm/robotparts.py:97-106 | the base frame matrix has bottom row [0, 0, 0, 1] and translation column loc |
| RobotParts.BaseRotationIsDh | robotarm/robotparts.py:98-106 | the base frame's rotation block is the DH rotation of its theta and alpha |
| RobotParts.MatrixDh | robotarm/robotparts.py:40-46 | every joint's matrix is homogeneous, and a base frame's translation is its loc |
| RobotParts.MatrixDhRotation | robotarm/robotparts.py:40-46 | every joint's matrix has the DH rotation block of its own theta and alpha |
| RobotParts.DhRotationOrthonormal | robotarm/robotparts.py:72-78 | with cos^2 + sin^2 = 1 a DH rotation block has orthonormal columns |
| Geometry.Mul | robotarm/robotparts.py:34-38 | numpy's `@` on 4x4 matrices: the product of two homogeneous matrices is homogeneous |
| Geometry.InvertRigid | robotarm/robotparts.py:49-53 | the rigid inverse is homogeneous and maps the matrix's translation back to the origin |
| Geometry.InvertRigidUndoes | robotarm/robotparts.py:49-53 | for a homogeneous matrix with orthonormal rotation block, [R^T, -R^T t; 0 0 0 1] is a left inverse |
| RobotParts.MatrixDhInv | robotarm/robotparts.py:48-61 | the inverse DH matrix of every joint is homogeneous |
| RobotParts.MatrixDhInvUndoes | robotarm/robotparts.py:48-61 | with cos^2 + sin^2 = 1, matrix_dh_inv @ matrix_dh is the identity for every joint |
| RobotParts.Forward | robotarm/robotparts.py:34-38 | the cumulative transform is homogeneous; the base gives its own matrix, any other joint its predecessor's transform left-multiplied onto its own matrix |
| RobotParts.ForwardIsProduct | robotarm/robotparts.py:34-38 | the cumulative transform of joint k is the ordered product of the local matrices of joints 0..k |
| Geometry.MulAssoc | robotarm/robotparts.py:34-38 | the matrix product is associative, so the bracketing of the chain product does not matter |
| RobotParts.ForwardDependsOnPrefix | robotarm/robotparts.py:34-38 | the cumulative transform of joint k depends only on joints 0..k |
| RobotParts.EvaluateInverse | robotarm/robotparts.py:28-32 | the result of evaluate_inverse is homogeneous |
| RobotParts.EvaluateInverseUndoes | robotarm/robotparts.py:28-32 | with cos^2 + sin^2 = 1, evaluate_inverse of joint k times the local matrices of joints n-1 down to k is the identity |
| Geometry.TranslationOfMul | robotarm/robotparts.py:63-65 | the translation of a product is the left factor applied to the right factor's translation |
| RobotParts.JointCoordinates | robotarm/robotparts.py:63-65 | a joint's coordinates are the image of its own frame's origin under its cumulative transform |
| RobotParts.LocationStep | robotarm/robotparts.py:63-65 | joint k sits at its own DH offset mapped through the cumulative frame of joint k - 1 |
| RobotParts.BaseAtLoc | robotarm/robotparts.py:63-65 | the base joint's coordinates are its loc |
| RobotParts.NewBaseFrameAtLoc | robotarm/robotparts.py:83-95 | a new base frame has no variable property and a base-only chain sits at loc |
| Arm.RobotArm.constructor | robotarm/robotarm.py:9-10 | a new arm holds exactly one joint, the base frame built from coords and rotation |
| Arm.RobotArm.Attach | robotarm/robotarm.py:12-24 | succeeds iff the tail is not an end effector; on success exactly one joint is appended and all earlier joints are kept; on failure TypeError and no change |
| Arm.RobotArm.AddRevolute | robotarm/robotarm.py:12-15 | appends a revolute joint with the given parameters, or TypeError with no change after an end effector |
| Arm.RobotArm.AddPrismatic | robotarm/robotarm.py:17-20 | appends a prismatic joint with the given parameters, or TypeError with no change after an end effector |
| Arm.RobotArm.AddEndEffector | robotarm/robotarm.py:22-24 | appends an end effector with the given parameters, or TypeError with no change after an end effector |
| Arm.AppendKeepsEarlierTransforms | robotarm/robotarm.py:12-24 | appending a joint leaves the cumulative transform of every earlier joint unchanged |
| Arm.ListIndex | robotarm/robotarm.py:32-33 | Python list indexing: defined exactly for -n <= i < n, and then picks the entry congruent to i modulo n |
| Arm.RobotArm.ForwardKinematics | robotarm/robotarm.py:26-35 | above the length it is an IndexError from the guard; it succeeds iff -n <= target < n, with the cumulative transform of that joint (negative targets counted from the tail) |
| Arm.RobotArm.DefaultTargetIsTail | robotarm/robotarm.py:26-33 | the default target -1 gives the tail joint's cumulative transform |
| Arm.RobotArm.SetArmValues | robotarm/robotarm.py:37-51 | a value list whose length is not the number of non-base joints is a ValueError with no joint changed; otherwise it returns True and joint i + 1 is set from entry i unless it is None, the base untouched |
| Arm.SetAll | robotarm/robotarm.py:47-51 | the base is kept and joint i + 1 is set from entry i unless it is None |
| Arm.SetAllKeepsShape | robotarm/robotarm.py:47-51 | writing values keeps every joint's variant and the chain's shape |
| Arm.SetAllLeavesUntouchedPrefix | robotarm/robotarm.py:47-51 | joints up to k whose entries are all None keep their cumulative transforms |
| Arm.RobotArm.ChangeArmValues | robotarm/robotarm.py:53-67 | the same length check with no change on error; otherwise it returns True, keeps the base, and adds entry i to joint i + 1 unless it is None |
| Arm.RobotArm.DhMatrices | robotarm/robotarm.py:69-71 | one homogeneous transform per joint in chain order: the base's own matrix, then each predecessor's extended by the joint's local matrix |
| Arm.RobotArm.JointLocations | robotarm/robotarm.py:73-78 | one point per joint in chain order: the base at its loc, every later joint at its DH offset in its predecessor's cumulative frame |
| Rooms.Room.constructor | robotarm/room.py:10-21 | a new room has no robots, no controls, empty trace paths and the given trace settings |
| Rooms.Room.AddRobot | robotarm/room.py:23-31 | a new name gets a fresh arm at coords and the placeholder control, and the arm is returned; a known name gives None and changes nothing; both maps keep the same names |
| Rooms.Room.AddControls | robotarm/room.py:33-42 | a registered name has only its control entry replaced; an unknown name changes nothing; both maps keep the same names |
| Rooms.Room.ResetTraces | robotarm/room.py:54-58 | at time 0 the three trace paths are emptied; at any other time they are kept; nothing else changes |
| Rooms.TracedLocation | robotarm/room.py:86-88 | the traced joint's location is the translation of that joint's cumulative transform, picked by Python indexing (the default -1 is the tail); an index outside the arm is an IndexError |
| Rooms.Room.TraceRobot | robotarm/room.py:84-88 | when tracing, the traced location is appended to the three paths, or the IndexError is returned with nothing appended; when not tracing nothing changes; the robots and controls are untouched |
| SimpleElbow.SortByTime | examples/simple_elbow.py:17 | the sorted points have non-decreasing times and are a permutation of the input |
| SimpleElbow.InsertPermutes | examples/simple_elbow.py:17 | inserting a point into a sorted sequence adds exactly that point and loses nothing |
| SimpleElbow.SortIsStable | examples/simple_elbow.py:17 | points with the same time keep their relative order |
| SimpleElbow.PointsConverter | examples/simple_elbow.py:19-24 | the four columns each have one entry per point |
| SimpleElbow.ConverterRoundTrip | examples/simple_elbow.py:19-24 | entry i of the columns is point i's x, y, z and time: reading the columns back gives the points, and converting equal-length columns read back gives the columns |
| SimpleElbow.LastAtOrBefore | examples/simple_elbow.py:31 | finds the last point at or before t, or reports that every point is after t |
| SimpleElbow.FirstAtOrAfter | examples/simple_elbow.py:32 | finds the first point at or after t, or reports that every point is before t |
| SimpleElbow.Lerp | examples/simple_elbow.py:41 | the interpolation at fraction 0 is the first point and at fraction 1 the second |
| SimpleElbow.PointsToRoute | examples/simple_elbow.py:30-41 | a position exists iff some point is at or before t and some point is at or after t |
| SimpleElbow.RouteSpan | examples/simple_elbow.py:31-32 | on sorted points a position exists exactly for the first time <= t <= the last time: no clamping |
| SimpleElbow.RouteBrackets | examples/simple_elbow.py:31-35 | on sorted points within the span, the last point is at or before t and the next at or after t, so the interval is never negative |
| SimpleElbow.RouteAtWaypoint | examples/simple_elbow.py:31-40 | at the time of the last point carrying that time, the route is exactly at that point |
| SimpleElbow.RouteAtUniqueWaypoint | examples/simple_elbow.py:30-40 | at the time of a point whose time no other point shares, the route is exactly at that point |
| SimpleElbow.DuplicateTimeTakesLater | examples/simple_elbow.py:31-40 | with two points at the same time the route at that time is at the second one |
| SimpleElbow.RouteIsPiecewiseLinear | examples/simple_elbow.py:30-41 | within the span the route is either at a point (zero interval or exact hit) or the linear interpolation between two consecutive points |
| SimpleElbow.RouteStaysOnSegment | examples/simple_elbow.py:41 | every coordinate of the position lies between the same coordinate of the last and the next point |
| SimpleElbow.TwoPointEnds | examples/simple_elbow.py:30-40 | for points (0,0,0) at time 0 and (10,0,0) at time 10 the route is at each point at its own time |
| SimpleElbow.TwoPointNoClamp | examples/simple_elbow.py:31-32 | for the same two points, times -5 and 15 give StopIteration instead of an end point |

## Left out

- `simple_inverse` and its angle formulas: they rely on floating-point
  `atan2`, `acos` and `sqrt`, which have no counterpart over the reals here.
- The scipy spline fit and evaluation (`splprep`, `splev`) and the control
  that uses them: a foreign library.
- All drawing: the matplotlib figure and axes, `draw_room`, the plotting and
  labelling in `update`, and `animate`. The example's `main` is left out
  too. The room's `parent_fig` and `shape` exist only for drawing, so they
  are not part of the model.
- The call of each robot's stored control in `update`: it runs a
  caller-supplied function, and the `[None]` placeholder is not callable.
  The control value is kept opaque (type parameter `C`).
- The loop of `update` over the robots: only its time-0 reset
  (`Rooms.Room.ResetTraces`) and its per-robot tracing step
  (`Rooms.Room.TraceRobot`) are modelled. Dictionary iteration order is not.
- The numeric values of `cos` and `sin`: they are parameters. Only
  `cos^2 + sin^2 = 1` is assumed, and only where an inverse is proved.
- `link_length`: it needs `sqrt`.
- Floating-point rounding: all arithmetic is over exact reals.
- Joint objects and aliasing: joints are values in the arm's sequence. A
  setter returns the updated joint, and the arm writes it back in place. Two
  arms sharing one joint object cannot be expressed.
- Attaching a joint to an object that is not a joint at all (Python's
  `isinstance` check) is modelled only as a missing predecessor (`None`).
- The in-place `points.sort`: it is modelled as a function returning the
  sorted sequence (stable, like Python's sort), not as a mutation of the
  list.
- Default arguments: every parameter is passed explicitly.
- The printed messages of `add_robot` and `add_controls`.
- `setup.py`: packaging only.

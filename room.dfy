/**
  A room holding named robot arms, the control scheme registered for each,
  and the path traced by one chosen joint over an animation.
 */
module Rooms {
  import opened Wrappers
  import opened Geometry
  import opened RobotParts
  import opened Arm

  /**
    An entry of `robot_controls`: the `[None]` placeholder a robot gets when it
    is added, or the control scheme the caller supplied later.
   */
  datatype ControlEntry<C> = Placeholder | Scheme(control: C)

  /**
    `jointLocations[traceJoint]` of an arm with joints `chain`: the location of
    the joint at that Python index, or IndexError when there is none.
   */
  function TracedLocation(trig: Trig, chain: seq<Joint>, traceJoint: int): (r: Result<Vec3, ArmError>)
    requires ValidChain(chain)
    ensures r.Failure? <==> ListIndex(|chain|, traceJoint).None?
    ensures r.Failure? ==> r.error == IndexError(ListIndexOutOfRange)
    ensures r.Success? ==> r.value == Translation(Forward(trig, chain, ListIndex(|chain|, traceJoint).value))
    ensures traceJoint == -1 ==> r == Success(JointCoordinates(trig, chain, |chain| - 1))
  {
    match ListIndex(|chain|, traceJoint)
    case None => Failure(IndexError(ListIndexOutOfRange))
    case Some(k) =>
      assert traceJoint == -1 ==> k == |chain| - 1;
      Success(JointCoordinates(trig, chain, k))
  }

  class Room<C> {
    /** `active_robots`: the arm registered under each name. */
    var activeRobots: map<string, RobotArm>
    /** `robot_controls`: the control entry for each registered name. */
    var robotControls: map<string, ControlEntry<C>>
    var trace: bool
    var traceJoint: int
    var tracePathX: seq<real>
    var tracePathY: seq<real>
    var tracePathZ: seq<real>

    /** Both dictionaries have the same names, and every registered arm has a well-formed chain. */
    ghost predicate Valid()
      reads this, activeRobots.Values
    {
      && activeRobots.Keys == robotControls.Keys
      && forall name :: name in activeRobots ==> activeRobots[name].Valid()
    }

    /** The trace settings and paths are as they were before the call. */
    twostate predicate TracesUnchanged()
      reads this
    {
      && tracePathX == old(tracePathX) && tracePathY == old(tracePathY) && tracePathZ == old(tracePathZ)
      && trace == old(trace) && traceJoint == old(traceJoint)
    }

    /** `Room(...)`: no robots, no controls, empty trace paths. */
    constructor (trace: bool, traceJoint: int)
      ensures Valid()
      ensures activeRobots == map[] && robotControls == map[]
      ensures this.trace == trace && this.traceJoint == traceJoint
      ensures tracePathX == [] && tracePathY == [] && tracePathZ == []
    {
      activeRobots, robotControls := map[], map[];
      this.trace, this.traceJoint := trace, traceJoint;
      tracePathX, tracePathY, tracePathZ := [], [], [];
    }

    /**
      `add_robot(coords, rotation, name)`: a new name gets a fresh arm at
      `coords` and the placeholder control, and the arm is returned; a name
      already in the room changes nothing and gives None.
     */
    method AddRobot(coords: Vec3, rotation: (real, real), name: string) returns (r: Option<RobotArm>)
      requires Valid()
      modifies this
      ensures Valid() && TracesUnchanged()
      ensures name !in old(activeRobots) ==>
                && r.Some? && fresh(r.value)
                && r.value.joints == [NewBaseFrame(coords, rotation)]
                && activeRobots == old(activeRobots)[name := r.value]
                && robotControls == old(robotControls)[name := Placeholder]
      ensures name in old(activeRobots) ==>
                && r.None?
                && activeRobots == old(activeRobots)
                && robotControls == old(robotControls)
    {
      if name !in activeRobots {
        var robot := new RobotArm(coords, rotation);
        activeRobots := activeRobots[name := robot];
        robotControls := robotControls[name := Placeholder];
        return Some(robot);
      }
      return None;
    }

    /**
      `add_controls(name, controls)`: replaces the control entry of a
      registered name; an unknown name changes nothing.
     */
    method AddControls(name: string, controls: C)
      requires Valid()
      modifies this
      ensures Valid() && TracesUnchanged()
      ensures activeRobots == old(activeRobots)
      ensures name in activeRobots ==> robotControls == old(robotControls)[name := Scheme(controls)]
      ensures name !in activeRobots ==> robotControls == old(robotControls)
    {
      if name in activeRobots {
        robotControls := robotControls[name := Scheme(controls)];
      }
    }

    /** The start of `update(time)`: at time 0 the three trace paths are emptied. */
    method ResetTraces(time: real)
      requires Valid()
      modifies this
      ensures Valid()
      ensures activeRobots == old(activeRobots) && robotControls == old(robotControls)
      ensures trace == old(trace) && traceJoint == old(traceJoint)
      ensures time == 0.0 ==> tracePathX == [] && tracePathY == [] && tracePathZ == []
      ensures time != 0.0 ==>
                tracePathX == old(tracePathX) && tracePathY == old(tracePathY) && tracePathZ == old(tracePathZ)
    {
      if time == 0.0 {
        tracePathX, tracePathY, tracePathZ := [], [], [];
      }
    }

    /**
      The tracing step of `update` for one robot: when tracing, the location
      of joint `traceJoint` (a Python index) is appended to the trace paths;
      an index outside the arm's joints is an IndexError and nothing is appended.
     */
    method TraceRobot(trig: Trig, robot: RobotArm) returns (r: Result<(), ArmError>)
      requires Valid() && robot.Valid()
      modifies this
      ensures Valid()
      ensures activeRobots == old(activeRobots) && robotControls == old(robotControls)
      ensures trace == old(trace) && traceJoint == old(traceJoint)
      ensures !trace ==> r.Success? && TracesUnchanged()
      ensures trace ==> match TracedLocation(trig, robot.joints, traceJoint)
                        case Failure(e) => r == Failure(e) && TracesUnchanged()
                        case Success(p) =>
                          && r.Success?
                          && tracePathX == old(tracePathX) + [p.x]
                          && tracePathY == old(tracePathY) + [p.y]
                          && tracePathZ == old(tracePathZ) + [p.z]
    {
      if !trace {
        return Success(());
      }
      var traced := TracedLocation(trig, robot.joints, traceJoint);
      if traced.Failure? {
        return Failure(traced.error);
      }
      var p := traced.value;
      tracePathX, tracePathY, tracePathZ := tracePathX + [p.x], tracePathY + [p.y], tracePathZ + [p.z];
      r := Success(());
    }
  }
}

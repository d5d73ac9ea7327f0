/** The warehouse entities: packages and the robot state machine that navigates to a
    package, carries it to its belt, or heads for a resting location. */
module Models {
  import opened Prelude
  import opened Problems
  import opened Util

  /** A package waiting on its rack (`location`) to be carried onto a belt (`destination`). */
  datatype Package = Package(location: Location, destination: Location)

  /** The Python exceptions the robot and the scheduler can raise: a missing dictionary key,
      `min` of an empty list or `list.remove` of an absent value, and an attribute looked up
      on None. */
  datatype Error = KeyError | ValueError | AttributeError

  /** The three stop conditions a navigation step checks before moving. */
  datatype Stop = StopPickup | StopDelivery | StopRest

  /** What one step does: the robot afterwards and what `step` returns (the picked-up
      package, None, or the exception raised; an exception leaves the robot unchanged). */
  datatype Stepped = Stepped(next: RobotState, result: Result<Option<Package>, Error>)

  /** The fields of a `Robot`, as a value. */
  datatype RobotState = RobotState(
    location: Location,
    package: Option<Package>,
    rest: Option<Location>,
    pickupPolicy: Policy,
    deliveryPolicy: Policy,
    restPolicy: Policy,
    isPickingUp: bool,
    isDelivering: bool)
  {
    /** The two navigation flags are never both set, and either one comes with a package. */
    predicate Valid() {
      !(isPickingUp && isDelivering) && ((isPickingUp || isDelivering) ==> package.Some?)
    }

    /** `is_free`: not carrying (or on the way to) a package. */
    predicate IsFree() {
      package.None?
    }

    /** `is_going_to_rest`. */
    predicate IsGoingToRest() {
      rest.Some?
    }

    /** The stop closures, evaluated on the current and the next location. */
    function Stops(stop: Stop, cur: Location, next: Location): (r: Result<bool, Error>)
      ensures stop == StopDelivery ==>
        (r.Failure? <==> next !in deliveryPolicy) &&
        (r.Success? ==> (r.value <==> deliveryPolicy[next].None?))
      ensures stop == StopPickup ==>
        (r.Failure? <==> package.None?) &&
        (r.Success? ==> (r.value <==> next == package.value.location))
      ensures stop == StopRest ==> r == Success(rest == Some(cur))
    {
      match stop
      case StopDelivery =>
        if next in deliveryPolicy then Success(deliveryPolicy[next].None?) else Failure(KeyError)
      case StopPickup =>
        if package.Some? then Success(next == package.value.location) else Failure(AttributeError)
      case StopRest =>
        Success(rest == Some(cur))
    }

    /** `policy_step`: a missing location raises; a None action does nothing; otherwise the
        robot moves one cell unless the stop condition holds, in which case it stays and the
        current mode ends (picking up turns into delivering and returns the package;
        delivering drops the package; resting drops the rest target and its policy). */
    function PolicyStep(policy: Policy, stop: Stop): Stepped {
      if location !in policy then Stepped(this, Failure(KeyError))
      else if policy[location].None? then Stepped(this, Success(None))
      else
        var next := Apply(policy[location].value, location);
        match Stops(stop, location, next)
        case Failure(e) => Stepped(this, Failure(e))
        case Success(true) =>
          if isPickingUp then
            Stepped(this.(isPickingUp := false, isDelivering := true), Success(package))
          else if isDelivering then
            Stepped(this.(isDelivering := false, package := None), Success(None))
          else if IsGoingToRest() then
            Stepped(this.(rest := None, restPolicy := map[]), Success(None))
          else Stepped(this, Success(None))
        case Success(false) => Stepped(this.(location := next), Success(None))
    }

    /** `step`: follows the policy of the first active mode among picking up, delivering and
        resting; a robot in none of them is left alone. */
    function Step(): Stepped {
      if isPickingUp then PolicyStep(pickupPolicy, StopPickup)
      else if isDelivering then PolicyStep(deliveryPolicy, StopDelivery)
      else if IsGoingToRest() then PolicyStep(restPolicy, StopRest)
      else Stepped(this, Success(None))
    }

    /** `prepare`. */
    function Prepare(p: Package, pickup: Policy, delivery: Policy): RobotState {
      this.(package := Some(p), rest := None, deliveryPolicy := delivery, pickupPolicy := pickup,
            restPolicy := map[], isPickingUp := true, isDelivering := false)
    }

    /** `set_rest`. */
    function SetRest(r: Location, policy: Policy): RobotState {
      this.(isPickingUp := false, isDelivering := false, rest := Some(r), restPolicy := policy)
    }
  }

  /** A robot as `Robot(location)` creates it: no package, no rest target, empty policies and
      both flags clear. */
  function NewRobot(location: Location): RobotState {
    RobotState(location, None, None, map[], map[], map[], false, false)
  }

  // ---------------------------------------------------------------------------------
  // The robot object.

  class Robot {
    var location: Location
    var package: Option<Package>
    var rest: Option<Location>
    var pickupPolicy: Policy
    var deliveryPolicy: Policy
    var restPolicy: Policy
    var isPickingUp: bool
    var isDelivering: bool

    /** The robot's fields as a value. */
    function State(): RobotState
      reads this
    {
      RobotState(location, package, rest, pickupPolicy, deliveryPolicy, restPolicy, isPickingUp, isDelivering)
    }

    /** `Robot(location)` and `__post_init__`. */
    constructor (location: Location)
      ensures State() == NewRobot(location)
    {
      this.location := location;
      package := None;
      rest := None;
      pickupPolicy := map[];
      deliveryPolicy := map[];
      restPolicy := map[];
      isPickingUp := false;
      isDelivering := false;
    }

    /** `is_free`. */
    function IsFree(): (b: bool)
      reads this
      ensures b <==> State().IsFree()
    {
      package.None?
    }

    /** `policy_step`. */
    method PolicyStep(policy: Policy, stop: Stop) returns (result: Result<Option<Package>, Error>)
      modifies this
      ensures State() == old(State()).PolicyStep(policy, stop).next
      ensures result == old(State()).PolicyStep(policy, stop).result
    {
      if location !in policy {
        return Failure(KeyError);
      }
      var action := policy[location];
      if action.Some? {
        var next := Apply(action.value, location);
        var stops := State().Stops(stop, location, next);
        if stops.Failure? {
          return Failure(stops.error);
        }
        if stops.value {
          if isPickingUp {
            isPickingUp := false;
            isDelivering := true;
            return Success(package);
          } else if isDelivering {
            isDelivering := false;
            package := None;
          } else if rest.Some? {
            rest := None;
            restPolicy := map[];
          }
        } else {
          location := next;
        }
      }
      return Success(None);
    }

    /** `step`. */
    method Step() returns (result: Result<Option<Package>, Error>)
      modifies this
      ensures State() == old(State()).Step().next
      ensures result == old(State()).Step().result
    {
      if isPickingUp {
        result := PolicyStep(pickupPolicy, StopPickup);
      } else if isDelivering {
        result := PolicyStep(deliveryPolicy, StopDelivery);
      } else if rest.Some? {
        result := PolicyStep(restPolicy, StopRest);
      } else {
        result := Success(None);
      }
    }

    /** `prepare`. */
    method Prepare(p: Package, pickup: Policy, delivery: Policy)
      modifies this
      ensures State() == old(State()).Prepare(p, pickup, delivery)
    {
      package := Some(p);
      rest := None;
      deliveryPolicy := delivery;
      pickupPolicy := pickup;
      restPolicy := map[];
      isPickingUp := true;
      isDelivering := false;
    }

    /** `set_rest`. */
    method SetRest(r: Location, policy: Policy)
      modifies this
      ensures State() == old(State()).SetRest(r, policy)
    {
      isPickingUp := false;
      isDelivering := false;
      rest := Some(r);
      restPolicy := policy;
    }
  }

  // ---------------------------------------------------------------------------------
  // Properties of the state machine.

  /** `prepare` stores the package and both policies, drops any rest target and its
      policy, and starts picking up; the robot is then neither free nor resting. */
  lemma PrepareStartsPickup(s: RobotState, p: Package, pickup: Policy, delivery: Policy)
    ensures var r := s.Prepare(p, pickup, delivery);
      r.Valid() && r.package == Some(p) && r.pickupPolicy == pickup && r.deliveryPolicy == delivery &&
      r.rest.None? && r.restPolicy == map[] && r.isPickingUp && !r.isDelivering &&
      !r.IsFree() && !r.IsGoingToRest() && r.location == s.location
  {
  }

  /** `set_rest` stores the target and its policy, clears both flags and keeps the package
      and the location. */
  lemma SetRestKeepsPackage(s: RobotState, rest: Location, policy: Policy)
    ensures var r := s.SetRest(rest, policy);
      r.Valid() && r.rest == Some(rest) && r.restPolicy == policy && r.IsGoingToRest() &&
      !r.isPickingUp && !r.isDelivering && r.package == s.package && r.location == s.location &&
      r.pickupPolicy == s.pickupPolicy && r.deliveryPolicy == s.deliveryPolicy
  {
  }

  /** A robot in none of the three modes is unchanged by `step`, which returns None. */
  lemma IdleStepIsNoOp(s: RobotState)
    requires !s.isPickingUp && !s.isDelivering && !s.IsGoingToRest()
    ensures s.Step() == Stepped(s, Success(None))
  {
  }

  /** The policy of the mode `step` follows, and the stop condition it checks. */
  function ActivePolicy(s: RobotState): (Policy, Stop)
    requires s.isPickingUp || s.isDelivering || s.IsGoingToRest()
  {
    if s.isPickingUp then (s.pickupPolicy, StopPickup)
    else if s.isDelivering then (s.deliveryPolicy, StopDelivery)
    else (s.restPolicy, StopRest)
  }

  /** A location the active policy does not know raises a KeyError and changes nothing;
      a None action changes nothing and returns None. */
  lemma NoActionNoChange(s: RobotState)
    requires s.isPickingUp || s.isDelivering || s.IsGoingToRest()
    ensures var (policy, _) := ActivePolicy(s);
      (s.location !in policy ==> s.Step() == Stepped(s, Failure(KeyError))) &&
      (s.location in policy && policy[s.location].None? ==> s.Step() == Stepped(s, Success(None)))
  {
  }

  /** When an action exists and the stop condition is false, `step` moves exactly one cell in
      that direction, changes nothing else and returns None. */
  lemma MovesOneCell(s: RobotState)
    requires s.isPickingUp || s.isDelivering || s.IsGoingToRest()
    requires var (policy, stop) := ActivePolicy(s);
      s.location in policy && policy[s.location].Some? &&
      s.Stops(stop, s.location, Apply(policy[s.location].value, s.location)) == Success(false)
    ensures var (policy, _) := ActivePolicy(s);
      var a := policy[s.location].value;
      s.Step() == Stepped(s.(location := Apply(a, s.location)), Success(None)) &&
      IsNeighbour(s.location, s.Step().next.location)
  {
    var (policy, _) := ActivePolicy(s);
    ApplyMovesOneCell(policy[s.location].value, s.location);
  }

  /** `step` returns a package exactly when picking up completes: the robot is picking up, its
      policy points at the package's rack as the next cell, and the robot stays put, switches
      to delivering and hands back its own package. */
  lemma PickupCompletes(s: RobotState, p: Package)
    requires s.Valid()
    ensures s.Step().result == Success(Some(p)) <==>
      s.isPickingUp && s.package == Some(p) &&
      s.location in s.pickupPolicy && s.pickupPolicy[s.location].Some? &&
      Apply(s.pickupPolicy[s.location].value, s.location) == p.location
    ensures s.Step().result == Success(Some(p)) ==>
      s.Step().next == s.(isPickingUp := false, isDelivering := true)
  {
  }

  /** Delivery completes when the delivery policy has no action at the next cell: the robot
      stays put, stops delivering and drops the package (it is free again); nothing is
      returned. A next cell missing from the delivery policy raises a KeyError. */
  lemma DeliveryCompletes(s: RobotState)
    requires !s.isPickingUp && s.isDelivering
    requires s.location in s.deliveryPolicy && s.deliveryPolicy[s.location].Some?
    ensures var next := Apply(s.deliveryPolicy[s.location].value, s.location);
      (next !in s.deliveryPolicy ==> s.Step() == Stepped(s, Failure(KeyError))) &&
      (next in s.deliveryPolicy && s.deliveryPolicy[next].None? ==>
        s.Step() == Stepped(s.(isDelivering := false, package := None), Success(None)) &&
        s.Step().next.IsFree())
  {
  }

  /** The flags stay exclusive, and a flag still comes with a package, after `step`. */
  lemma StepKeepsValid(s: RobotState)
    requires s.Valid()
    ensures s.Step().next.Valid()
  {
  }

  /** A step either leaves the robot where it is or moves it to a neighbouring cell; when it
      moves, nothing but the location changes. */
  lemma StepIsLocal(s: RobotState)
    ensures var n := s.Step().next;
      n.location == s.location || (IsNeighbour(s.location, n.location) && n == s.(location := n.location))
  {
    if s.isPickingUp || s.isDelivering || s.IsGoingToRest() {
      var (policy, _) := ActivePolicy(s);
      if s.location in policy && policy[s.location].Some? {
        ApplyMovesOneCell(policy[s.location].value, s.location);
      }
    }
  }

  /** The only step that changes the package drops it, at the end of a delivery. */
  lemma StepPackage(s: RobotState)
    requires s.Valid()
    ensures var n := s.Step().next;
      n.package == s.package || (s.isDelivering && n.package.None? && n.IsFree())
  {
  }

  /** With a rest policy that has no action at the rest cell itself (true of every reversed
      single-seed tree, see `Search.ReversedPolicyStepsBack`), the rest stop condition
      `cur == rest` is never evaluated at the rest cell, so `step` never clears the target. */
  lemma RestIsNeverCleared(s: RobotState)
    requires !s.isPickingUp && !s.isDelivering && s.IsGoingToRest()
    requires s.rest.value in s.restPolicy && s.restPolicy[s.rest.value].None?
    ensures s.Step().next.rest == s.rest
  {
  }
}

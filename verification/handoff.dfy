/**
 * What one frame of HandleTravelers does to one tracked traveler, as a
 * function on a snapshot of the traveler: either the traveler crossed the
 * portal's plane and is teleported and handed to the linked portal, or it
 * stayed and its clone and stored offset follow it.
 */
module Handoff {
  import opened Geometry

  /** The calls a traveler receives from the portals, in order. */
  datatype TravelerEvent =
    | EnteredThreshold
    | ExitedThreshold
    | Teleported(fromPortal: Frame, toPortal: Frame, position: Vec3, rotation: Quat)

  /**
   * A traveler's state as the portals see it: its pose, the offset stored at
   * the last update, the pose of its graphics clone and the calls it received.
   */
  datatype TravelerState = TravelerState(
    pose: Pose,
    previousOffset: Vec3,
    clonePose: Pose,
    log: seq<TravelerEvent>)

  /** The number of teleports in a log. */
  function Teleports(log: seq<TravelerEvent>): nat {
    if log == [] then 0
    else Teleports(log[..|log| - 1]) + (if log[|log| - 1].Teleported? then 1 else 0)
  }

  lemma {:induction false} TeleportsAppend(a: seq<TravelerEvent>, b: seq<TravelerEvent>)
    ensures Teleports(a + b) == Teleports(a) + Teleports(b)
    decreases |b|
  {
    if b == [] {
      assert a + b == a;
    } else {
      var n := |b| - 1;
      assert (a + b)[..|a + b| - 1] == a + b[..n];
      assert (a + b)[|a + b| - 1] == b[n];
      TeleportsAppend(a, b[..n]);
    }
  }

  /**
   * OnTravelerEnterPortal on a traveler the portal does not track yet: the
   * traveler is told it entered and its offset from the portal is stored, so
   * that it cannot count as crossing before it moves.
   */
  function Enter(s: TravelerState, portal: Frame): (r: TravelerState)
    ensures r.pose == s.pose && r.clonePose == s.clonePose
    ensures r.log == s.log + [EnteredThreshold]
    ensures r.previousOffset == Sub(s.pose.position, portal.position)
    ensures !Crosses(portal, r.pose.position, r.previousOffset)
  {
    s.(log := s.log + [EnteredThreshold], previousOffset := Sub(s.pose.position, portal.position))
  }

  /**
   * One iteration of HandleTravelers for the traveler in state s, tracked by the
   * portal at `here` whose linked portal is at `there`; `trackedThere` says
   * whether the linked portal already tracks it.
   */
  function Handle(s: TravelerState, here: Frame, there: Frame, carry: Relay, trackedThere: bool): (r: TravelerState)
    ensures Crosses(here, s.pose.position, s.previousOffset) ==>
              && r.pose == carry(here, there, s.pose)
              && r.clonePose == s.pose
              && Teleports(r.log) == Teleports(s.log) + 1
    ensures Crosses(here, s.pose.position, s.previousOffset) && !trackedThere ==>
              && r.log == s.log + [Teleported(here, there, r.pose.position, r.pose.rotation), EnteredThreshold]
              && r.previousOffset == Sub(r.pose.position, there.position)
              && !Crosses(there, r.pose.position, r.previousOffset)
    ensures Crosses(here, s.pose.position, s.previousOffset) && trackedThere ==>
              r.log == s.log + [Teleported(here, there, r.pose.position, r.pose.rotation)]
              && r.previousOffset == s.previousOffset
    ensures !Crosses(here, s.pose.position, s.previousOffset) ==>
              && r.pose == s.pose
              && r.log == s.log
              && r.clonePose == carry(here, there, s.pose)
              && r.previousOffset == Sub(s.pose.position, here.position)
              && !Crosses(here, r.pose.position, r.previousOffset)
  {
    var m := carry(here, there, s.pose);
    if Crosses(here, s.pose.position, s.previousOffset) then
      var moved := s.(pose := m, log := s.log + [Teleported(here, there, m.position, m.rotation)], clonePose := s.pose);
      TeleportsAppend(s.log, [Teleported(here, there, m.position, m.rotation)]);
      assert Teleports([Teleported(here, there, m.position, m.rotation)]) == 1;
      if trackedThere then moved
      else
        var entered := Enter(moved, there);
        TeleportsAppend(moved.log, [EnteredThreshold]);
        assert Teleports([EnteredThreshold]) == 0;
        entered
    else
      s.(clonePose := m, previousOffset := Sub(s.pose.position, here.position))
  }

  /** The crossing decision of HandleTravelers for each traveler in a list. */
  function CrossingFlags(states: seq<TravelerState>, here: Frame): (flags: seq<bool>)
    ensures |flags| == |states|
  {
    if states == [] then []
    else
      var n := |states| - 1;
      CrossingFlags(states[..n], here) + [Crosses(here, states[n].pose.position, states[n].previousOffset)]
  }

  /** Flag j is the crossing test on state j. */
  lemma {:induction false} CrossingFlagAt(states: seq<TravelerState>, here: Frame, j: nat)
    requires j < |states|
    ensures CrossingFlags(states, here)[j] == Crosses(here, states[j].pose.position, states[j].previousOffset)
    decreases |states|
  {
    var n := |states| - 1;
    if j < n {
      CrossingFlagAt(states[..n], here, j);
    }
  }

  /**
   * Handle applied to each state of a list, state j belonging to traveler
   * travelers[j] and `there` tracking the travelers in trackedThere.
   */
  function Outcomes<T(==)>(states: seq<TravelerState>, travelers: seq<T>, trackedThere: seq<T>,
                           here: Frame, there: Frame, carry: Relay): (r: seq<TravelerState>)
    requires |travelers| == |states|
    ensures |r| == |states|
  {
    if states == [] then []
    else
      var n := |states| - 1;
      Outcomes(states[..n], travelers[..n], trackedThere, here, there, carry)
      + [Handle(states[n], here, there, carry, travelers[n] in trackedThere)]
  }

  lemma {:induction false} OutcomesAt<T>(states: seq<TravelerState>, travelers: seq<T>, trackedThere: seq<T>,
                                         here: Frame, there: Frame, carry: Relay, j: nat)
    requires |travelers| == |states| && j < |states|
    ensures Outcomes(states, travelers, trackedThere, here, there, carry)[j]
            == Handle(states[j], here, there, carry, travelers[j] in trackedThere)
    decreases |states|
  {
    var n := |states| - 1;
    if j < n {
      OutcomesAt(states[..n], travelers[..n], trackedThere, here, there, carry, j);
    }
  }
}

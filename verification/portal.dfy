/**
 * The portal component and the objects it changes in place: the travelers it
 * tracks, its screen and the linked portal's screen, and its view texture.
 */
module Portals {
  import opened Geometry
  import opened Tracking
  import opened Handoff
  import opened Schedule
  import opened TrackingWalk

  /** A render texture. Release frees its GPU memory; the object stays. */
  class Texture {
    const width: int
    const height: int
    var released: bool

    constructor (width: int, height: int)
      ensures this.width == width && this.height == height && !released
    {
      this.width := width;
      this.height := height;
      released := false;
    }

    method Release()
      modifies this
      ensures released
    {
      released := true;
    }
  }

  /**
   * A portal's screen: the mesh renderer's shadow casting mode, and the
   * displayMask and main texture of its material.
   */
  class Screen {
    var shadowCasting: ShadowCastingMode
    var displayMask: int
    var mainTexture: Texture?

    constructor ()
      ensures shadowCasting == On && displayMask == 0 && mainTexture == null
    {
      shadowCasting := On;
      displayMask := 0;
      mainTexture := null;
    }
  }

  /**
   * A body that can pass through portals: its transform, the offset from the
   * portal stored at the last update, the transform of its graphics clone, and
   * the calls it received from the portals.
   */
  class Traveler {
    var pose: Pose
    var previousOffset: Vec3
    var clonePose: Pose
    var log: seq<TravelerEvent>

    constructor (pose: Pose)
      ensures State() == TravelerState(pose, Origin, pose, [])
    {
      this.pose := pose;
      previousOffset := Origin;
      clonePose := pose;
      log := [];
    }

    function State(): TravelerState
      reads this
    {
      TravelerState(pose, previousOffset, clonePose, log)
    }

    method EnterPortalThreshold()
      modifies this
      ensures State() == old(State()).(log := old(log) + [EnteredThreshold])
    {
      log := log + [EnteredThreshold];
    }

    method ExitPortalThreshold()
      modifies this
      ensures State() == old(State()).(log := old(log) + [ExitedThreshold])
    {
      log := log + [ExitedThreshold];
    }

    /** The base teleport: move to the given pose, recording the call. */
    method Teleport(fromPortal: Frame, toPortal: Frame, pos: Vec3, rot: Quat)
      modifies this
      ensures State() == old(State()).(pose := Pose(pos, rot), log := old(log) + [Teleported(fromPortal, toPortal, pos, rot)])
    {
      pose := Pose(pos, rot);
      log := log + [Teleported(fromPortal, toPortal, pos, rot)];
    }
  }

  /** The states of a list of travelers, in order. */
  ghost function States(s: seq<Traveler>): (r: seq<TravelerState>)
    reads set t | t in s
    ensures |r| == |s|
  {
    if s == [] then [] else [s[0].State()] + States(s[1..])
  }

  /** Entry j of States(s) is the state of traveler j. */
  lemma {:induction false} StatesAt(s: seq<Traveler>, j: nat)
    requires j < |s|
    ensures States(s)[j] == s[j].State()
  {
    if j > 0 {
      StatesAt(s[1..], j - 1);
    }
  }

  class Portal {
    var linked: Portal?
    var frame: Frame
    var screen: Screen
    var recursionLimit: nat
    var tracked: seq<Traveler>
    var viewTexture: Texture?
    var camPose: Pose
    var camTarget: Texture?
    var renderLog: seq<RenderStep>

    /** Awake: an empty tracking list; the link is set up afterwards. */
    constructor (frame: Frame, screen: Screen)
      ensures this.frame == frame && this.screen == screen
      ensures linked == null && recursionLimit == 5 && tracked == []
      ensures viewTexture == null && camTarget == null && renderLog == []
    {
      linked := null;
      this.frame := frame;
      this.screen := screen;
      recursionLimit := 5;
      tracked := [];
      viewTexture := null;
      camPose := DefaultPose;
      camTarget := null;
      renderLog := [];
    }

    /** The tracking list never holds a traveler twice. */
    ghost predicate Valid()
      reads this
    {
      NoDup(tracked)
    }

    method OnTravelerEnterPortal(traveler: Traveler)
      requires Valid()
      modifies this`tracked, traveler
      ensures Valid()
      ensures tracked == AddIfAbsent(old(tracked), traveler)
      ensures traveler.State() == if traveler in old(tracked) then old(traveler.State())
                                  else Enter(old(traveler.State()), frame)
    {
      if traveler !in tracked {
        traveler.EnterPortalThreshold();
        traveler.previousOffset := Sub(traveler.pose.position, frame.position);
        AppendFresh(tracked, traveler);
        tracked := tracked + [traveler];
      }
    }

    /** `traveler` is the collider's PortalTraveler component, null when it has none. */
    method OnTriggerEnter(traveler: Traveler?)
      requires Valid()
      modifies this`tracked, traveler
      ensures Valid()
      ensures traveler == null ==> tracked == old(tracked)
      ensures traveler != null ==>
                && tracked == AddIfAbsent(old(tracked), traveler)
                && traveler.State() == if traveler in old(tracked) then old(traveler.State())
                                       else Enter(old(traveler.State()), frame)
    {
      if traveler != null {
        OnTravelerEnterPortal(traveler);
      }
    }

    /** `traveler` is the collider's PortalTraveler component, null when it has none. */
    method OnTriggerExit(traveler: Traveler?)
      requires Valid()
      modifies this`tracked, traveler
      ensures Valid()
      ensures traveler != null && traveler in old(tracked) ==>
                && tracked == RemoveFirst<Traveler>(old(tracked), traveler)
                && traveler !in tracked
                && traveler.State() == old(traveler.State()).(log := old(traveler.log) + [ExitedThreshold])
      ensures traveler == null || traveler !in old(tracked) ==>
                tracked == old(tracked) && (traveler != null ==> traveler.State() == old(traveler.State()))
    {
      if traveler != null && traveler in tracked {
        traveler.ExitPortalThreshold();
        RemoveFirstNoDup<Traveler>(tracked, traveler);
        tracked := RemoveFirst<Traveler>(tracked, traveler);
      }
    }

    /**
     * The body of HandleTravelers' loop for one traveler: teleport it and hand
     * it to the linked portal if its side of the plane changed, otherwise move
     * its clone and store its current offset. Reports whether it crossed.
     */
    method HandleTraveler(traveler: Traveler, carry: Relay) returns (crossed: bool)
      requires linked != null && linked != this && linked.Valid()
      modifies traveler, linked`tracked
      ensures linked.Valid()
      ensures crossed == old(Crosses(frame, traveler.pose.position, traveler.previousOffset))
      ensures traveler.State()
              == Handle(old(traveler.State()), frame, linked.frame, carry, old(traveler in linked.tracked))
      ensures linked.tracked == if crossed then AddIfAbsent(old(linked.tracked), traveler) else old(linked.tracked)
    {
      var m := carry(frame, linked.frame, traveler.pose);
      var offsetFromPortal := Sub(traveler.pose.position, frame.position);
      var portalSide := Sign(Dot(offsetFromPortal, frame.forward));
      var portalSideOld := Sign(Dot(traveler.previousOffset, frame.forward));
      crossed := portalSide != portalSideOld;
      if crossed {
        var positionOld := traveler.pose.position;
        var rotOld := traveler.pose.rotation;
        traveler.Teleport(frame, linked.frame, m.position, m.rotation);
        traveler.clonePose := Pose(positionOld, rotOld);
        linked.OnTravelerEnterPortal(traveler);
      } else {
        traveler.clonePose := m;
        traveler.previousOffset := offsetFromPortal;
      }
    }

    /**
     * Where HandleTravelers' loop stands after it has handled the first k of the
     * travelers T0 it started with: S0 were their states then, M their crossing
     * flags and L0 the linked portal's list. The list and the index are those
     * of Walking, traveler j < k is in its handled state, the others untouched.
     */
    ghost predicate Walked(T0: seq<Traveler>, S0: seq<TravelerState>, M: seq<bool>, L0: seq<Traveler>,
                           carry: Relay, k: nat, i: int)
      reads this, linked, set t | t in T0
    {
      && linked != null && linked != this && linked.Valid()
      && k <= |T0| == |S0| && M == CrossingFlags(S0, frame) && NoDup(T0)
      && tracked == Walking(T0, M, L0, k).list && i == Walking(T0, M, L0, k).index
      && linked.tracked == Walking(T0, M, L0, k).handed
      && (forall j {:trigger T0[j].State()} :: k <= j < |T0| ==> T0[j].State() == S0[j])
      && (forall j {:trigger T0[j].State()} :: 0 <= j < k ==>
            T0[j].State() == Outcomes(S0, T0, L0, frame, linked.frame, carry)[j])
    }

    /**
     * One pass of HandleTravelers' loop: handles tracked[i] and, if it crossed,
     * removes it from the list. Returns the index of the next traveler.
     */
    method HandleAt(i: int, carry: Relay, ghost T0: seq<Traveler>, ghost S0: seq<TravelerState>,
                    ghost M: seq<bool>, ghost L0: seq<Traveler>, ghost k: nat) returns (next: int)
      requires Walked(T0, S0, M, L0, carry, k, i) && k < |T0|
      modifies this`tracked, linked`tracked, T0[k]
      ensures Walked(T0, S0, M, L0, carry, k + 1, next)
    {
      WalkingNext(T0, M, L0, k);
      var traveler := tracked[i];
      CrossingFlagAt(S0, frame, k);
      forall j | 0 <= j < |T0| && j != k ensures T0[j] != traveler {
        DistinctAt(T0, j, k);
      }
      var crossed := HandleTraveler(traveler, carry);
      assert crossed == M[k];
      OutcomesAt(S0, T0, L0, frame, linked.frame, carry, k);
      next := i;
      if crossed {
        tracked := tracked[..i] + tracked[i + 1..];
        next := next - 1;
      }
      next := next + 1;
    }

    /** Before the first pass, nothing is handled and the list is the one the walk starts from. */
    lemma WalkStarts(carry: Relay)
      requires Valid() && linked != null && linked != this && linked.Valid()
      ensures Walked(tracked, States(tracked), CrossingFlags(States(tracked), frame), linked.tracked, carry, 0, 0)
    {
      var T0, S0 := tracked, States(tracked);
      forall j | 0 <= j < |T0| ensures T0[j].State() == S0[j] {
        StatesAt(T0, j);
      }
    }

    /**
     * After the last pass, the list holds the travelers that did not cross, the
     * linked portal's list gained those that did, and every traveler is handled.
     */
    lemma WalkEnds(T0: seq<Traveler>, S0: seq<TravelerState>, M: seq<bool>, L0: seq<Traveler>, carry: Relay, i: int)
      requires Walked(T0, S0, M, L0, carry, |T0|, i)
      ensures tracked == Select(T0, M, false) && NoDup(tracked)
      ensures linked.tracked == AddAll(L0, Select(T0, M, true))
      ensures forall j :: 0 <= j < |T0| ==> T0[j].State() == Handle(S0[j], frame, linked.frame, carry, T0[j] in L0)
      ensures forall j :: 0 <= j < |T0| ==> (T0[j] in tracked <==> !M[j]) && (M[j] ==> T0[j] in linked.tracked)
    {
      WalkingDone(T0, M, L0);
      forall j | 0 <= j < |T0| ensures T0[j].State() == Handle(S0[j], frame, linked.frame, carry, T0[j] in L0) {
        OutcomesAt(S0, T0, L0, frame, linked.frame, carry, j);
      }
    }

    /**
     * LateUpdate: walks the tracked list once, removing in place every
     * traveler that crossed and was handed to the linked portal.
     */
    method HandleTravelers(carry: Relay)
      requires Valid() && linked != null && linked != this && linked.Valid()
      modifies this`tracked, linked`tracked, set t | t in tracked
      ensures Valid() && linked.Valid()
      ensures tracked == Select(old(tracked), CrossingFlags(old(States(tracked)), frame), false)
      ensures linked.tracked
              == AddAll(old(linked.tracked), Select(old(tracked), CrossingFlags(old(States(tracked)), frame), true))
      ensures forall j :: 0 <= j < |old(tracked)| ==>
                old(tracked)[j].State()
                == Handle(old(States(tracked))[j], frame, linked.frame, carry, old(tracked[j] in linked.tracked))
      ensures forall j :: 0 <= j < |old(tracked)| ==>
                && (old(tracked)[j] in tracked <==> !CrossingFlags(old(States(tracked)), frame)[j])
                && (CrossingFlags(old(States(tracked)), frame)[j] ==> old(tracked)[j] in linked.tracked)
    {
      ghost var T0 := tracked;
      ghost var S0 := States(tracked);
      ghost var M := CrossingFlags(S0, frame);
      ghost var L0 := linked.tracked;
      WalkStarts(carry);
      ghost var k := 0;
      var i := 0;
      while i < |tracked|
        invariant k <= |T0| && Walked(T0, S0, M, L0, carry, k, i)
        decreases |T0| - k
      {
        i := HandleAt(i, carry, T0, S0, M, L0, k);
        k := k + 1;
      }
      WalkEnds(T0, S0, M, L0, carry, i);
    }

    /** The view texture exists and has the screen's size. */
    ghost predicate TextureFits(screenWidth: int, screenHeight: int)
      reads this, viewTexture
    {
      viewTexture != null && viewTexture.width == screenWidth && viewTexture.height == screenHeight
    }

    /**
     * Keeps one render texture of the screen's size: when it is missing or its
     * size differs, the old one is released and a new one becomes the portal
     * camera's target and the linked screen's main texture; otherwise nothing
     * changes, so a second call with the same screen size does nothing.
     */
    method CreateViewTexture(screenWidth: int, screenHeight: int)
      requires linked != null
      modifies this`viewTexture, this`camTarget, linked.screen`mainTexture, viewTexture
      ensures TextureFits(screenWidth, screenHeight)
      ensures old(TextureFits(screenWidth, screenHeight)) ==>
                && viewTexture == old(viewTexture) && viewTexture.released == old(viewTexture.released)
                && camTarget == old(camTarget) && linked.screen.mainTexture == old(linked.screen.mainTexture)
      ensures !old(TextureFits(screenWidth, screenHeight)) ==>
                && fresh(viewTexture) && !viewTexture.released
                && camTarget == viewTexture && linked.screen.mainTexture == viewTexture
                && (old(viewTexture) != null ==> old(viewTexture).released)
    {
      if viewTexture == null || viewTexture.width != screenWidth || viewTexture.height != screenHeight {
        if viewTexture != null {
          viewTexture.Release();
        }
        viewTexture := new Texture(screenWidth, screenHeight);
        camTarget := viewTexture;
        linked.screen.mainTexture := viewTexture;
      }
    }

    /**
     * Everything Render does after the schedule loop: hides this screen, lowers
     * the linked screen's displayMask, places the portal camera at each slot in
     * slot order and renders, raising the mask to 1 right after slot
     * startIndex, and shows the screen again.
     */
    method RenderSlots(positions: array<Vec3>, rotations: array<Quat>, startIndex: nat, ghost slots: seq<Pose>)
      requires linked != null
      requires positions.Length == rotations.Length == recursionLimit == |slots|
      requires forall j {:trigger positions[j]} :: 0 <= j < |slots| ==> Pose(positions[j], rotations[j]) == slots[j]
      modifies this`camPose, this`renderLog, screen`shadowCasting, linked.screen`displayMask
      ensures renderLog == old(renderLog) + RenderSequence(slots, startIndex)
      ensures screen.shadowCasting == On
      ensures linked.screen.displayMask == if startIndex < |slots| then 1 else 0
      ensures camPose == if slots == [] then old(camPose) else slots[|slots| - 1]
    {
      screen.shadowCasting := ShadowsOnly;
      renderLog := renderLog + [ShadowCastingSet(ShadowsOnly)];
      linked.screen.displayMask := 0;
      renderLog := renderLog + [DisplayMaskSet(0)];
      ghost var log0 := renderLog;

      var i := 0;
      while i < recursionLimit
        invariant 0 <= i <= recursionLimit
        invariant screen.shadowCasting == ShadowsOnly
        invariant renderLog == log0 + Passes(slots, startIndex, i)
        invariant linked.screen.displayMask == if startIndex < i then 1 else 0
        invariant camPose == if i == 0 then old(camPose) else slots[i - 1]
      {
        camPose := Pose(positions[i], rotations[i]);
        renderLog := renderLog + [CameraRender(camPose)];
        if i == startIndex {
          linked.screen.displayMask := 1;
          renderLog := renderLog + [DisplayMaskSet(1)];
        }
        i := i + 1;
      }

      screen.shadowCasting := On;
      renderLog := renderLog + [ShadowCastingSet(On)];
      LogSteps(old(renderLog), ShadowCastingSet(ShadowsOnly), DisplayMaskSet(0), Passes(slots, startIndex, i), ShadowCastingSet(On));
    }

    /**
     * Render, called before the player camera renders. When the linked screen
     * is visible from the player camera: the view texture is made to fit, the
     * schedule loop plans the slots, this screen is hidden and the linked
     * screen's displayMask lowered, every slot is rendered in slot order with
     * the mask raised right after slot startIndex, and the screen is shown again.
     */
    method Render(carry: Relay, playerCam: Pose, linkedVisible: bool, overlaps: Pose -> bool,
                  screenWidth: int, screenHeight: int)
      requires linked != null
      modifies this`viewTexture, this`camTarget, this`camPose, this`renderLog, viewTexture
      modifies screen`shadowCasting, linked.screen`displayMask, linked.screen`mainTexture
      ensures !linkedVisible ==>
                && viewTexture == old(viewTexture) && camTarget == old(camTarget)
                && camPose == old(camPose) && renderLog == old(renderLog)
                && screen.shadowCasting == old(screen.shadowCasting)
                && linked.screen.displayMask == old(linked.screen.displayMask)
                && linked.screen.mainTexture == old(linked.screen.mainTexture)
                && (viewTexture != null ==> viewTexture.released == old(viewTexture.released))
      ensures linkedVisible ==>
                var r := Recursion(recursionLimit, carry, linked.frame, frame, playerCam, overlaps);
                && TextureFits(screenWidth, screenHeight)
                && renderLog == old(renderLog) + RenderSequence(Slots(r), StartIndex(r))
                && screen.shadowCasting == On
                && linked.screen.displayMask == (if recursionLimit >= 1 then 1 else 0)
                && camPose == (if recursionLimit >= 1 then Viewpoint(r, 1) else old(camPose))
      ensures linkedVisible && old(TextureFits(screenWidth, screenHeight)) ==>
                && viewTexture == old(viewTexture) && viewTexture.released == old(viewTexture.released)
                && camTarget == old(camTarget) && linked.screen.mainTexture == old(linked.screen.mainTexture)
      ensures linkedVisible && !old(TextureFits(screenWidth, screenHeight)) ==>
                && fresh(viewTexture) && !viewTexture.released
                && camTarget == viewTexture && linked.screen.mainTexture == viewTexture
                && (old(viewTexture) != null ==> old(viewTexture).released)
    {
      if !linkedVisible {
        return;
      }
      CreateViewTexture(screenWidth, screenHeight);
      var r := Recursion(recursionLimit, carry, linked.frame, frame, playerCam, overlaps);
      var positions, rotations, startIndex := PlanViewpoints(r);
      SlotContents(r);
      RenderSlots(positions, rotations, startIndex, Slots(r));
    }
  }
}

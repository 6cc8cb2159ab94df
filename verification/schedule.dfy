/**
 * The render schedule of Portal.Render: the chain of nested viewpoints
 * written into the slot arrays from the back, the early stop when the two
 * screens no longer overlap, and the sequence of camera renders and
 * material writes that follows.
 */
module Schedule {
  import opened Geometry

  /**
   * The inputs of one Render call that the schedule depends on: the recursion
   * limit, the portal map, the linked portal's and this portal's transforms,
   * the player camera's pose, and the bounds-overlap test of the two screens
   * as seen by the portal camera standing at a given pose.
   */
  datatype Recursion = Recursion(
    limit: nat,
    carry: Relay,
    linkedFrame: Frame,
    portalFrame: Frame,
    playerCam: Pose,
    overlaps: Pose -> bool)

  /**
   * The player camera's pose carried n times from the linked portal through
   * this one. A pose that the portal pair leaves where it is (as happens when
   * the two transforms coincide) is seen from at every depth.
   */
  function Viewpoint(r: Recursion, n: nat): (v: Pose)
    ensures r.carry(r.linkedFrame, r.portalFrame, r.playerCam) == r.playerCam ==> v == r.playerCam
  {
    if n == 0 then r.playerCam else r.carry(r.linkedFrame, r.portalFrame, Viewpoint(r, n - 1))
  }

  /**
   * The view n deep is the view n - 1 deep of a player standing where the
   * first portal camera stands: the nested views are the same chain started
   * one step further in.
   */
  lemma {:induction false} ViewpointShift(r: Recursion, n: nat)
    requires n >= 1
    ensures Viewpoint(r, n) == Viewpoint(r.(playerCam := Viewpoint(r, 1)), n - 1)
  {
    if n > 1 {
      ViewpointShift(r, n - 1);
    }
  }

  /**
   * Whether iteration i of the schedule loop runs to completion: it is inside
   * the limit, and either it is the first or the screens still overlap when
   * seen from the pose the previous iteration left the portal camera at.
   */
  predicate Runs(r: Recursion, i: nat) {
    i < r.limit && (i == 0 || r.overlaps(Viewpoint(r, i)))
  }

  /** The number of iterations completed when the loop is entered at iteration i. */
  function DepthFrom(r: Recursion, i: nat): nat
    requires i <= r.limit
    decreases r.limit - i
  {
    if Runs(r, i) then DepthFrom(r, i + 1) else i
  }

  /** The number of iterations the schedule loop completes. */
  function Depth(r: Recursion): (d: nat)
    ensures d <= r.limit
    ensures r.limit >= 1 ==> d >= 1
  {
    DepthFromFacts(r, 0);
    DepthFrom(r, 0)
  }

  /** The slot the schedule loop writes last: recursionLimit - Depth, or 0 when nothing is written. */
  function StartIndex(r: Recursion): (si: nat)
    ensures r.limit >= 1 ==> si < r.limit && si + Depth(r) == r.limit
    ensures r.limit == 0 ==> si == 0
  {
    if Depth(r) == 0 then 0 else r.limit - Depth(r)
  }

  /** The contents of the two slot arrays after the schedule loop, as poses. */
  function Slots(r: Recursion): (s: seq<Pose>)
    ensures |s| == r.limit
    ensures r.limit >= 1 ==> s[r.limit - 1] == Viewpoint(r, 1) && s[StartIndex(r)] == Viewpoint(r, Depth(r))
  {
    seq(r.limit, j requires 0 <= j < r.limit =>
      if j < StartIndex(r) then DefaultPose else Viewpoint(r, r.limit - j))
  }

  lemma {:induction false} DepthFromFacts(r: Recursion, i: nat)
    requires i <= r.limit
    ensures i <= DepthFrom(r, i) <= r.limit
    ensures forall j :: i <= j < DepthFrom(r, i) ==> Runs(r, j)
    ensures !Runs(r, DepthFrom(r, i))
    decreases r.limit - i
  {
    if Runs(r, i) {
      DepthFromFacts(r, i + 1);
    }
  }

  /**
   * The loop runs at most recursionLimit iterations and, when the limit is
   * positive, at least one: iteration 0 skips the overlap test. It stops at the
   * first later iteration whose overlap test fails.
   */
  lemma DepthBounds(r: Recursion)
    ensures r.limit == 0 ==> Depth(r) == 0
    ensures r.limit >= 1 ==> 1 <= Depth(r) <= r.limit
    ensures forall i :: 1 <= i < Depth(r) ==> r.overlaps(Viewpoint(r, i))
    ensures Depth(r) < r.limit ==> Depth(r) >= 1 && !r.overlaps(Viewpoint(r, Depth(r)))
  {
    DepthFromFacts(r, 0);
    forall i | 1 <= i < Depth(r) ensures r.overlaps(Viewpoint(r, i)) {
      assert Runs(r, i);
    }
  }

  /**
   * Iteration i writes slot recursionLimit - i - 1 with the (i+1)-fold
   * composition; the slots below StartIndex keep their default value, and
   * StartIndex is the slot written last.
   */
  lemma SlotContents(r: Recursion)
    ensures |Slots(r)| == r.limit
    ensures r.limit >= 1 ==> StartIndex(r) == r.limit - Depth(r) < r.limit
    ensures forall j :: r.limit - Depth(r) <= j < r.limit ==> Slots(r)[j] == Viewpoint(r, r.limit - j)
    ensures forall j :: 0 <= j < StartIndex(r) ==> Slots(r)[j] == DefaultPose
    ensures r.limit >= 1 ==> Slots(r)[r.limit - 1] == Viewpoint(r, 1)
  {
  }

  /**
   * The schedule loop of Render: fills renderPositions and renderRotations
   * from the back and records the last slot written in startIndex.
   */
  method PlanViewpoints(r: Recursion) returns (positions: array<Vec3>, rotations: array<Quat>, startIndex: nat)
    ensures positions.Length == r.limit && rotations.Length == r.limit
    ensures startIndex == StartIndex(r)
    ensures forall j :: 0 <= j < r.limit ==> Pose(positions[j], rotations[j]) == Slots(r)[j]
  {
    positions := new Vec3[r.limit](_ => Origin);
    rotations := new Quat[r.limit](_ => ZeroQuat);
    startIndex := 0;
    var view := r.playerCam;
    var i := 0;
    while i < r.limit
      invariant 0 <= i <= r.limit
      invariant DepthFrom(r, i) == Depth(r)
      invariant view == Viewpoint(r, i)
      invariant startIndex == if i == 0 then 0 else r.limit - i
      invariant forall j :: 0 <= j < r.limit - i ==> positions[j] == Origin && rotations[j] == ZeroQuat
      invariant forall j :: r.limit - i <= j < r.limit ==>
                  Pose(positions[j], rotations[j]) == Viewpoint(r, r.limit - j)
    {
      if i > 0 && !r.overlaps(view) {
        break;
      }
      view := r.carry(r.linkedFrame, r.portalFrame, view);
      var renderOrderIndex := r.limit - i - 1;
      positions[renderOrderIndex] := view.position;
      rotations[renderOrderIndex] := view.rotation;
      startIndex := renderOrderIndex;
      i := i + 1;
    }
    assert i == Depth(r);
  }

  /** The values of Unity's ShadowCastingMode. */
  datatype ShadowCastingMode = Off | On | TwoSided | ShadowsOnly

  /** What Render does to the renderer, in order. */
  datatype RenderStep =
    | CameraRender(view: Pose)                       // portalCam.Render() at this pose
    | DisplayMaskSet(value: int)                     // displayMask of the linked screen's material
    | ShadowCastingSet(mode: ShadowCastingMode)      // shadowCastingMode of this portal's screen

  /** The first n iterations of the render loop. */
  function Passes(slots: seq<Pose>, startIndex: nat, n: nat): (p: seq<RenderStep>)
    requires n <= |slots|
    ensures |p| == n + (if startIndex < n then 1 else 0)
    ensures forall i :: 0 <= i < |p| ==> p[i].CameraRender? || p[i] == DisplayMaskSet(1)
    ensures startIndex < n ==> p[startIndex + 1] == DisplayMaskSet(1)
    ensures forall i :: 0 <= i < |p| && p[i] == DisplayMaskSet(1) ==> i == startIndex + 1
  {
    if n == 0 then []
    else
      Passes(slots, startIndex, n - 1)
      + [CameraRender(slots[n - 1])]
      + (if n - 1 == startIndex then [DisplayMaskSet(1)] else [])
  }

  /** Everything Render does after the schedule loop. */
  function RenderSequence(slots: seq<Pose>, startIndex: nat): (steps: seq<RenderStep>)
    ensures |steps| == |slots| + 3 + (if startIndex < |slots| then 1 else 0)
    ensures steps[0] == ShadowCastingSet(ShadowsOnly) && steps[1] == DisplayMaskSet(0)
    ensures steps[|steps| - 1] == ShadowCastingSet(On)
    ensures forall i :: 2 <= i < |steps| - 1 ==> steps[i].CameraRender? || steps[i] == DisplayMaskSet(1)
    ensures startIndex < |slots| ==> steps[startIndex + 3] == DisplayMaskSet(1)
    ensures forall i :: 0 <= i < |steps| && steps[i] == DisplayMaskSet(1) ==> i == startIndex + 3
  {
    [ShadowCastingSet(ShadowsOnly), DisplayMaskSet(0)]
    + Passes(slots, startIndex, |slots|)
    + [ShadowCastingSet(On)]
  }

  /** Appending the steps of Render one by one gives RenderSequence's grouping. */
  lemma LogSteps(log: seq<RenderStep>, a: RenderStep, b: RenderStep, mid: seq<RenderStep>, c: RenderStep)
    ensures log + [a] + [b] + mid + [c] == log + ([a, b] + mid + [c])
  {
  }

  /** A camera render at each of the given poses, in order. */
  function RendersAt(views: seq<Pose>): seq<RenderStep> {
    if views == [] then []
    else RendersAt(views[..|views| - 1]) + [CameraRender(views[|views| - 1])]
  }

  /** One more pose, one more render at the end. */
  lemma RendersAtSnoc(views: seq<Pose>, v: Pose)
    ensures RendersAt(views + [v]) == RendersAt(views) + [CameraRender(v)]
  {
    assert (views + [v])[..|views|] == views;
  }

  /**
   * The render loop renders every slot, in slot order 0, 1, ..., and raises
   * displayMask to 1 exactly once, right after rendering slot startIndex; when
   * startIndex lies beyond the slots rendered so far, only renders happen.
   */
  lemma PassesShape(slots: seq<Pose>, startIndex: nat, n: nat)
    requires n <= |slots|
    ensures startIndex >= n ==> Passes(slots, startIndex, n) == RendersAt(slots[..n])
    ensures startIndex < n ==>
              Passes(slots, startIndex, n)
              == RendersAt(slots[..startIndex])
                 + [CameraRender(slots[startIndex]), DisplayMaskSet(1)]
                 + RendersAt(slots[startIndex + 1..n])
  {
    if startIndex >= n {
      PassesBefore(slots, startIndex, n);
    } else {
      PassesAfter(slots, startIndex, n);
    }
  }

  /** Before slot startIndex is rendered, the loop only renders. */
  lemma {:induction false} PassesBefore(slots: seq<Pose>, startIndex: nat, n: nat)
    requires n <= |slots| && n <= startIndex
    ensures Passes(slots, startIndex, n) == RendersAt(slots[..n])
  {
    if n > 0 {
      PassesBefore(slots, startIndex, n - 1);
      RendersAtSnoc(slots[..n - 1], slots[n - 1]);
      assert slots[..n - 1] + [slots[n - 1]] == slots[..n];
      assert RendersAt(slots[..n]) + [] == RendersAt(slots[..n]);
    }
  }

  /** From slot startIndex on, the mask write sits right after that slot's render. */
  lemma {:induction false} PassesAfter(slots: seq<Pose>, startIndex: nat, n: nat)
    requires startIndex < n <= |slots|
    ensures Passes(slots, startIndex, n)
            == RendersAt(slots[..startIndex])
               + [CameraRender(slots[startIndex]), DisplayMaskSet(1)]
               + RendersAt(slots[startIndex + 1..n])
    decreases n
  {
    var head := RendersAt(slots[..startIndex]) + [CameraRender(slots[startIndex]), DisplayMaskSet(1)];
    if n == startIndex + 1 {
      PassesBefore(slots, startIndex, startIndex);
      assert slots[startIndex + 1..n] == [];
      assert head + RendersAt([]) == head;
    } else {
      PassesAfter(slots, startIndex, n - 1);
      var views := slots[startIndex + 1..n - 1];
      assert Passes(slots, startIndex, n) == Passes(slots, startIndex, n - 1) + [CameraRender(slots[n - 1])] + [];
      assert views + [slots[n - 1]] == slots[startIndex + 1..n];
      RenderAppended(head, views, slots[n - 1]);
    }
  }

  /** A render appended after a run of renders extends that run. */
  lemma RenderAppended(head: seq<RenderStep>, views: seq<Pose>, v: Pose)
    ensures head + RendersAt(views) + [CameraRender(v)] + [] == head + RendersAt(views + [v])
  {
    RendersAtSnoc(views, v);
  }

  /**
   * Whole render phase: the screen is hidden first and shown again last, the
   * mask is lowered before any render, and exactly |slots| renders happen.
   */
  lemma RenderSequenceShape(slots: seq<Pose>, startIndex: nat)
    requires startIndex < |slots|
    ensures RenderSequence(slots, startIndex)
            == [ShadowCastingSet(ShadowsOnly), DisplayMaskSet(0)]
               + RendersAt(slots[..startIndex])
               + [CameraRender(slots[startIndex]), DisplayMaskSet(1)]
               + RendersAt(slots[startIndex + 1..])
               + [ShadowCastingSet(On)]
  {
    assert slots[startIndex + 1..|slots|] == slots[startIndex + 1..];
    PassesShape(slots, startIndex, |slots|);
  }
}

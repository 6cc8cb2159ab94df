# Portal bookkeeping and render schedule

A model of the `Portal` component of a Unity portal demo. A portal is a screen
linked to a second portal. Each frame it does three things:

- It keeps a list of the *travelers* (players and physics bodies) inside its
  trigger volume.
- It watches each traveler's side of the portal plane. A traveler that has
  crossed is teleported to the linked portal and handed over to it.
- Before the player camera renders, it renders the view through the linked
  portal into a texture that the linked portal's screen displays. When the two
  screens see each other, it does this recursively, up to `recursionLimit`
  nested views.

The model is five files holding six modules:

- `Geometry` (`geometry.dfy`): vectors, poses and portal frames as exact
  reals. It holds `Math.Sign`, `SideOfPortal` and the crossing test.
- `Handoff` (`handoff.dfy`): what one frame does to one traveler, as pure
  functions on a snapshot `TravelerState` (pose, stored offset, clone pose, and
  the calls the traveler received).
- `Tracking` and `TrackingWalk` (`tracking.dfy`): the list operations the
  portal uses (`List.Contains`/`Add`, `List.Remove`, the `RemoveAt(i); i--`
  walk). They are written as functions on sequences, and the walk is proved
  to leave exactly the non-crossing travelers in order.
- `Schedule` (`schedule.dfy`): the render schedule. It covers how many nested
  viewpoints are planned, which slot holds which viewpoint, `startIndex`, and
  the exact sequence of camera renders, `displayMask` writes and
  shadow-casting writes.
- `Portals` (`portal.dfy`): the objects changed in place, namely `Portal`,
  `Traveler`, `Screen` and `Texture` as classes. Each method is proved against
  the functions above.

The matrix algebra is not computed. `carry(from, to, pose)` is a parameter
standing for `to.localToWorldMatrix * from.worldToLocalMatrix * pose`. The
frustum test and the screen-bounds overlap test are parameters as well.

## Model

| member | source | states |
|---|---|---|
| Geometry.Sign | Assets/Portal/Portal.cs:38-39 | `Math.Sign` returns +1 exactly for positive input and -1 exactly for negative input, and is 0 otherwise |
| Geometry.SideOfPortal | Assets/Portal/Portal.cs:213-215 | the side is +1, -1 or 0 exactly when the offset from the portal lies in front of, behind or on the plane along `forward` |
| Geometry.Crosses | Assets/Portal/Portal.cs:37-41 | the teleport test: the sign of the current offset along `forward` differs from the sign of the stored offset; a definition, whose meaning the next three lemmas prove |
| Geometry.CrossesIffSideChanged | Assets/Portal/Portal.cs:37-41 | with the offset stored at position p0, the teleport test at p1 fires iff p0 and p1 lie on different sides; the plane counts as a side of its own |
| Geometry.StrictSidesCross | Assets/Portal/Portal.cs:37-41 | moving from strictly behind to strictly in front, or the reverse, always triggers the teleport |
| Geometry.PlaneContactCrosses | Assets/Portal/Portal.cs:37-41 | landing exactly on the plane, or leaving it, also triggers the teleport |
| Handoff.Enter | Assets/Portal/Portal.cs:127-133 | a newly tracked traveler is told it entered and stores its current offset, so it cannot count as crossing until it moves; its pose and clone are untouched |
| Handoff.Handle | Assets/Portal/Portal.cs:33-56 | a crossing traveler is teleported exactly once to the carried pose, and its clone takes the pre-teleport pose; if the linked portal did not track it, it is entered there and cannot immediately cross back; a non-crossing traveler keeps its pose and log, its clone takes the carried pose, and its stored offset becomes the current one |
| Handoff.CrossingFlagAt | Assets/Portal/Portal.cs:37-41 | the crossing decision for the j-th tracked traveler is the side test on that traveler's own state |
| Tracking.AddIfAbsent | Assets/Portal/Portal.cs:128-131 | `Contains`/`Add`: the result holds x, keeps the old list as a prefix, leaves the list unchanged when x was present and grows it by one exactly when x was absent, and adds no duplicate |
| Tracking.RemoveFirst | Assets/Portal/Portal.cs:147 | `List.Remove`: an absent element leaves the list unchanged; otherwise the list shrinks by one |
| Tracking.RemoveFirstAt | Assets/Portal/Portal.cs:147 | `List.Remove` cuts out exactly the first occurrence: everything before it and everything after it is kept in order |
| Tracking.RemoveFirstNoDup | Assets/Portal/Portal.cs:143-148 | on a duplicate-free list, removal leaves the traveler absent, keeps every other entry, and keeps the list duplicate-free |
| Tracking.AddThenRemove | Assets/Portal/Portal.cs:127-148 | for a traveler the portal did not track, entering the portal and then leaving it restores the tracking list exactly |
| Tracking.AppendFresh | Assets/Portal/Portal.cs:131 | appending an absent traveler keeps the list duplicate-free |
| Tracking.AddAll | Assets/Portal/Portal.cs:50 | handing a sequence of travelers to the linked portal keeps its old list as a prefix, adds each of them, adds nothing else, and preserves duplicate-freedom |
| Tracking.SelectPositions | Assets/Portal/Portal.cs:32-56 | the travelers kept (or handed over) are original entries with that crossing flag, at strictly increasing original positions, so relative order is preserved |
| Tracking.SelectPartition | Assets/Portal/Portal.cs:32-56 | the kept travelers and the handed-over travelers together are, as a multiset, exactly the original list |
| Tracking.SelectMember | Assets/Portal/Portal.cs:32-56 | on a duplicate-free list, original entry j is kept iff its flag says so |
| Tracking.SelectNoDup | Assets/Portal/Portal.cs:32-56 | filtering a duplicate-free list leaves it duplicate-free |
| TrackingWalk.Walking | Assets/Portal/Portal.cs:32-56 | between iterations of the `RemoveAt(i); i--` loop the index never passes the end of the list, and the number of entries at or after it is the number still to visit (`WalkingIs` says which entries they are) |
| TrackingWalk.WalkingIs | Assets/Portal/Portal.cs:32-56 | after k iterations the list is the non-crossing entries among the first k, followed by the untouched rest; the index points just past the survivors; the linked list has been offered each crossing entry |
| TrackingWalk.WalkingListStep | Assets/Portal/Portal.cs:50-55 | one iteration, either removing at i and stepping back or advancing i, keeps that description |
| TrackingWalk.WalkingNext | Assets/Portal/Portal.cs:33 | the traveler read at index i in iteration k is original entry k, so no traveler is skipped or visited twice despite `RemoveAt`; it is in the linked list exactly when it was there at the start |
| TrackingWalk.WalkingDone | Assets/Portal/Portal.cs:31-58 | after the loop the list is exactly the non-crossing travelers in their original order, without duplicates, and every crossing traveler is in the linked list |
| TrackingWalk.WalkOutcome | Assets/Portal/Portal.cs:32-56 | each original traveler ends either still tracked (it did not cross) or offered to the linked portal (it crossed), never both |
| Schedule.Viewpoint | Assets/Portal/Portal.cs:98 | the player camera carried n times through the portal pair, as the left multiplication at each schedule iteration builds it; a pose the pair leaves in place is seen from at every depth |
| Schedule.ViewpointShift | Assets/Portal/Portal.cs:98 | the view n deep is the view n - 1 deep of a player standing at the first portal camera, so the nested views form one chain |
| Schedule.Depth | Assets/Portal/Portal.cs:90-105 | the schedule loop completes at most `recursionLimit` iterations, and at least one when the limit is positive |
| Schedule.DepthFromFacts | Assets/Portal/Portal.cs:92-96 | from iteration i the loop runs through consecutive iterations that pass the test, and stops at the first that fails |
| Schedule.DepthBounds | Assets/Portal/Portal.cs:92-96 | iteration 0 always runs; every later completed iteration saw the screens overlap; an early stop happened because they did not |
| Schedule.StartIndex | Assets/Portal/Portal.cs:90-104 | when the limit is positive, `startIndex` is a valid slot, and it and the number of planned views add up to the limit; with limit 0 it keeps its initial 0 |
| Schedule.Slots | Assets/Portal/Portal.cs:86-104 | there is one slot per level of the limit; the last slot holds the single carry, and slot `startIndex` holds the deepest planned view |
| Schedule.SlotContents | Assets/Portal/Portal.cs:98-104 | slot `recursionLimit - n` holds the player camera carried n times through the portal pair; slots below `startIndex` keep their default value; the last slot holds the single carry |
| Schedule.PlanViewpoints | Assets/Portal/Portal.cs:85-105 | fills `renderPositions`/`renderRotations` from the back and returns the `startIndex` of the schedule, with the planned pose in every slot |
| Schedule.Passes | Assets/Portal/Portal.cs:113-121 | the first n render-loop iterations log only camera renders and mask writes to 1; there are n + 1 steps with the mask write at index `startIndex + 1` when `startIndex < n`, and n renders and no mask write otherwise; a mask write sits nowhere else (`PassesShape` gives the full order) |
| Schedule.RenderSequence | Assets/Portal/Portal.cs:107-124 | the render phase starts by hiding the screen and lowering the mask and ends by showing the screen; in between it only renders and raises the mask; the mask is raised at index `startIndex + 3` when `startIndex` is a slot and nowhere else, and the length leaves exactly one render per slot (`RenderSequenceShape` gives the full order) |
| Schedule.PassesBefore | Assets/Portal/Portal.cs:113-121 | until slot `startIndex` is rendered, the loop only renders, in slot order |
| Schedule.PassesAfter | Assets/Portal/Portal.cs:113-121 | once slot `startIndex` is rendered, the mask write follows it directly, and the rest are renders in slot order |
| Schedule.PassesShape | Assets/Portal/Portal.cs:113-121 | the render loop renders every slot in order and raises `displayMask` to 1 exactly once, right after rendering slot `startIndex` |
| Schedule.RenderSequenceShape | Assets/Portal/Portal.cs:107-124 | the whole render phase hides the screen, lowers the mask before any render, renders all slots with the mask raised after `startIndex`, and finally shows the screen |
| Portals.Texture.Release | Assets/Portal/Portal.cs:63 | a released texture is marked released |
| Portals.Traveler.EnterPortalThreshold | Assets/Portal/Portal.cs:129 | the traveler records the enter call and nothing else changes |
| Portals.Traveler.ExitPortalThreshold | Assets/Portal/Portal.cs:146 | the traveler records the exit call and nothing else changes |
| Portals.Traveler.Teleport | Assets/Portal/Portal.cs:45 | the traveler moves to the given pose and records the teleport |
| Portals.StatesAt | Assets/Portal/Portal.cs:33 | the snapshot of a traveler list reads traveler j's own state at index j |
| Portals.Portal.constructor | Assets/Portal/Portal.cs:9-22 | a new portal tracks no travelers, has no texture yet, and has `recursionLimit` 5 |
| Portals.Portal.OnTravelerEnterPortal | Assets/Portal/Portal.cs:127-133 | an untracked traveler is appended and entered (see `Enter`); a tracked one is left alone; the list stays duplicate-free |
| Portals.Portal.OnTriggerEnter | Assets/Portal/Portal.cs:135-141 | a collider without a traveler component changes nothing; otherwise as `OnTravelerEnterPortal` |
| Portals.Portal.OnTriggerExit | Assets/Portal/Portal.cs:143-149 | a tracked traveler is told it left and removed, and is no longer tracked; anything else changes nothing |
| Portals.Portal.HandleTraveler | Assets/Portal/Portal.cs:33-56 | one iteration on one traveler: its new state is `Handle` of its old one; a crossing traveler is added to the linked portal's list as `OnTravelerEnterPortal` does |
| Portals.Portal.HandleAt | Assets/Portal/Portal.cs:32-56 | one loop iteration, including `RemoveAt(i); i--`, advances the walk invariant by one original traveler |
| Portals.Portal.WalkStarts | Assets/Portal/Portal.cs:32 | the walk invariant holds before the first iteration |
| Portals.Portal.WalkEnds | Assets/Portal/Portal.cs:32-58 | when the walk invariant has seen every traveler, the lists and traveler states are the outcome of the walk |
| Portals.Portal.HandleTravelers | Assets/Portal/Portal.cs:27-58 | afterwards this portal tracks exactly the non-crossing travelers in their old order; every crossing traveler has been handed to the linked portal; each traveler's state is `Handle` of its old state; both lists stay duplicate-free |
| Portals.Portal.CreateViewTexture | Assets/Portal/Portal.cs:60-71 | afterwards the texture matches the screen size; a matching texture is left untouched; otherwise the old one is released and a fresh one is made the camera target and the linked screen's texture |
| Portals.Portal.RenderSlots | Assets/Portal/Portal.cs:107-124 | the renderer sees exactly `RenderSequence` of the planned slots; the screen ends with shadows on, the linked mask ends at 1 iff `startIndex` is a slot, and the camera ends at the last slot |
| Portals.Portal.Render | Assets/Portal/Portal.cs:79-125 | when the linked screen is not visible nothing changes; otherwise the texture fits the screen, the renderer sees the schedule's `RenderSequence`, the screen is shown again, the mask ends at 1 when the limit is positive, and the camera ends at the singly-carried player pose; a texture that already fit is kept, along with the camera target and the linked screen's texture; otherwise the old texture is released, and a fresh one becomes both the camera target and the linked screen's texture |

## Left out

- The matrix and quaternion algebra is left out: `transform.localToWorldMatrix`, `worldToLocalMatrix`, `GetColumn(3)` and `.rotation`. It is the `carry` parameter of type `Relay`, with no properties assumed.
- `VisibleFromCamera` (frustum planes against renderer bounds) is the boolean parameter `linkedVisible` of `Render`.
- `CameraUtility.BoundsOverlap` is the `overlaps` parameter. It is applied to the pose the portal camera was left at by the previous iteration, which is the only camera state it reads that the schedule changes.
- `SetNearClipPlane` and the oblique projection matrix are not modelled; they are floating-point matrix work done after the schedule is planned. The copy of the player camera's projection matrix at line 91 is not modelled either. It fixes the projection that the overlap test at line 93 sees for the whole schedule loop, so it enters the model only through the `overlaps` parameter.
- `PrePortalRender`, `PostPortalRender`, `ProtectScreenFromClipping` and `UpdateSliceParams` are left out. `ProtectScreenFromClipping` (lines 165-174) rescales the screen and moves it along its forward axis. That changes the screen's `renderer.bounds`, which `VisibleFromCamera` (lines 75 and 80) and the screen-bounds overlap test read. These routines therefore affect `Render` only through the `linkedVisible` and `overlaps` parameters, which stand for those two tests. `UpdateSliceParams` sets shader slice parameters that the model does not track. None of them touches the tracking lists.
- The `Debug.Log` in `OnTriggerEnter` is left out; it is console output only.
- `PortalTraveler.cs` is not part of this model. `Traveler.Teleport` is the base behaviour: move to the given pose and record the call.
- Portals.Traveler.Teleport: matches `PhysicsCube.Teleport` (Assets/Portal/PhysicsCube.cs:12-16), which calls the base and then rotates the rigidbody's velocities; the velocities are left out.
- Handoff.Handle: the player's override (`Assets/Player/PlayerMovement.cs:143-151`, `Assets/PlayerMovement.cs:50-58`) does not call the base. It sets the position exactly to the carried position, but replaces the rotation with a pure yaw (`Vector3.up * (smoothYaw + delta)`), so its final rotation is in general not the carried one. For the player, the clauses `r.pose == carry(...)` of `Handle` and the pose in `Traveler.Teleport` hold for the position only. Stored offsets and crossing decisions depend only on positions, so they are unaffected. The velocity rotation and `Physics.SyncTransforms` are left out as well.
- Unity's overloaded null test on `GetComponent<PortalTraveler>()` is a nullable `Traveler?` argument. The physics engine that calls the trigger methods is outside the model.
- `Screen.width` and `Screen.height` are parameters of `CreateViewTexture` and `Render`.
- Portals.Portal.HandleTraveler, Portals.Portal.HandleTravelers, Portals.Portal.CreateViewTexture and Portals.Portal.Render: these require `linked != null`, an unset link. In the code an unset `linkedPortal` throws `NullReferenceException` at lines 35, 69 and 80. `HandleTravelers` on an empty list does not reach line 35 and does not throw, and `CreateViewTexture` throws only when it makes a new texture. The exception paths are not modelled.
- Coordinates and dot products are exact reals rather than 32-bit floats. Float rounding of the dot product can put a point lying very near the plane on the other side. A NaN coordinate makes `System.Math.Sign` throw `ArithmeticException` at lines 38-39. Neither behaviour is modelled.
- `recursionLimit` is a `nat`. A negative value makes the C# array allocation throw, and that path is not modelled.
- Portals.Portal.HandleTravelers: requires the linked portal to be a different portal. In the code, a portal linked to itself handles a crossing traveler differently. The teleport target is the identity map, because it multiplies this portal's own local-to-world and world-to-local matrices. The call to `OnTravelerEnterPortal` at line 50 comes before the `RemoveAt` at line 51, so the `Contains` test at line 128 still finds the traveler and nothing is added. The `RemoveAt` then drops the traveler from tracking, it is never re-entered, and its stored offset is not updated. That case is not modelled.
- Portals.Portal.HandleTravelers: requires that neither list holds a traveler twice (`Valid`). The constructor establishes this, and every method here preserves it.
- Portals.Portal.Render: renders all `recursionLimit` slots, as the code does. When the schedule stops early, that includes the slots below `startIndex` that still hold the default pose (origin, all-zero rotation). Those renders all happen before the real viewpoints are rendered (`SlotContents`, `RenderSequenceShape`). Whether a later render overwrites what they drew depends on the portal camera's clear flags, which the code does not set; the model records only the order of the renders, not the texture contents. The code renders every slot rather than only the planned viewpoints, and the model follows the code.
- Render textures are GPU resources. The model records only their size, whether they were released, and which camera and material refer to them.

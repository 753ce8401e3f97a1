# KWin: what its stateful parts keep

A Dafny model of the parts of KWin whose promises are about whole runs: the window geometry engine, the
resize handshake with clients, the focus bookkeeping, the compositor's frame scheduler, the chain of
effects with its load queue, and unique captions. `dafny verify dfyconfig.toml` checks everything.

Every operation is written twice. A function on a state value says what the operation does, and a
method of a class, with the fields, branches and loops of the program, is proved to do exactly
that. The results about runs are lemmas about the functions: they quantify over all inputs and all
sequences of operations.

| file | what it models |
|---|---|
| `Geometry.dfy`, `Options.dfy` | rectangles with inclusive right and bottom edges, C++ division, optional values |
| `TitleBar.dfy`, `RestrictedMove.dfy`, `RestrictedResize.dfy`, `ResizeSides.dfy`, `MoveResizeClient.dfy` | interactive moves and resizes that keep the title bar in reach |
| `SyncProtocol.dfy` | the `_NET_WM_SYNC_REQUEST` handshake ("Window Manager Protocols" chapter of the Extended Window Manager Hints) with clients that answer late, twice, wrongly or never |
| `GeometryUpdates.dfy`, `Maximizing.dfy`, `WorkspacePosition.dfy`, `QuickTiling.dfy`, `ClientGeometry.dfy` | deferred geometry updates, maximising, quick tiling, and the window that has all of them |
| `SizeHints.dfy` | increments, limits and aspect ratios (section 4.1.2.3 of the Inter-Client Communication Conventions Manual) |
| `Snapping.dfy` | snapping of a moved window to other windows |
| `FocusChains.dfy`, `DesktopPropagation.dfy`, `FocusRequests.dfy` | focus chains, moves to another desktop along a graph of windows, and the queue of expected FocusIn events |
| `FrameTiming.dfy`, `Compositing.dfy` | the arithmetic of the vertical blank, and the scheduler of frames |
| `EffectChain.dfy`, `EffectLoadQueue.dfy` | effects that call each other through shared iterators, and the queue that loads them |
| `Captions.dfy` | captions that are made unique by a number |

Where the program does not keep what its comments or its design promise, the model follows the program:

* The title-bar repair of a resize is meant to keep the title bar on the screen (geometry.cpp:2959-2961). It
  gives up the top edge for good at the first pixel that shows no more of the title bar than the pixel
  before. For a window anywhere on a single screen whose title bar is fully visible and at least a hundred
  columns wide, one event that drags the top edge up keeps the title bar if and only if it drags by no
  more than the distance to the top of the screen and the height of the title bar together
  (`TopDragKeepsTitle`, `TopDragEventKeepsTitle`). On any screens
  `TopDragRepaired` reduces the outcome to how the visible part grows on the way back, and `ResizeSides`
  does the same for sides and corners: a side forgives one pixel without a gain (`SideDragRepaired`), and what
  the top edge has lost the sides may still find (`TopGivenUp`).
* The readers of the aspect hints prevent a zero denominator but not a zero numerator
  (xcbutils.h:951-964), and three of the four aspect checks can divide by one (geometry.cpp:1380-1412).
  With `hasAspect && maxAspect.width == 0` a size wider than the base makes the program convert
  an infinite quotient to `int`, unless the mode shrinks the width first and the width may vanish
  (`AspectStageIsSafe`, `ZeroRatioDivides`). The four checks are defined and safe for all sizes if
  and only if that numerator is positive (`SafeIfPositive`); a minimum numerator may be anything. Whenever they are defined they keep to
  the increments and the maximum; a negative maximum numerator can only push a size below its minimum
  (`NegativeStage`, `NegativeNumeratorShrinks`).
* Maximising and restoring gives the old geometry back only if its centre lies in the area
  (`RestoreNeedsCentre`), and maximising a tile in one direction only and restoring it loses the
  original columns, or for the horizontal direction the original rows (`PartialMaximizeOfTile`,
  `PartialMaximizeOfTileAcross`).
* "Align to the next maxFps tick" (composite.cpp:818) aims one frame interval after the blank before now,
  and "start now" (composite.cpp:322, composite.cpp:697) waits for all blanks of a frame that
  `VBlankTime` does not reach into
  (`PaddingEndsAtVBlank`, `StartNowWaits`). With a `VBlankTime` of a frame and a blank or more it waits for no
  blank and may wrap around (`StartNowWraps`). The wait ends too late exactly if `VBlankTime` is longer than what
  is left until the later of two blanks (`WaitKeepsMargin`): it is zero if the excess is less than a
  millisecond, and wraps around to the longest wait if it is more (`WaitWraps`), which the
  default does on a 240 Hz screen (`FastScreenWaitsTooLong`).
* A window that is off the screen is moved back by a quarter of the screen, but from above by a quarter of its
  width instead of its height (geometry.cpp:1267). On a screen about four times as wide as high, or more, the
  window may end below it (`OffscreenComesBack`, `SettledWindowComesBack`).
* The flag that a desktop is being painted is cleared by a nested `paintDesktop`, not restored
  (`FlagSurvivesPlainCode`, `NestedDesktopLosesFlag`).
* The distance a snap has to beat starts at the right and the bottom bound of the screen, not at its size. On a
  screen whose right edge is near the origin or left of it, a snap zone larger than that bound is
  not used in full, and the same holds for the bottom edge and the rows (`SnapsIfEdgeInZone`,
  `LargeZoneMissesEdge`, `LargeZoneMissesRow`).
* The queue of expected FocusIn events is to tell a window that was asked for from one that steals the focus. A
  window that takes the focus itself while it is asked for removes all sooner requests from the
  queue (activation.cpp:527-536), and their answers can then be refused
  (`SelfFocusingWindowDisturbs`). An answer is never refused if and only if a request for its window is
  open, and a request is open until a FocusIn passes it by or its window goes away
  (`AnswersAreNeverRefused`, `OpenExactly`).

## Model

| member | source | states |
|---|---|---|
| RestrictedMove.PushBackOutcome | geometry.cpp:3080-3149 | the push-back loop ends at a reachable title bar, at the previous geometry or below a panel; it stays between request and previous position and leaves a good request alone |
| RestrictedMove.PushBackStopsFirst | geometry.cpp:3102-3149 | the loop goes back pixel by pixel, sideways while part of the title bar shows and vertically otherwise, and stops at the first frame whose title bar is reachable, that is under a panel or that is the previous one |
| RestrictedMove.JumpsFromUnderPanel | geometry.cpp:3117-3132 | a frame jumps if and only if there are several screens and a strut along the top of the display lies over it, and then to the row below such a strut |
| RestrictedMove.DragKeepsTitleReachable | geometry.cpp:3080-3149 | on one screen a title bar reachable at drag start is reachable after every motion event of every drag |
| TitleBar.VisibleCounts | geometry.cpp:2974-2980 | the pixel sums are numbers of points of the title bar: those on the available region, or those on the parts of it that cover all its rows |
| RestrictedResize.RepairStaysBetween | geometry.cpp:2958-3042 | the repair loop terminates and every edge it returns lies between its requested and its previous value |
| RestrictedResize.TopDragRepaired | geometry.cpp:2958-3042 | for any screens and struts, the repair of a dragged top edge succeeds if and only if every pixel on the way back shows more of the title bar until enough is shown |
| RestrictedResize.NoGainLosesTitle | geometry.cpp:2982-2996 | if the first pixel back gains nothing, the repair ends with the title bar out of reach |
| RestrictedResize.NoGainGivesUp | geometry.cpp:2982-2996 | and it gives back exactly the request |
| RestrictedResize.TopDragKeepsTitle | geometry.cpp:2958-3042 | a window anywhere on a single screen, title bar fully visible and at least a hundred columns wide: the repair of one upward drag reaches the title bar if and only if the drag is no longer than the gap above the window and the title bar together, and otherwise gives the request back |
| RestrictedResize.TopDragEventKeepsTitle | geometry.cpp:2913-3062 | the same for the title bar of the window that the whole event leaves, with no snapping and no size hints |
| ResizeSides.Task.SideDragRepaired | geometry.cpp:2969-3042 | the repair of a dragged left or right edge finds the title bar if and only if it is found on the way back before a second pixel without a gain loses some of it |
| ResizeSides.Task.FoundAtTop | geometry.cpp:2969-3042 | a corner drag stops at the first pixel of the top edge that finds the title bar, while all before it gain |
| ResizeSides.Task.TopGivenUp | geometry.cpp:2982-2996 | if a pixel of the top edge does not gain, it is taken back, and the title bar is found if and only if the sides find it from there before they lose some of it |
| ResizeSides.Task.TopBackInPlace | geometry.cpp:3008-3042 | if the top edge gains all the way, the title bar is found if and only if the sides find it from there, one pixel without a gain forgiven |
| ResizeSides.Task.TopPhaseEnds | geometry.cpp:2969-3042 | there is no other case |
| RestrictedResize.ResizeEventOutcome | geometry.cpp:2913-3062 | a resize event ends with a size the hints gave and with the opposite corner where it was; before the hints the edges lie between requested and previous |
| RestrictedResize.ResizeDragKeepsCorner | geometry.cpp:2913-3062 | over a whole resize the corner opposite to the dragged one never moves, whatever pointer, neighbours, struts and hints do |
| MoveResizeClient.CountVisible | geometry.cpp:2974-2980 | the loop over the visible regions counts both sums of title pixels |
| MoveResizeClient.Client.PushBackToReachable | geometry.cpp:3102-3149 | the loop of a restricted move computes the push-back |
| MoveResizeClient.Client.HandleMove | geometry.cpp:3080-3149 | a motion event of a move has the push-back of the request as its result and reports whether the position changed |
| MoveResizeClient.Client.RepairLoop | geometry.cpp:2969-3042 | the loop of a restricted resize computes the repair |
| MoveResizeClient.Client.HandleResize | geometry.cpp:2948-3062 | a motion event of a resize drags, snaps, repairs and applies the hints |
| SyncProtocol.StepKeepsInv | client.cpp:1769-1815 | every event keeps: value is the last request sent, outstanding requests are exactly the pending one, and a pending flag has its armed timer |
| SyncProtocol.RunKeepsInv | client.cpp:1769-1815 | the invariant holds after every interleaving of motions, alarms and timer expiries |
| SyncProtocol.OneRequestAtATime | client.cpp:1769-1815 | at most one request is unacknowledged, and the n-th request carries the 64-bit value n |
| SyncProtocol.EveryMotionAsks | geometry.cpp:3158-3185 | over every run a motion of a resize sends exactly one request, with the next number, and arms both timers, if and only if none is under way and no effect shows the size; a client without a counter is only held back for 33 ms |
| SyncProtocol.AnswersAreFollowed | events.cpp:1389-1404 | over every run an answer stops both timers, and the next motion asks again with the next number |
| SyncProtocol.ResizingFollowsUser | geometry.cpp:2726-2749 | a resize begins and ends with the user alone, whatever the client does |
| SyncProtocol.NeverAskedAgain | client.cpp:1776-1792 | once support was dropped nothing goes over the wire any more |
| SyncProtocol.NextId | client.cpp:1802-1806 | the carry from the low to the high half makes the next value exactly one larger |
| SyncProtocol.PendingIsReleased | geometry.cpp:3169-3205 | a pending flag always has an armed timer, failsafe or 33 ms, whose expiry clears it |
| SyncProtocol.OnlyLatestAlarmCounts | events.cpp:1389-1404 | an alarm clears the flag if and only if it carries the latest request; any other alarm changes nothing |
| SyncProtocol.Client.SendRequest | client.cpp:1769-1815 | sends one request with the next value and arms the failsafe timer, or does nothing |
| SyncProtocol.Client.HandleMoveResize | geometry.cpp:3158-3185 | a motion event sends the request, or does not, as stated for every run |
| SyncProtocol.Client.HandleAlarm | events.cpp:1389-1404 | an alarm event takes the protocol step and keeps the invariant |
| SyncProtocol.Client.FailsafeTriggered | client.cpp:1776-1792 | a client that does not answer loses its sync support and the pending flag |
| SyncProtocol.Client.LeaveMoveResizeMode | geometry.cpp:2745-2748 | the end of a resize drops the timer, and the flag of a client without a counter |
| GeometryUpdates.NothingSentWhileBlocked | geometry.cpp:1886-2108 | for every program of nested blocks and calls, nothing reaches the frame inside a block: the geometry is the intended one and the pending update is the join of what was asked |
| GeometryUpdates.OutermostUnblockSendsOnce | geometry.cpp:2091-2108 | the outermost unblock sends nothing, one full resize exactly if the size is new or a call was forced, or one move |
| GeometryUpdates.UpdateSends | geometry.cpp:1886-1982 | one update outside a block sends a full resize, a move or nothing, and puts the move off, exactly in the stated cases |
| GeometryUpdates.RunReachesIntended | geometry.cpp:1886-2108 | after any program the frame and the logical geometry are the rectangle the calls ask for |
| GeometryUpdates.BatchedRefinesImmediate | abstract_client.h:948-961 | a program with blocks leaves frame and geometry as the same calls without blocks do |
| GeometryUpdates.DeferredMovesAreNotLost | geometry.cpp:2726-2732 | during a user move under a compositor programs keep the invariant, and letting go brings the frame to the intended geometry |
| GeometryUpdates.DraggingSendsNoMoves | geometry.cpp:1886-1982 | while the user drags the window under a compositor, no program of updates sends a move of its own, and letting go sends the one that was put off |
| ClientGeometry.Client.SetGeometry | geometry.cpp:1886-1982 | the method has the effect of the specification on geometry, frame, pending update and request log |
| ClientGeometry.Client.PlainResize | geometry.cpp:1984-2046 | the same for `plainResize` |
| ClientGeometry.Client.Move | geometry.cpp:2048-2089 | the same for `move` |
| ClientGeometry.Client.BlockGeometryUpdates | geometry.cpp:2091-2108 | the same for blocking and unblocking |
| ClientGeometry.Client.LeaveMoveResize | geometry.cpp:2726-2732 | the deferred move is done and the frame is the logical geometry |
| Maximizing.SetMaximizeRemembers | geometry.cpp:2110-2132 | each maximise request, with the toggles it is made of, reaches the requested mode and keeps the original geometry recoverable |
| Maximizing.MaximizePathIndependent | geometry.cpp:2163-2417 | after any sequence of requests the geometry is a function of the last mode, the original and the area |
| Maximizing.RestoreGivesOriginal | geometry.cpp:2163-2417 | two histories with the same last request agree, and a last restore gives exactly the original geometry |
| Maximizing.RestoreNeedsCentre | geometry.cpp:2321-2355 | if placement moves the window, maximise and restore gives the original back if and only if its centre lies in the area |
| Maximizing.RestoreElsewhereIsPlaced | geometry.cpp:2321-2355 | a restore keeps the size it restores to, and leaves the position to placement if and only if the centre of the restore geometry is not in the area |
| Maximizing.RestoreFallsBack | geometry.cpp:2331-2343 | without a usable restore geometry a restore takes what is known of it, two thirds of the area for an unknown side, and a placed position for an unknown one |
| Maximizing.PartialRestore | geometry.cpp:2281-2318 | giving up one direction of a full maximise brings back the other extent if that is known and on the area, and otherwise two thirds of the present one, placed |
| Maximizing.TileSurvivesPartial | geometry.cpp:2263-2277 | the quick-tile mode survives a maximise in one direction, but not giving up the vertical one of a full maximise in place |
| ClientGeometry.Client.ChangeMaximize | geometry.cpp:2163-2417 | the method computes the specified mode, geometry, restore geometry and tile, and sends at most one request |
| ClientGeometry.Client.SetMaximize | geometry.cpp:2110-2132 | the request is the two toggles, and sends at most one request when not blocked |
| ClientGeometry.Client.SaveSizes | geometry.cpp:2221-2237 | the restore geometry is saved piece by piece before the mode changes |
| WorkspacePosition.SettledWindowStays | geometry.cpp:1037-1269 | a window at its restore geometry is left alone by the position check if and only if it touches the screen, for all struts and neighbours |
| WorkspacePosition.StrutEdgeIsTightest | geometry.cpp:1121-1167 | the bound of a side is the tightest that the screen and the struts beside the window set, and one of them sets it |
| WorkspacePosition.StrutsBeside | geometry.cpp:1108-1120 | a strut counts for a window if and only if it shares columns, or rows, with it |
| WorkspacePosition.EdgesOfSettled | geometry.cpp:1170-1246 | all four edges after the corrections, case by case: lost bounds are regained, edges that left their bounds are put back, opposite ones that were both lost are not favoured |
| WorkspacePosition.InsideStaysInside | geometry.cpp:1170-1246 | a side that was inside its bound is inside the new one if the window fits, and the left and the top side always |
| WorkspacePosition.TouchingStays | geometry.cpp:1170-1246 | an edge that touched its bound touches the new one, if the opposite edge was free and still is |
| WorkspacePosition.FreeWindowIsRestored | geometry.cpp:1170-1246 | a window that touched nothing goes exactly to a restore geometry within the bounds |
| WorkspacePosition.OffscreenComesBack | geometry.cpp:1257-1269 | a window off the screen is brought back on it if and only if it was not above a screen too wide for its height |
| WorkspacePosition.SettledWindowComesBack | geometry.cpp:1257-1269 | the same for the whole check of a window at its restore geometry, for all struts |
| ClientGeometry.Client.CheckWorkspacePosition | geometry.cpp:1037-1269 | the method, with its loops over struts, computes the specified position |
| QuickTiling.ApplyKeepsTileInv | geometry.cpp:3251-3388 | every quick-tile request and every full maximise or restore keeps the restore geometry and shows what the mode says |
| QuickTiling.RequestReachesGoal | geometry.cpp:3251-3388 | from any state of a resizable window each request reaches the mode and the tile it asks for: opposite flags cancel, the same tile again is left, a maximised window is restored and tiled; and the tile is shown |
| QuickTiling.RunReachesGoal | geometry.cpp:3251-3388 | over every sequence of requests mode and tile follow from the requests alone |
| QuickTiling.AskingTwiceUndoes | geometry.cpp:3308-3388 | after any history, asking twice for a side gives the original geometry back, unless the window was there: then it is there again |
| QuickTiling.TilingRemembers | geometry.cpp:3358-3362 | the first of several tiles in a row stores the geometry, the others keep it |
| QuickTiling.UntilingWithoutRestore | geometry.cpp:3377-3388 | leaving a tile restores the stored geometry, or, if that is invalid, stores the present one |
| QuickTiling.PositionCheckRefills | geometry.cpp:1058-1072 | the position check makes a maximised or tiled window fill again what its mode says, and changes nothing else |
| QuickTiling.TilePathIndependent | geometry.cpp:3251-3388 | after any sequence of such requests the restore geometry is the original, mode and tile are the ones asked for, and the window shows the original, its tile or the whole area |
| QuickTiling.PartialMaximizeOfTile | geometry.cpp:2272-2275 | maximising a tile vertically and restoring keeps the columns of the tile; it is the original if and only if the tile has its columns |
| QuickTiling.PartialMaximizeOfTileAcross | geometry.cpp:2272-2275 | maximising a tile horizontally and restoring keeps the rows of the tile; it is the original if and only if the tile has its rows |
| QuickTiling.TilesPartitionArea | geometry.cpp:3229-3249 | every point of an area of odd or even size is in exactly one half of each split, each half is on its own side, and the quarters are the intersections of halves |
| QuickTiling.HalvesAreEqual | geometry.cpp:3229-3249 | the halves differ by at most one column or row |
| ClientGeometry.Client.SetQuickTileMode | geometry.cpp:3251-3388 | the method reaches the mode and the tile that the request asks for, and computes the specified geometry and restore geometry |
| SizeHints.GrowsToward | geometry.cpp:1373-1399 | growing a side toward a ratio never passes it and stops within one increment |
| SizeHints.ShrinksToward | geometry.cpp:1380-1412 | shrinking a side toward a ratio never passes it, stops within one increment and never turns it negative |
| SizeHints.RequestIsFollowed | geometry.cpp:1300-1467 | for all hints the result is the requested size, or the limit it is beyond, down to whole increments, if both ratios hold or there are none; without strict geometry it is that size itself |
| SizeHints.OneSizeFollows | geometry.cpp:1302-1342 | only one size satisfies that |
| SizeHints.RatiosAreQuotients | geometry.cpp:1345-1356 | the comparisons of products say that the quotient of the sides is below the one ratio or above the other |
| SizeHints.AspectStageIsSafe | geometry.cpp:1413-1448 | for all numerators the four repair steps are defined exactly outside the guard of the division by zero, in each mode, and then keep the grid and the maximum; for a maximum numerator that is not negative, or a size it does not make too wide, they also keep the minimum and each aspect bound that held, and leave a good size alone |
| SizeHints.AspectStageRepairs | geometry.cpp:1413-1448 | a size outside a bound ends within one increment of it, or the limits forbid both ways of repairing it and it stays, or the program divides by zero; a size too wide for a negative maximum numerator is excepted, because only an empty size meets that bound |
| SizeHints.ModeKeepsSide | geometry.cpp:1413-1448 | where the limits leave room, the mode decides which side changes; the other one changes by less than one increment is worth, and for a maximum both sides shrink first |
| SizeHints.RatiosAreRepaired | geometry.cpp:1300-1467 | a client size outside a ratio ends within one increment of it, or the limits of the window forbid both ways of repairing it |
| SizeHints.ModeKeepsClientSide | geometry.cpp:1300-1467 | which side of a client size the mode keeps, in terms of the limits of the window |
| SizeHints.SafeIfPositive | xcbutils.h:951-964 | the four steps are defined and safe for all sizes and limits if and only if the maximum numerator is positive |
| SizeHints.NegativeStage | geometry.cpp:1413-1448 | with a negative maximum numerator the four steps are always defined and keep the grid and the maximum |
| SizeHints.ZeroRatioDivides | xcbutils.h:958-964 | with a maximum numerator of zero the program divides by zero if and only if the size is wider than the base |
| SizeHints.NegativeNumeratorShrinks | geometry.cpp:1393-1412 | with a negative one a size without width loses its whole height, whatever the minimum |
| SizeHints.HintsAreObeyed | geometry.cpp:1300-1467 | in every mode and for all numerators the request is followed and both sides are on the increment grid and within the maximum, or the program divides by zero, exactly under the guard; a size within the ratios is left alone, and no repair goes below the minimum unless a negative numerator makes the size too wide |
| SizeHints.HintsAreIdempotent | geometry.cpp:1300-1467 | without aspect hints the hints change a size they have produced no more |
| SizeHints.AdjustedSizeIsIdempotent | geometry.cpp:1274-1285 | the same for frame sizes |
| SizeHints.ComputeSize | geometry.cpp:1300-1467 | the method follows the request, step by step, and obeys the hints in that sense or divides by zero exactly under the guard |
| SizeHints.KeepAspect | geometry.cpp:1358-1455 | the four checks, each computed with doubles, keep a gridded size on its grid, within the maximum and, with the same exception, not below the minimum, or divide by zero exactly under the guard |
| Snapping.NearestEdgeWins | geometry.cpp:487-556 | for every list of windows each axis stays or goes to a usable edge inside the zone at the distance noted, and no usable outer edge of an overlapping window is nearer, corners included |
| Snapping.OthersAreIgnored | geometry.cpp:487-500 | minimized, hidden and absent windows, and the moved one, are never snapped to |
| Snapping.SnapsIfEdgeInZone | geometry.cpp:432-443 | on either axis, if the zone is not larger than the screen bound, an edge inside the zone makes the window snap at least that near |
| Snapping.CornersAreTried | geometry.cpp:534-555 | when one axis has come to touch a window, no aligned end of it is nearer on the other axis than the choice; a guided axis, and one without contact, stays |
| Snapping.NoCornerIsMissed | geometry.cpp:484-557 | over the whole list: wherever the turn of a window ends in contact, no aligned end of it is nearer than the final choice |
| Snapping.MeetingIsSharing | geometry.cpp:509-510 | the three comparisons say that the closed intervals share a coordinate |
| Snapping.LargeZoneMissesEdge | geometry.cpp:432-443 | for every larger zone of two pixels or more there are a screen with that bound, a window centred on it and an edge inside the zone that is not snapped to |
| Snapping.LargeZoneMissesRow | geometry.cpp:432-443 | the same for the vertical axis |
| Snapping.SnapToWindows | geometry.cpp:484-557 | the loop computes the specified position and reaches the settled state |
| Snapping.SnapToWindow | geometry.cpp:501-555 | one turn of the loop: outer edges on both axes, then corners |
| FocusChains.RunKeepsInv | focuschain.cpp:42-212 | after any sequence of updates, removals, resizes and moves no chain holds a window twice and every window of a desktop chain is in the recent chain |
| FocusChains.UpdatePutsOnOneDesktop | focuschain.cpp:85-127 | after an update a window that wants focus is in the chain of its own desktop only, and in the recent chain; nobody else enters or leaves |
| FocusChains.UpdateOnAllDesktops | focuschain.cpp:93-110 | a window on all desktops is in every chain afterwards, and its place changes on the current desktop alone |
| FocusChains.ResizeKeepsChains | focuschain.cpp:52-60 | chains of desktops that stay are kept, and new ones are empty |
| FocusChains.ChangedKeepsOrder | focuschain.cpp:129-153 | no change of a chain moves any other window |
| FocusChains.MovedAfterKeepsOrder | focuschain.cpp:172-189 | moving a window after another moves no third one |
| FocusChains.MadeFirstPosition | focuschain.cpp:238-252 | a window made first is focused first, or, if minimized, comes just beyond the last minimized window |
| FocusChains.MadeLastPosition | focuschain.cpp:254-258 | a window made last is focused last |
| FocusChains.NewcomerPosition | focuschain.cpp:140-153 | a newcomer is focused first, or right after the active window if that is first; who is there already stays |
| FocusChains.MovedAfterPosition | focuschain.cpp:172-189 | a moved window comes right after the reference, or after the first window of its application |
| FocusChains.MoveStaysOnDesktops | focuschain.cpp:155-170 | a move after another window changes exactly the chains of the desktops of the moved window that know the other one, and the recent chain |
| FocusChains.MovedAfterNowhere | focuschain.cpp:172-189 | a chain without the reference is left alone, and one without another window of its application loses the moved one |
| FocusChains.WalkPosition | focuschain.cpp:199-212 | the k-th next window is k places further down, around the end |
| FocusChains.TourVisitsEachOnce | focuschain.cpp:199-212 | repeating `nextMostRecentlyUsed` visits every window of the chain exactly once and returns to the start |
| FocusChains.FocusChain.UpdateClient | focuschain.cpp:85-127 | the loop over all chains computes the specified chains and keeps the invariant |
| FocusChains.FocusChain.RemoveClient | focuschain.cpp:42-50 | the window leaves all chains |
| FocusChains.FocusChain.ResizeChains | focuschain.cpp:52-60 | chains are added and dropped for exactly the desktops that come and go |
| FocusChains.FocusChain.MakeFirstInChain | focuschain.cpp:238-252 | the search for the last minimized window computes the specified chain |
| FocusChains.FocusChain.MoveAfter | focuschain.cpp:155-170 | the loop over all chains computes the specified chains and keeps the invariant |
| FocusChains.FocusChain.NextMostRecentlyUsed | focuschain.cpp:199-212 | the next window, around the end |
| DesktopPropagation.Trip.MovesCompose | abstract_client.cpp:375-418 | two moves one after the other are one: only to the target, with all followers, listed on the target alone |
| DesktopPropagation.Trip.GoesAlong | abstract_client.cpp:392-406 | a window goes along however long the chain of transients and main windows that leads to it |
| DesktopPropagation.Trip.ReachableIsClosed | abstract_client.cpp:392-406 | the windows reachable through windows not yet on the target, along transients and from modal windows to their main windows, are a closed region |
| DesktopPropagation.Trip.ExactlyReachableGo | abstract_client.cpp:392-406 | a move that is confined to the reachable windows takes exactly those to the target |
| DesktopPropagation.Trip.LeaderMoves | abstract_client.cpp:375-418 | a window that goes first, then its followers, then its entry into the chains make up one move |
| DesktopPropagation.Workspace.SetDesktop | abstract_client.cpp:375-418 | on every graph, cycles included, the recursion terminates; who moves goes to the target with all followers and is in the target's chain alone; nobody outside any closed region moves; the window is focused first |
| DesktopPropagation.Workspace.RequestDesktop | abstract_client.cpp:375-418 | a request from outside moves a window exactly if it is reachable |
| DesktopPropagation.Workspace.Target | abstract_client.cpp:375-379 | the target is the requested desktop, or the nearest one there is |
| DesktopPropagation.Workspace.MoveAll | abstract_client.cpp:392-406 | the loop over relatives brings all of them to the target |
| FocusRequests.AnswerIsFound | activation.cpp:527-536 | the window of an open request is in the queue, and the greedy search for it removes no later request |
| FocusRequests.ExpectedIfOpen | activation.cpp:527-542 | a window is in the queue if and only if some request for it is open |
| FocusRequests.TakenKeepsInv | activation.cpp:527-536 | a FocusIn, from whatever window, closes exactly the open requests made no later than the first open one for that window |
| FocusRequests.StepKeepsInv | activation.cpp:527-542 | requests, answers, lost and ignored answers, windows that take the focus themselves and withdrawn windows keep the queue equal to the open requests, in order |
| FocusRequests.RunKeepsInv | activation.cpp:527-542 | the same for whole runs |
| FocusRequests.OpenExactly | activation.cpp:527-542 | over every run a request stays open if and only if no FocusIn passes it by and its window does not go away |
| FocusRequests.AnswersOvertakeNothing | activation.cpp:527-536 | if no window takes the focus itself while it is asked for, and no answer comes for a dropped request, no FocusIn passes a request by that may still be answered |
| FocusRequests.AnswersAreNeverRefused | activation.cpp:552-571 | after any run the FocusIn event for a request is allowed under all circumstances if and only if a request for its window is open, and its own is open exactly if nothing passed it by and its window did not go away |
| FocusRequests.SessionNeverRefuses | activation.cpp:552-571 | from the start of a session no answer is refused while no window takes the focus itself that is asked for, and no answer comes for a window that went away |
| FocusRequests.SelfFocusingWindowDisturbs | activation.cpp:527-571 | with two windows asked for, the second taking the focus itself makes the answer of the first one refusable |
| FocusRequests.StricterAllowsLess | activation.cpp:552-633 | a stricter level or a better protected active window never allows more |
| FocusRequests.RulesDecide | activation.cpp:552-633 | the decision is the only one that satisfies the rules, each an equivalence: for an unexpected window, under which level, protection and circumstance it is allowed, the timestamps included |
| FocusRequests.BetterIsAllowedMore | activation.cpp:552-633 | a more recent user time, and each other circumstance in favour of the window, never turns an allowed window into a refused one |
| FocusRequests.Workspace.SetShouldGetFocus | activation.cpp:538-542 | a request enters the queue last |
| FocusRequests.Workspace.GotFocus | activation.cpp:527-536 | the loop removes everything up to the first occurrence |
| FocusRequests.Workspace.AllowClientActivation | activation.cpp:552-633 | the method decides by the rules; an expected window is always allowed, and what is allowed is allowed at every looser level and protection, and what is refused at every stricter one |
| FocusRequests.Workspace.FocusInEvent | events.cpp:1275-1297 | the event takes the window off the queue and activates it exactly if the rules allow it |
| FrameTiming.StartupAligns | composite.cpp:315-322 | with vertical sync the frame interval is the largest multiple of the blank interval within the wish, or one blank; without it, the wish |
| FrameTiming.PaddingEndsAtVBlank | composite.cpp:814-821 | the padding ends at a blank strictly after now, and says at which |
| FrameTiming.TargetIsVBlank | composite.cpp:814-828 | the instant aimed for is a blank strictly after now |
| FrameTiming.WaitKeepsMargin | composite.cpp:823-828 | the conversion fits 32 bits, and the wait ends `vBlankTime` before the target, less than a millisecond early, if and only if `vBlankTime` fits before the later blank |
| FrameTiming.WaitWraps | composite.cpp:823-828 | the conversion wraps around if and only if `vBlankTime` is at least a millisecond longer than what is left until the later blank; by less than that, the wait is zero |
| FrameTiming.FastScreenWaitsTooLong | composite.cpp:823-828 | a wrap happens: on a 240 Hz screen the default `vBlankTime` makes the timer wait 250 ms |
| FrameTiming.StartNowWaits | composite.cpp:697 | while `VBlankTime` is shorter than a frame and a blank: after an idle pass the wait is zero if and only if the frame interval exceeds the whole blanks that `vBlankTime` reaches into by less than a millisecond |
| FrameTiming.StartNowWraps | composite.cpp:697 | otherwise the wait is zero if the target is late by less than a millisecond, and the longest wait if it is later |
| FrameTiming.WaitWithoutBlocking | composite.cpp:829-848 | without a blocking swap the wait is the rest of the frame interval in whole milliseconds, at least one |
| FrameTiming.TimerInterval | composite.cpp:852 | the timer runs for the wait, but not for more than 250 ms |
| Compositing.StepKeepsInv | composite.cpp:612-749 | every event keeps: something to repaint on a visible screen means an active timer or a swap that will compose; compose-at-completion means a pending swap; at most one swap is in flight; the timer is within 250 ms |
| Compositing.RunKeepsInv | composite.cpp:579-749 | the invariant holds after every run |
| Compositing.PassOutcome | composite.cpp:638-749 | a pass paints the requested region if and only if it may paint and something is requested or damaged; then there is another pass, and otherwise the timer stops, or the swap under way will compose |
| Compositing.SchedulingStarts | composite.cpp:787-852 | the timer is started exactly where there is a scene to show and no swap to wait for, for the time until the next frame; a running timer is left alone |
| Compositing.StartPaintsAll | composite.cpp:308-349 | the first pass renders the whole screen, or leaves it requested |
| Compositing.VisibilityRepaints | events.cpp:521-532 | what becomes visible again is repainted in full, and only that |
| Compositing.FrameLeavesRequests | composite.cpp:725-731 | what is asked for while the scene paints waits for the next frame |
| Compositing.WindowRequests | composite.cpp:725-731 | painting a window settles its own requests and only its own; later ones wait |
| Compositing.PixelIsNotLost | composite.cpp:579-610 | over every run without a finish, a pixel of the screen to repaint stays so until a frame paints it |
| Compositing.PixelIsPaintedSoon | composite.cpp:620-749 | while the screen is visible, it is painted after two timer or swap events at the latest, whatever repaints come in between |
| Compositing.PixelCanBePainted | composite.cpp:612-634 | and there is a run of at most two such events that paints it |
| Compositing.ProgressIsPossible | composite.cpp:612-634 | while something must be repainted on a visible screen, a timer or swap event can happen |
| Compositing.FrameComesSoon | composite.cpp:620-749 | the same for repaints that only windows ask for |
| Compositing.Compositor.SetCompositeTimer | composite.cpp:787-852 | the timer starts under the specified conditions with the specified interval |
| Compositing.Compositor.PerformCompositing | composite.cpp:638-749 | a pass does nothing, waits for the swap, stops, idles or paints, as specified |
| Compositing.Compositor.BufferSwapComplete | composite.cpp:627-634 | completion composes if that was asked for, and keeps the invariant |
| Compositing.Compositor.TimerEvent | composite.cpp:612-618 | a timer event composes and keeps the invariant |
| Compositing.Compositor.StartupWithWorkspace | composite.cpp:308-349 | startup asks for a full repaint, renders once and establishes that the repaint is scheduled |
| Compositing.Compositor.SetOverlayVisibility | events.cpp:521-532 | an overlay that becomes visible is repainted in full |
| EffectChain.SharedIteratorsCompose | effects.cpp:408-504 | for arbitrary effects the shared iterators are restored, and the trace of calls is the plain nested composition of the active effects, ending in final code |
| EffectChain.HookComposes | effects.cpp:408-504 | the same for one hook |
| EffectChain.RelayReachesAll | effects.cpp:417-424 | if each effect calls the next once, all are entered in order, then the final code once, and left again |
| EffectChain.NextOfKind | effects.cpp:408-504 | a hook called by an effect reaches the next effect if it is of the same kind, and the first effect otherwise |
| EffectChain.DesktopStartsAtFirst | effects.cpp:426-440 | a desktop is painted from the first effect on, wherever the passes under way are |
| EffectChain.PastTheLastEffect | effects.cpp:408-504 | after the last effect the scene paints, for the four hooks that paint, and nothing happens for the others |
| EffectChain.FlagSurvivesPlainCode | effects.cpp:426-440 | the desktop-rendering flag survives exactly the code in whose plain composition no desktop is painted |
| EffectChain.NestedDesktopLosesFlag | effects.cpp:426-440 | a desktop painted inside another leaves the flag cleared while the outer one is still being painted |
| EffectChain.ActiveArePicked | effects.cpp:537-546 | the effects of a pass are exactly the loaded effects that are active, in the order of the list |
| EffectChain.EffectsHandler.InvokeHook | effects.cpp:408-504 | a hook enters the effect at the iterator, advances, runs it and steps back, or runs the final code |
| EffectChain.EffectsHandler.PaintOneDesktop | effects.cpp:426-440 | a nested desktop pass starts at the first effect and restores the iterator |
| EffectChain.EffectsHandler.StartPaint | effects.cpp:537-550 | there is an increasing sequence of positions that are exactly those of the active effects, and the effects of the pass are those at these positions; all iterators are at the first |
| EffectChain.EffectsHandler.PaintPass | effects.cpp:537-550 | a pass runs the nested composition of exactly the active effects in their order and ends with all iterators where they began |
| EffectLoadQueue.StepKeepsInv | effectloader.h:239-268 | between events a dequeue is scheduled exactly if something waits, and then an event is on its way; each event loads the first entry, or nothing |
| EffectLoadQueue.EventsAdd | effectloader.h:239-268 | a call adds its entry last or empties the queue; a delivered event takes the first entry, and what its load enqueues goes behind the rest |
| EffectLoadQueue.OneEventAtATime | effectloader.h:261-268 | over every run without a clear, one event is on its way if something waits, and none otherwise |
| EffectLoadQueue.QuietMeansDone | effectloader.h:239-268 | once no event is on its way every entry was cleared or loaded once, in order |
| EffectLoadQueue.Drains | effectloader.h:250-268 | with nothing else happening, n events load the first n entries in order |
| EffectLoadQueue.Queue.Dequeue | effectloader.h:250-259 | the slot, with whatever the load enqueues or clears, takes one step and keeps the invariant |
| EffectLoadQueue.Queue.EnqueueEffect | effectloader.h:239-243 | the entry is added last and a dequeue is scheduled |
| EffectLoadQueue.Queue.ClearQueue | effectloader.h:244-248 | what waits is cleared and nothing is scheduled |
| Captions.TakenShrinksAhead | client.cpp:1487-1492 | every number that is taken uses up one caption in use, so the search ends |
| Captions.CaptionsStayUnique | client.cpp:1437-1504 | over every run of new windows, titles, updates and removals no two ordinary windows have the same caption |
| Captions.LastNameIsShown | client.cpp:1437-1446 | over every run each window shows the name it asked for last, with a blank for what cannot be printed |
| Captions.EventFollows | client.cpp:1437-1504 | what each event does to the title and the suffix of its window; no other window is touched |
| Captions.NewTitleFollows | client.cpp:1437-1492 | a new title is shown with the least suffix that makes it unique, unless the window has that title already |
| Captions.NumbersAreLeast | client.cpp:1481-1492 | a number appears only where it is needed, and it is the least one from 2 on that is free |
| Captions.DecimalReadsBack | client.cpp:1489 | a decimal reads back as the number and begins with no zero |
| Captions.DecimalIsInjective | client.cpp:1489 | different numbers have different decimals |
| Captions.SetCaption | client.cpp:1437-1504 | the method with its early returns and its search shows the requested title with that suffix |
| Captions.FindNumber | client.cpp:1485-1492 | the loop ends at the least free number |
| Captions.ChangeTitle | client.cpp:1437-1504 | a new title is shown and keeps all captions of the session unique |

## Left out

- X, Wayland, EGL, GLX and D-Bus calls, configuration files, window rules, tab groups, activities, shading, decoration callbacks: foreign calls are fields and logs, rules are the identity, the others are absent.
- Machine integers: `int` and `qint64` are unbounded except in the conversions of `FrameTiming` and in the low half of a sync value; the high half would overflow after 2^63 requests. `QRect::operator&` is modelled for rectangles that are not negative.
- RestrictedMove.DragKeepsTitleReachable: is stated for at most one screen, because with several the jump below a panel (geometry.cpp:3117-3132) accepts a position without looking at the title bar again; `PushBackOutcome` covers that jump.
- SyncProtocol.RunKeepsInv: takes a counter that was announced before and a window that was shown; a counter announced during a resize (client.cpp:1727-1764) and the timeout before the first showing (client.cpp:1779-1784) are not modelled.
- RestrictedResize.TopDragRepaired: its condition follows the pixels on the way back, as those of `ResizeSides` do; a closed form is given for the top edge of any window on a single screen, in `TopDragKeepsTitle`.
- SizeHints.AspectStageIsSafe: for a negative maximum numerator and a size that it makes too wide only the grid and the maximum are promised, not the minimum; `NegativeNumeratorShrinks` shows that the minimum is not kept. `HintsAreObeyed` has the same exception. The grid and the maximum need limits that are not negative, as they are for consistent hints. Quotients beyond the range of `int` are not modelled.
- ClientGeometry.Client.CheckWorkspacePosition: one screen and no change of the screen area; the size after the check is left to the size hints.
- Maximizing.MaximizePathIndependent: aspect hints, rules and size limits are absent, and placement is an arbitrary function.
- QuickTiling.TilePathIndependent: one screen; moving a tile to the neighbouring screen is not modelled.
- Snapping.NearestEdgeWins: snapping to screen borders and to the centre is not modelled; the border distance is signed (geometry.cpp:468-484), so no nearest-edge claim holds for it. The loop is proved for arbitrary distances to beat at its beginning.
- RestrictedResize.ResizeEventOutcome: `adjustClientSize` is an arbitrary function that leaves the edges alone that are not dragged, and `adjustedSize` an arbitrary one; the latter is proved in `SizeHints`.
- DesktopPropagation.Workspace.SetDesktop: moves to and from all desktops are excluded, because `updateOnAllDesktopsOfTransients` is not part of this model; stacking order is any order.
- FocusChains.RunKeepsInv: belonging to the same application is an arbitrary reflexive relation; the searches for a focus candidate are left out.
- FocusRequests.AnswersAreNeverRefused: the comparison of X timestamps is an input. Answers come in the order of the requests, and the X server is not modelled beyond that.
- Compositing.RunKeepsInv: `finish()` with a swap under way is excluded: the swap would complete without a scene (composite.cpp:357-404, composite.cpp:627-634). Suspending, unredirection and fences are left out, and damage is an input of the pass. A scene announces one swap for a frame at most.
- EffectChain.SharedIteratorsCompose: `buildQuads` with its static flag, the keyboard grab and mouse interception are left out. Effects are trees of calls, so effects that never return are not covered. The eight hooks are one method, because they differ only in iterator and final code.
- Captions.CaptionsStayUnique: condensed titles, changes of the window type and the visible name property are left out.

# Verified model of a fire-inspection robot platform

A Dafny 4.11 model of the parts of the platform that carry algorithms or protocols, with
proofs about them. Four components are modelled, and how they depend on each other:

* **Route planning** (`Graphs`, `Dijkstra`, `Corridor`, `CorridorGraph`, `Projection`, `Routes`,
  `FallbackRoute`, `ReturnRoute`, `Cruise`, `DemoCruise`, `DemoOrder`, `MockRobot`, `Resume`,
  `SlotClearance`). The return planner joins the nearest corridor lane and takes a shortest path to
  the waiting area; the graph search is proved optimal against all walks and, on the map, equal to
  a closed form. The cruise visits every slot once, and over the seeded car park keeps to the lanes
  and clear of all slots; for every stop of a cancelled and resumed cruise it is proved exactly
  when it can still lead to a skipped waypoint.
* **Stop verification** (`StopTelemetry`, `StopOperation`, `StopHistory`, `StopRuns`,
  `StopVerdicts`, `LatestCache`, `FieldEvidence`, `SystemHistory`, `MotionReadings`,
  `FieldReadings`, `OlderReadings`). A stop is judged by its ACK, the mission cancel and physical
  stillness; the state machine is proved equivalent, column by column, to definitions that mention
  only what was observed. What was observed comes from a
  cached reading that several kinds of messages write; how old it can be is proved exactly.
* **Command delivery** (`Outbox`, `SafetyStream`, `BridgeProtocol`, `Bridge`, `BridgeProcessor`,
  `BridgeLock`, `BridgeAcks`, `BridgeSteps`, `BridgeReplies`, `BridgeMemory`, `BridgeAnswers`,
  `BridgeOnce`, `EndToEnd`). What the bridge says next is a function of what it has said so far. At-least-once senders meet a vehicle
  with a 300 s memory, expiry checks and boot ids: together, at most once, and for exactly which
  commands.
* **Ingress admission** (`BootSessions`, `BootHistory`, `Ingress`, `IngressHistory`). Boot sessions,
  sequence numbers and message keys under duplication, reordering, failed transactions and process
  deaths; the verdict on every message is characterised by the verdicts before it.

Each callback, reconcile pass, dispatcher cycle or message is one atomic step. Objects whose
methods update fields are classes, proved against step functions on values; the lemmas about whole
runs are about those functions. Clocks are inputs that never run backwards; times are integers in
microseconds. Coordinates are reals, and `round(v, 4)` is modelled as rounding to 0.0001 with ties
to even. `dafny verify dfyconfig.toml` checks everything.

## What the proofs say about the code

* A cruise that is interrupted before its first waypoint and resumed from somewhere else counts the
  resumed leg from its own head, and the next interruption applies that count to the full
  trajectory. Any waypoint but the last can be lost that way, inspections included
  (`Resumes.AnyWaypointLost`; exactly when, `Resumes.ResumeExactly`). The docstring of
  `build_resumed_patrol_task` says a resume never re-runs the waiting area or the first slot; with
  a cursor of 0 to 3 it does.
* The cruise crosses south of the columns at y = 1.5, beside the planner's south lane at y = 1.0;
  those two crossings are its only legs off the corridor (`DemoCruises.CruiseKeepsLanes`), and clear
  of the slots all the same (`DemoCruises.CruiseIsClear`).
* The simulated robot reports progress 95 when it starts to extinguish, after inspections that may
  have ended at 99 (`MockRobots.MonotoneExactly`).
* `accept_boot_session` never closes the session of an empty boot id (`BootSessions.EmptyBootRecurs`).
  Ordinary messages carry a uuid there (packages/protocol-schemas/firebot-message-1.2.schema.json:26);
  an empty id can arrive only as `bridge_boot_id` of a compat_availability message
  (services/mqtt-ingress/main.py:538-546), which that schema does not cover and the shipped
  adapter would not send.
* A process that dies between the database commit and the key writes lets its message commit twice
  (`Ingress.CommitsOnceExactly`).
* `segment_intersects_slot` misses legs through two opposite corners of the box
  (`SlotClearance.HitExactly`), and for a negative extent reports legs that touch nothing
  (`SlotClearance.SoundExactly`).
* A schema-invalid outbox payload never expires (`Outbox.RowEndsExactlyIfValid`).
* A safety command can vanish from its stream unpublished: once 1000 newer ones have been added,
  trimming may have dropped it (`SafetyStreams.ClaimableExactly`).
* A command delivered under the id of a task that is still pending, but no longer remembered, takes
  over its entry; the vehicle's task lock then stays held until the bridge restarts
  (`BridgeLock.LockExactly`, `BridgeLock.LeakIsPermanent`).
* An emergency stop without a target boot can be handed to ROS twice, around a restart
  (`BridgeOnce.UnboundHandedAgain`); every other command is handed over at most once exactly up to a
  known lifetime (`BridgeOnce.OnceExactly`).
* An expired redelivery replaces the remembered ACK of a command, which does no harm: every later
  delivery fails validation before the replay (`BridgeAcks.ExpiryIsNeverReplayed`).
* The stop judgement takes the speeds and the stamps of the cached reading for one observation, but
  messages renew them separately; the docstring of `advance_stationary_frames` promises independent
  motion observations. A sensor message makes a new frame of an old speed, within a second
  (`MotionReadings.TwoFramesExactly`). Adapter messages other than odometry do so without a
  limit. Odometry speeds hide those of a location for as long as they are cached, so a vehicle that
  is migrated from the adapter to its own link (apps/api/app/dev/set_vehicle_source_kind.py) is
  judged by the last odometry it ever sent: one old reading can confirm a stop
  (`OlderReadings.OneReadingExactly`).
* The cached reading carries the boot id of its location, but the stop judgement does not look at
  it: a stop can be verified on a location of a boot that is over (`OlderReadings.OldBootExactly`),
  if it came before the request; later ones are of the current boot (`MotionReadings.MotionIsCurrent`).
* A vehicle that uses the empty boot id beside others has two sessions open at once
  (`BootSessions.OneOpenExactly`), and a message stream that is silent for a day may go back in its
  sequence numbers (`Ingress.SilentDayExactly`).

## Model

| member | source | states |
|---|---|---|
| `Dijkstra.HeapPop` | apps/api/app/modules/navigation/route_builder.py:254-255 | popping takes an entry that is least in the tuple order (distance, then node), and leaves exactly the others |
| `Dijkstra.WalksCannotUndercut` | apps/api/app/modules/navigation/route_builder.py:252-262 | at any moment of the search, no walk to the goal is cheaper than the bound set by the settled nodes and the heap, even with outdated heap entries |
| `Dijkstra.StaleStep` | apps/api/app/modules/navigation/route_builder.py:255-257 | dropping an outdated entry leaves every open node represented in the heap |
| `Dijkstra.RelaxNeighbours` | apps/api/app/modules/navigation/route_builder.py:260-265 | the inner loop over the arcs of a node: every recorded route stays a real simple walk of the recorded length, and afterwards no arc of the node can improve a distance |
| `Dijkstra.Settle` | apps/api/app/modules/navigation/route_builder.py:254-265 | a popped entry that is not outdated settles a node that was never settled before (the termination measure), and keeps the search invariant |
| `Dijkstra.Reconstruct` | apps/api/app/modules/navigation/route_builder.py:266-269 | following the predecessors from the goal reaches the start and spells out the recorded walk; the predecessor chain has no cycle, zero-weight arcs and self-loops included |
| `Dijkstra.Conclude` | apps/api/app/modules/navigation/route_builder.py:254-268 | on either exit of the loop a distance is recorded for the goal exactly if it is reachable, and it is minimal over all walks |
| `Dijkstra.Search` | apps/api/app/modules/navigation/route_builder.py:247-269 | None exactly when the goal is unreachable; otherwise the nodes of a cheapest walk, none visited twice; it terminates on every graph with non-negative weights |
| `Corridor.Cuts` | apps/api/app/modules/navigation/route_builder.py:221-240 | the cut list of a lane is strictly ascending, runs from end to end, and holds exactly the two ends and the crossings |
| `Corridor.CrossesExactly` | apps/api/app/modules/navigation/route_builder.py:221-240 | two lanes are taken to cross exactly if they have a point in common |
| `Corridor.CorridorExactly` | apps/api/app/modules/navigation/route_builder.py:181-195 | the corridor is five north-south and three east-west lanes, with their ends |
| `Corridor.RoundsToNearest` | apps/api/app/modules/navigation/route_builder.py:199-210 | a coordinate is rounded to the nearest ten-thousandth, and of two equally near ones to the even one |
| `CorridorGraphs.CorridorGraph.Idx` | apps/api/app/modules/navigation/route_builder.py:203-210 | one node per rounded coordinate pair; old nodes keep their numbers |
| `CorridorGraphs.CorridorGraph.Link` | apps/api/app/modules/navigation/route_builder.py:212-216 | both directions are linked, except that links under a micrometre are skipped; all arcs stay legs of one lane |
| `CorridorGraphs.CorridorGraph.LinkLane` | apps/api/app/modules/navigation/route_builder.py:218-240 | consecutive cuts of a lane are linked, so each cut is connected to the low end by exactly its distance |
| `CorridorGraphs.CorridorGraph.LinkRemote` | apps/api/app/modules/navigation/route_builder.py:241-243 | the waiting area hangs off (1.2, 1.0) by a 0.2 m spur; nothing linked before is lost |
| `CorridorGraphs.CorridorGraph.constructor` | apps/api/app/modules/navigation/route_builder.py:199-244 | every lane is linked end to end through its crossings, and every arc lies on one lane, with its length as weight |
| `Projection.FootIsNearestExactly` | apps/api/app/modules/navigation/route_builder.py:272-289 | the clamped projection is a nearest point of its segment, exactly if the segment is a point, or long enough to be projected on, or the given point lies behind its start |
| `Projection.ProjectOntoSegments` | apps/api/app/modules/navigation/route_builder.py:272-289 | the first segment of least distance, and a nearest point over all points of all segments that meet that condition |
| `Routes.DedupeWaypoints` | apps/api/app/modules/navigation/route_builder.py:442-447 | the in-place loop equals the recursive definition, which keeps the ends and leaves no two neighbours at one place |
| `Routes.DedupedHead` | apps/api/app/modules/navigation/route_builder.py:442-447 | a duplicate at the head costs exactly the second waypoint |
| `ReturnRoute.ArcKeepsClosedForm` | apps/api/app/modules/navigation/route_builder.py:199-244 | no arc of the corridor graph shortens the city-block distance to (1.2, 1.0) plus 0.2 by more than its own length |
| `ReturnRoute.AfterFirstHop` | apps/api/app/modules/navigation/route_builder.py:342-383 | a walk that leaves the join node is on the map what it costs from its second point on, with every leg on one lane; only the first hop may differ, by the rounding |
| `ReturnRoute.FirstHopFits` | apps/api/app/modules/navigation/route_builder.py:342-366 | whichever arc a walk no dearer than the low-end way starts with, its length on the map is the closed form up to half a tick of rounding |
| `ReturnRoute.FindLane` | apps/api/app/modules/navigation/route_builder.py:338-368 | every point of a lane is recognised as touching one |
| `ReturnRoute.ConnectToLane` | apps/api/app/modules/navigation/route_builder.py:338-368 | the join node is linked to both ends of its lane: the waiting area becomes reachable, by the low end at its distance from the unrounded join point |
| `ReturnRoute.ShortestIsReturnPath` | apps/api/app/modules/navigation/route_builder.py:369-383 | for every join point: a cheapest path read off the map starts at its rounded place, ends at the waiting area, has all legs on lanes, repeats no point, and has exactly the closed-form length |
| `Routes.DedupedLegs` | apps/api/app/modules/navigation/route_builder.py:442-447 | dropping duplicates drops legs of no length only: the other legs stay as they are, and so does the length |
| `FallbackRoutes.FallbackReturn` | apps/api/app/modules/navigation/route_builder.py:386-401 | the fallback goes across to the nearest vertical lane, the first listed of equally near ones, down it to y = 1, west to (1.2, 1.0) and up to the waiting area: legs of these four kinds only, as long together as the four distances; a way across of at most a micrometre is not driven |
| `FallbackRoutes.FallbackKeepsLanes` | apps/api/app/modules/navigation/route_builder.py:386-401 | from a height the lanes span, everything after the way across is driven on lanes |
| `ReturnRoute.ReturnOverGraph` | apps/api/app/modules/navigation/route_builder.py:338-383 | the pose, then that return path without duplicates |
| `ReturnRoute.BuildReturnWaypoints` | apps/api/app/modules/navigation/route_builder.py:324-383 | the join point is a nearest corridor point over all lanes; beyond 2 m that fallback; for every pose within 2 m, from the (rounded) join on all legs lie on lanes, no point repeats, the route ends at the waiting area, and the length is exactly the closed form |
| `CruiseRoutes.RightExactly` | apps/api/app/modules/navigation/route_builder.py:66-72 | a slot counts as on the right exactly if it lies north of a vehicle that faces west, west of one that faces south, east of one that faces north |
| `CruiseRoutes.SlotIsOnRight` | apps/api/app/modules/navigation/route_builder.py:66-83 | from every inspection pose the slot lies on the vehicle's right, straight abeam at 3 m (2.8 m in the top row), for every slot code and position |
| `CruiseRoutes.SortIsStable` | apps/api/app/modules/navigation/route_builder.py:86-93 | each group is in ascending key order, and slots with equal keys keep their input order |
| `CruiseRoutes.OrderedIsPermutation` | apps/api/app/modules/navigation/route_builder.py:86-97 | the cruise order holds every listed slot exactly as often as it was listed, whichever group it is in |
| `CruiseRoutes.BuildCruiseWaypoints` | apps/api/app/modules/navigation/route_builder.py:108-172 | the nested loops build the route group by group with sequence numbers running on; no route exactly when one of the five groups is empty, where the program fails on indexing |
| `CruiseRoutes.CruiseCovers` | apps/api/app/modules/navigation/route_builder.py:86-172 | the inspection waypoints are the slots in cruise order, numbered 1 to n: a permutation of the input, none missing and none twice |
| `CruiseRoutes.CruiseIsRectilinear` | apps/api/app/modules/navigation/route_builder.py:108-172 | over slots aligned by column and row, every leg of the cruise, transfers included, runs north-south or east-west |
| `CruiseRoutes.ColumnsAreSwept` | apps/api/app/modules/navigation/route_builder.py:108-172 | columns 1 and 3 are swept southwards and 2 and 4 northwards, from the waypoint before the column to the one after it, without turning back |
| `CruiseRoutes.TopRowIsSwept` | apps/api/app/modules/navigation/route_builder.py:86-172 | the top row is driven westwards from its first slot to the waypoint over the waiting area |
| `DemoCruises.InspectionIsOnLane` | apps/api/app/modules/navigation/route_builder.py:75-83 | every seeded slot is inspected from its group's corridor lane (x = 8, 14, 32 or 40, or y = 28.7), facing along it; which group is given by its number |
| `DemoCruises.WholeCruise` | apps/api/app/modules/navigation/route_builder.py:108-172 | the whole route over any seeded slots that fill the five groups, corner by corner: out at x = 1.2 and y = 27, the crossings at y = 1.5, 27 and 1.5, the top lane at y = 28.7, and home |
| `DemoCruises.CruiseKeepsLanes` | apps/api/app/modules/navigation/route_builder.py:181-195 | every leg of it lies on one corridor lane, but for the two crossings south of the columns |
| `DemoCruises.LanesAreClear` | apps/api/app/modules/navigation/route_builder.py:181-195 | no leg on a corridor lane comes within 0.3 m of the ground of any seeded slot, so the return routes keep clear from their join on |
| `DemoCruises.CruiseIsClear` | apps/api/app/modules/navigation/route_builder.py:37-43 | no leg of the cruise comes within 0.3 m of any seeded slot |
| `DemoOrders.CruiseOrder` | apps/api/tests/test_demo_route.py:55-63 | over the 54 seeded slots, listed in any order, the cruise takes 27 down to 19, 28 up to 36, 45 down to 37, 46 up to 54, and 18 down to 1 |
| `DemoOrders.InspectionOrder` | apps/api/tests/test_demo_route.py:73-87 | its i-th inspection is of that slot, carries its code and the sequence number i + 1, and stands beside it on its lane |
| `MockRobots.MockRobot.Arrive` | services/mock-robot/main.py:346-395 | reaching a waypoint moves the vehicle onto it, advances the cursor, and reports it if it is an inspection |
| `MockRobots.MockRobot.SimulateTask` | services/mock-robot/main.py:296-459 | what a drive publishes and leaves in the execution record, for a drive to the end, with or without extinguishing there, and for one halted on the way to any waypoint or after arriving at it |
| `MockRobots.MockRobot.CancelTask` | services/mock-robot/main.py:556-589 | the cancelled status carries the cursor and progress of the drive, which is then over |
| `MockRobots.ProgressIsMonotone` | services/mock-robot/main.py:366-385 | on any route, the progress a drive reports up to its last waypoint never decreases and stays between 0 and 99 |
| `MockRobots.ProgressIsNearest` | services/mock-robot/main.py:368-369 | the reported progress is the nearest whole per cent of checkpoint by total, halves to even, and 99 beyond 98.5 per cent |
| `MockRobots.ReportsTell` | services/mock-robot/main.py:366-405 | on any route, the j-th report is about the j-th inspection: its slot, its place on the route, the slot of the next, the checkpoint counted on from the first number, the total from the last |
| `MockRobots.DriveBeginsAndEnds` | services/mock-robot/main.py:451-455 | a drive that is not halted begins with accepted at 0 and ends with completed at 100, after extinguishing at 95 if that is asked |
| `MockRobots.CancelRepeatsLast` | services/mock-robot/main.py:556-589 | the cancelled status repeats progress, checkpoint, total and slots of the last report, or none; only the cursor is its own |
| `MockRobots.MonotoneExactly` | services/mock-robot/main.py:450-453 | over a whole drive, progress never goes back exactly if the drive does not end by extinguishing, which reports 95, or its inspections end at no more than that |
| `MockRobots.NumberedDriveEndsAt` | services/mock-robot/main.py:316-367 | on a route with consecutive sequence numbers the inspections end at 99, so any of them makes an extinguishing drive go back |
| `MockRobots.CheckpointsAreSequences` | services/mock-robot/main.py:316-385 | on any route with consecutive sequence numbers, each reported checkpoint index is the sequence number of the waypoint just inspected |
| `MockRobots.CruiseCheckpoints` | services/mock-robot/main.py:316-385 | on any suffix of a cruise, with or without a head at the vehicle's place, checkpoint indices are the slots' own numbers out of all of them |
| `MockRobots.CursorsWithin` | services/mock-robot/main.py:338-345 | no status of a drive names a target beyond the waypoint it was heading for, and the cancelled status names that one |
| `Resumes.TaskRow.HandleTaskStatus` | services/mqtt-ingress/main.py:806-814 | the cursor on the row is that of the latest status that carried an index |
| `Resumes.DriveAndCancel` | services/mock-robot/main.py:296-445 | a drive that is halted and cancelled publishes exactly the statuses the resume lemmas are about |
| `Resumes.RecordedWithinTarget` | apps/api/app/modules/tasks/patrol.py:141-161 | whatever subset of a drive's statuses is heard, in whatever order and how often, the index a resume starts from is at most the waypoint the robot was heading for, and exactly that one if the cancelled status came last |
| `Resumes.ResumedLegIs` | apps/api/app/modules/navigation/route_builder.py:417-439 | a resumed leg starts at the vehicle, without a duplicate if that is a waypoint, and is then the trajectory from the recorded waypoint on, or from its last if the record is beyond it |
| `Resumes.VisitedIsOnLeg` | apps/api/app/modules/navigation/route_builder.py:417-439 | the bookkeeping of visited waypoints is about the leg actually driven |
| `Resumes.NeverSkips` | apps/api/app/modules/navigation/route_builder.py:417-439 | any number of interruptions and resumes visits every waypoint of the stored trajectory, provided that at each stop but the last the recorded index is at least 1 or the vehicle resumes from the first waypoint |
| `Resumes.WaypointLost` | apps/api/app/modules/navigation/route_builder.py:417-439 | after any feasible stops, a resume without that guard lets the next stop lose any waypoint but the last that has not been visited yet |
| `Resumes.AnyWaypointLost` | apps/api/app/modules/navigation/route_builder.py:417-439 | two stops are enough: interrupted before the first waypoint and resumed elsewhere, then interrupted on the way to any waypoint but the last, that one is never visited |
| `Resumes.ResumeExactly` | apps/api/app/modules/navigation/route_builder.py:417-439 | after any number of safe stops, a next stop can never lead to a skipped waypoint, whatever safe stops follow, exactly if it has the guard itself or every waypoint but the last has been visited already |
| `SlotClearance.SplitEdgeIsCrossed` | apps/api/app/modules/navigation/route_builder.py:466-476 | an edge the leg's line splits is properly crossed, when the leg gets inside the box and both ends are outside |
| `SlotClearance.CrossedEdgeGoesInside` | apps/api/app/modules/navigation/route_builder.py:466-482 | a properly crossed edge means some point of the leg is strictly inside the box |
| `SlotClearance.HitExactly` | apps/api/app/modules/navigation/route_builder.py:450-486 | for every leg and every box, flat ones included: reported exactly if an end is in the closed box, or the leg gets strictly inside and does not run along a diagonal of the box |
| `SlotClearance.SoundExactly` | apps/api/app/modules/navigation/route_builder.py:450-486 | whatever is reported touches the expanded box, exactly if neither extent of the box is negative |
| `SlotClearance.AxisParallelNeverMissed` | apps/api/app/modules/navigation/route_builder.py:450-486 | no leg that runs north-south or east-west through the inside of the box is missed |
| `SlotClearance.HitIsNearSlot` | apps/api/app/modules/navigation/route_builder.py:450-486 | in terms of the slot: a reported leg comes within half width and half height plus margin of its centre, and every axis-parallel leg that comes closer is reported |
| `StopTelemetry.StillnessNeedsEvidence` | services/task-worker/main.py:56-94 | stale, undated or zone-less telemetry, and an unknown speed, never count as stationary |
| `StopTelemetry.StillnessIsSlow` | services/task-worker/main.py:56-94 | whichever speed fields are present, a stationary reading bounds each one that was used |
| `StopTelemetry.StillnessExactly` | services/task-worker/main.py:56-94 | a reading is fresh exactly if both stamps have a zone and are recent enough, and shows stillness exactly if it is fresh and its speed and turn rate are both below their limits, for whichever fields it reports |
| `StopTelemetry.TokenExactly` | services/task-worker/main.py:97-114 | an observation is told by its receive time, by its source time exactly if that is missing or unreadable |
| `StopOperations.StopOperation.constructor` | apps/api/app/modules/operations/router.py:836-867 | the initial row: deadlines of 5, 10 and 15 s, the mission cancel not required, awaited or unavailable, the boot id of the moment |
| `StopOperations.StopOperation.Terminate` | services/task-worker/main.py:208-234 | a terminal state, its time, and the reason if there is one |
| `StopOperations.StopOperation.Reconcile` | services/task-worker/main.py:237-346 | the field-by-field pass over one row is one step of the value model |
| `StopOperations.ReconcileStopOperations` | services/task-worker/main.py:237-356 | every row not yet terminal takes one step, all others stay as they are |
| `StopHistory.StreakIsFrames` | services/task-worker/main.py:117-136 | the looks counted since the last reset are new, fresh, stationary observations with strictly increasing tokens |
| `StopRuns.RequestsAreFresh` | apps/api/app/modules/operations/router.py:836-867 | every operation the request creates is one the run lemmas apply to |
| `StopRuns.RunKeepsConsistent` | services/task-worker/main.py:237-346 | in every run: frames never exceed 5 and equal 5 exactly when confirmed; a vehicle-stationary verdict needs confirmation and a cancel not required or confirmed; UNCONFIRMED never follows confirmation |
| `StopRuns.RunsAreMonotone` | services/task-worker/main.py:254-346 | confirmation is never taken back, and a terminal row never changes again |
| `StopRuns.ConfirmedExactly` | services/task-worker/main.py:117-136 | while open, an operation is confirmed exactly when its history holds five new, fresh, stationary observations with nothing stale and no moving one between them; re-reading one observation changes neither side |
| `StopRuns.ConfirmedHasFrames` | services/task-worker/main.py:285-307 | in any run, a confirmed operation has those five observations on record |
| `StopRuns.CancelTracksHistory` | services/task-worker/main.py:254-283 | the mission cancel counts as fulfilled exactly when it was not needed or the mission task was read cancelled in time, and as lost exactly when it was unavailable or the deadline came first |
| `StopRuns.OutcomeTable` | services/task-worker/main.py:285-346 | the state after the last pass, decided by the history alone |
| `StopRuns.StopAlwaysEnds` | services/task-worker/main.py:237-346 | any pass at or past the later of the cancel and verification deadlines leaves the operation terminal, for any history, and it stays as it is |
| `StopRuns.VerdictIsTruthful` | services/task-worker/main.py:308-322 | a vehicle-stationary verdict means the stop was read accepted, five observations are on record, and a mission that had to be cancelled was read cancelled |
| `StopVerdicts.RowFromHistory` | services/task-worker/main.py:237-346 | every column of the row after the last pass of any requested operation that was open before it: state, motion, mission cancel, failure reason and end time, each from the history of looks, ACKs and task readings, with the deadlines of 5, 10 and 15 s and the thresholds written out |
| `StopVerdicts.OverIn15Seconds` | apps/api/app/modules/operations/router.py:836-867 | an operation is over after any pass 15 s or more from its request, and its row never changes again |
| `BootSessions.RobotRow.AcceptBootSession` | services/mqtt-ingress/main.py:128-176 | which messages are let in, and the robot and session rows afterwards |
| `BootSessions.AlwaysOneEpoch` | services/mqtt-ingress/main.py:128-176 | over any attempts with non-empty boot ids, committed or not, a robot has at most one open boot session and it is the current boot's |
| `BootSessions.EmptyBootStaysOpen` | services/mqtt-ingress/main.py:128-176 | the session of an empty boot id stays open beside that of the boot that replaces it |
| `BootSessions.OneOpenExactly` | services/mqtt-ingress/main.py:128-176 | no robot ever has two sessions open, over all runs, exactly if vehicles do not use the empty boot id, or no other |
| `BootSessions.BootsNeverRecur` | services/mqtt-ingress/main.py:128-176 | a boot id that has been replaced is never current again, nor is any message of it let in |
| `BootSessions.EmptyBootRecurs` | services/mqtt-ingress/main.py:128-176 | the empty boot id is never closed, and comes back after another boot |
| `BootSessions.NeverRecursExactly` | services/mqtt-ingress/main.py:128-176 | boots never recur, over all runs, exactly if vehicles do not use the empty boot id |
| `BootHistory.RowsFollowHistory` | services/mqtt-ingress/main.py:128-176 | in any history without empty boot ids the current boot is the one heard last, and each session was first and last seen when its boot was first and last heard, and ended when the next one was |
| `BootHistory.AdmittedExactly` | services/mqtt-ingress/main.py:137-161 | after any such history a message is let in exactly if its boot was heard last, or was never heard and the message is an availability, heartbeat or capabilities |
| `Ingress.IngressService.Process` | services/mqtt-ingress/main.py:921-1062 | verdict and key and row changes for every message, with a failed transaction or a process death at either side of the commit |
| `IngressHistory.VerdictExactly` | services/mqtt-ingress/main.py:921-1062 | in any run from an empty store, under any faults: duplicate exactly if the id is recorded or in flight, out of order exactly if the last commit of the stream is less than a day old and of no smaller number, aborted exactly if it fails otherwise, and of the rest committed exactly those that the boot history lets in |
| `IngressHistory.IdsFollow` | services/mqtt-ingress/main.py:60-75 | which message ids the store knows at any time, from that history, with 120 s, 600 s or a day for each kind and 30 s in flight |
| `IngressHistory.PositionFollows` | services/mqtt-ingress/main.py:928-937 | and the position of each stream: that of its last commit, for a day |
| `Ingress.SeqsIncrease` | services/mqtt-ingress/main.py:927-937 | sequence numbers committed per vehicle, boot and type are strictly increasing along any chain of commits with less than a day from each to the next, each commit renewing the key, under any duplication, reordering and failed transactions |
| `Ingress.SilentDayExactly` | services/mqtt-ingress/main.py:1058-1061 | with no commit in between, a number that is no larger can commit exactly if a day or more has passed, even the very same message |
| `Ingress.RepeatsAreDuplicates` | services/mqtt-ingress/main.py:921-926 | while its key is kept, a committed message id is only answered as a duplicate |
| `Ingress.CommitsOncePerDay` | services/mqtt-ingress/main.py:921-1062 | the two gates together: a message commits at most once a day, however short its own key lives |
| `Ingress.LateDeathCommitsTwice` | services/mqtt-ingress/main.py:1058-1062 | from any state: if the process dies between the commit and the key writes, the message commits again 30 s later |
| `Ingress.CommitsOnceExactly` | services/mqtt-ingress/main.py:1054-1062 | a committed message is safe from committing again within the day, whatever is delivered later, exactly if its process did not die there |
| `Ingress.AbortIsForgotten` | services/mqtt-ingress/main.py:1054-1057 | an aborted message leaves dedup keys, sequence positions and rows as they were; once its in-flight key is gone it is as if it had never come |
| `Ingress.VehicleFollowsAttempts` | services/mqtt-ingress/main.py:943-1062 | the gate drives each vehicle's boot rows through a history of attempts |
| `Ingress.GateKeepsEpochs` | services/mqtt-ingress/main.py:921-1062 | behind the gate too, one epoch per vehicle, and no message of a replaced boot is let in again |
| `FieldEvidence.StopFieldVerified` | apps/api/app/modules/robots/router.py:172-184 | verified exactly if a latest qualifying row carries the robot's current, non-empty boot id; if so, in every history that led here the boot id has not changed at any moment since the stop was requested, and the row's passes since then read five frames of stillness |
| `FieldEvidence.RowIsRun` | apps/api/app/modules/operations/router.py:854-867 | every stop row is the run of its own passes, created while the boot was known and the profile was not the read-only adapter's, and carries that boot |
| `FieldEvidence.EvidenceIsCurrent` | apps/api/app/modules/robots/router.py:172-184 | the same for any qualifying row with the current boot id, not only the latest |
| `LatestCache.VehicleLatest.HandleLocation` | services/mqtt-ingress/main.py:223-281 | a location writes its speeds, both stamps and its boot id into the cached reading, and leaves odometry speeds there |
| `LatestCache.VehicleLatest.HandleSensor` | services/mqtt-ingress/main.py:411-424 | a sensor message renews the receive stamp only |
| `LatestCache.VehicleLatest.ProcessInternalCompat` | services/mqtt-ingress/main.py:452-601 | adapter messages renew both stamps; only odometry writes speeds, the hiding ones included |
| `LatestCache.OthersKeepSpeeds` | services/task-worker/main.py:79-94 | any message but odometry, or a location while no odometry speeds hide it, leaves the judgement of the speeds as it is |
| `SystemHistories.LetInExactly` | services/mqtt-ingress/main.py:944-950 | which messages count: of the vehicle those on record whose boot is current or may begin, of the adapter odometry always, the rest if on record |
| `SystemHistories.CacheFollowsHistory` | services/mqtt-ingress/main.py:262-290 | after any events, each part of the cached reading is what the last message that brought it said: both stamps, location and odometry speeds, boot |
| `SystemHistories.BootFollowsHistory` | services/mqtt-ingress/main.py:128-161 | the boot on the robot row is the one begun last, by an availability (the adapter's too), heartbeat or capabilities message on record of a boot that was never current before |
| `SystemHistories.ReadOnlyExactly` | services/mqtt-ingress/main.py:951-975 | the profile is the read-only adapter's exactly if a message through the adapter or the migration tool made it so, and the tool did not give it back since |
| `SystemHistories.RowsAreCommands` | apps/api/app/modules/operations/router.py:836-867 | there are exactly as many stop rows as stops that were requested while the boot was known and the vehicle not read-only |
| `MotionReadings.StillnessIsDated` | services/task-worker/main.py:56-94 | where only one of locations, odometry and other adapter messages is in use, stillness rests on speeds whose source time is at most a second old |
| `MotionReadings.TwoFramesExactly` | services/task-worker/main.py:117-136 | two frames, a gap apart, can rest on one motion reading exactly if two of those three are in use, or sensor messages are and the gap is at most a second |
| `MotionReadings.MotionIsCurrent` | services/mqtt-ingress/main.py:128-176 | while a vehicle stays on one boot, as it does from the request of field-verified evidence on, a pass whose motion reading is a location received since then judges a reading of that boot |
| `MotionReadings.CachedBootIsCurrent` | services/mqtt-ingress/main.py:275 | and once a location has come since then, the boot id cached with the reading is the current one |
| `FieldReadings.ReadingsAreRecent` | services/task-worker/main.py:56-136 | with passes at least a second apart, the j-th of the five readings behind a qualifying row carries both stamps from no earlier than j - 1 seconds after the passes began |
| `FieldReadings.MotionsAreRecent` | services/task-worker/main.py:56-136 | so do its speeds, where only one of locations, odometry and other adapter messages is in use |
| `OlderReadings.OlderReadingExactly` | services/task-worker/main.py:66-94 | field verification, by passes after the request, can begin with speeds whose source time is d before it exactly if d is at most one second, or two of those three are in use |
| `OlderReadings.OneReadingExactly` | services/task-worker/main.py:79-136 | one motion reading from before the request, of any age, can make up all five frames exactly if two of those three are in use |
| `OlderReadings.OldBootExactly` | services/task-worker/main.py:66-94 | field verification can begin with a location of a boot that is over, from d before the request, exactly if d is at most one second, or adapter messages other than odometry are in use |
| `BridgeProcessor.BridgeState.CleanupLocked` | integration/ros1/vehicle-bridge/firebot_bridge/state.py:42-47 | exactly the records not touched for more than 300 s are dropped |
| `BridgeProcessor.BridgeState.RegisterCommand` | integration/ros1/vehicle-bridge/firebot_bridge/state.py:50-59 | a fresh record for the id, all other live records kept |
| `BridgeProcessor.BridgeState.GetCommandRecord` | integration/ros1/vehicle-bridge/firebot_bridge/state.py:61-64 | the live record for the id, if there is one |
| `BridgeProcessor.BridgeState.AcquireTask` | integration/ros1/vehicle-bridge/firebot_bridge/state.py:88-95 | the lock is taken exactly if it is free and the task id is not empty |
| `BridgeProcessor.BridgeState.ClearRosTelemetry` | integration/ros1/vehicle-bridge/firebot_bridge/state.py:169-187 | all ROS telemetry is forgotten; the lock and the dedup records cannot change |
| `BridgeProcessor.BridgeState.ExpireStaleTelemetry` | integration/ros1/vehicle-bridge/firebot_bridge/state.py:189-222 | a channel is reported stale once, until a value arrives again; the lock and the dedup records cannot change |
| `BridgeProcessor.CommandProcessor.OnCommand` | integration/ros1/vehicle-bridge/firebot_bridge/downlink/command_receiver.py:56-99 | the callback, with its replay, lock, delivery and timer branches, is one step of the value model |
| `BridgeProcessor.CommandProcessor.OnFeedback` | integration/ros1/vehicle-bridge/firebot_bridge/downlink/command_receiver.py:102-145 | the feedback callback is one step of the value model |
| `BridgeProcessor.CommandProcessor.OnTimeout` | integration/ros1/vehicle-bridge/firebot_bridge/downlink/command_receiver.py:154-162 | the timer callback is one step of the value model |
| `BridgeLock.StepExactly` | integration/ros1/vehicle-bridge/firebot_bridge/downlink/command_receiver.py:88-95 | one callback leaves a sound lock sound exactly if it does not deliver a command under the id of a pending task; if it does, the lock is held by nobody |
| `BridgeLock.LockExactly` | integration/ros1/vehicle-bridge/firebot_bridge/downlink/command_receiver.py:75-162 | after any session the lock is held exactly if one pending record is a task command, by that task, with never more than one such, if and only if no command took over the pending entry of a task |
| `BridgeLock.LockInvariant` | integration/ros1/vehicle-bridge/firebot_bridge/downlink/command_receiver.py:75-162 | so it is in every session in which one id names one command |
| `BridgeLock.LeakStays` | integration/ros1/vehicle-bridge/firebot_bridge/downlink/command_receiver.py:75-162 | from a leaked lock no callback releases it, and no task command is handed over |
| `BridgeLock.LeakIsPermanent` | integration/ros1/vehicle-bridge/firebot_bridge/downlink/command_receiver.py:75-162 | for ever: in every continuation of the session the leaked lock keeps its value |
| `BridgeLock.ReusedIdLeaksLock` | integration/ros1/vehicle-bridge/firebot_bridge/downlink/command_receiver.py:88-95 | the leak does happen: a task is accepted, its record runs out, and a stop command under the same id takes over its pending entry; whatever follows, the lock stays held |
| `BridgeAcks.AckDiscipline` | integration/ros1/vehicle-bridge/firebot_bridge/downlink/command_receiver.py:56-162 | in every session: accepted ACKs are justified, task statuses come from task commands only, every live record is acked, finally reported, or pending with a running timer |
| `BridgeAcks.AcceptedAckHasReasons` | integration/ros1/vehicle-bridge/firebot_bridge/downlink/command_receiver.py:116-125 | every accepted ACK in the log is preceded by a delivered hand-over and, after it, a ROS acceptance of that command |
| `BridgeAcks.ExpiryIsNeverReplayed` | integration/ros1/vehicle-bridge/firebot_bridge/downlink/command_receiver.py:56-79 | an expired redelivery replaces the remembered ACK, but no replayed ACK is ever a COMMAND_EXPIRED one |
| `BridgeReplies.RepliesAreTrue` | integration/ros1/vehicle-bridge/firebot_bridge/downlink/command_receiver.py:102-145 | in every session: whatever ROS says about a pending command is passed on at once with its own meaning, phase and progress, and every fresh status, accepted ACK and rejection in ROS's name comes right after that word of ROS |
| `BridgeMemory.TablesFollowLog` | integration/ros1/vehicle-bridge/firebot_bridge/downlink/command_receiver.py:56-152 | in every session the tables are functions of the log: pending is what was delivered and neither settled by ROS nor given up, acknowledged what ROS accepted since, and a record remembers the last ACK and status since its command came |
| `BridgeAnswers.RefusedExactly` | integration/ros1/vehicle-bridge/firebot_bridge/protocol.py:86-112 | each reason of refusal means exactly what it says, and a command passes exactly if none holds |
| `BridgeAnswers.DeliveryIsAnswered` | integration/ros1/vehicle-bridge/firebot_bridge/downlink/command_receiver.py:56-99 | the answer to any delivery, from what was said so far: refused for its reason, repeated if remembered for up to 300 s, refused if it is a task while another is out, else handed to ROS |
| `BridgeAnswers.HeardExactly` | integration/ros1/vehicle-bridge/firebot_bridge/downlink/command_receiver.py:102-109 | ROS is heard exactly about the commands that are out |
| `BridgeAnswers.TimeoutExactly` | integration/ros1/vehicle-bridge/firebot_bridge/downlink/command_receiver.py:154-162 | a timer gives a command up exactly if it is out and ROS has not accepted it |
| `BridgeAnswers.RecordsAreDated` | integration/ros1/vehicle-bridge/firebot_bridge/state.py:50-85 | whatever a callback writes into a record it dates with its own time |
| `BridgeOnce.HandsOverIsLogged` | integration/ros1/vehicle-bridge/firebot_bridge/downlink/command_receiver.py:81-86 | the hand-over condition is what the log says: such a receipt adds one hand-over entry, nothing else adds any |
| `BridgeOnce.HandedIsFit` | integration/ros1/vehicle-bridge/firebot_bridge/downlink/command_validator.py:8-24 | what reaches ROS is unexpired, supported, for this boot (or a boot-less emergency stop), not on record, and a task command has an id and finds the lock free |
| `BridgeOnce.SameBootNoRestart` | integration/ros1/vehicle-bridge/firebot_bridge/identity.py:17 | two moments on one boot id have no restart between them |
| `BridgeOnce.RecordIsKept` | integration/ros1/vehicle-bridge/firebot_bridge/state.py:42-85 | for 300 s after the callback that handed it over the command stays on record, whatever else happens |
| `BridgeOnce.HandedAtMostOnce` | integration/ros1/vehicle-bridge/firebot_bridge/protocol.py:95-112 | a boot-bound command that expires at most 300 s, less the longest callback, after some receipt of it is handed to ROS at most once, under any redeliveries, feedback, timeouts and restarts; validation, look-up and registration each read the clock |
| `BridgeOnce.OnceExactly` | integration/ros1/vehicle-bridge/firebot_bridge/state.py:42-47 | a command that can be handed over at all is handed over at most once in every history exactly if it is bound to a boot and expires at most 300 s, less the longest callback, after it was handed over, to the microsecond |
| `BridgeOnce.LongLivedHandedTwice` | integration/ros1/vehicle-bridge/firebot_bridge/state.py:42-47 | a longer-lived command outlives its record and is handed over again |
| `BridgeOnce.UnboundHandedAgain` | integration/ros1/vehicle-bridge/firebot_bridge/protocol.py:106-109 | any command without a target boot, received twice at one instant around a restart, is handed over twice |
| `Outbox.OutboxEvent.Dispatch` | services/command-dispatcher/main.py:188-209 | one transaction on a selected row; a rollback leaves it as it was; the command's lifecycle agrees with the row |
| `Outbox.OutboxTurn` | services/command-dispatcher/main.py:175-209 | an oldest due row takes its step, no other row changes, and nothing happens only if no row is due |
| `Outbox.FailuresAreSpaced` | services/command-dispatcher/main.py:204-209 | the k-th recorded failure comes no earlier than the first plus the waits between them |
| `Outbox.FailuresExactly` | services/command-dispatcher/main.py:37-50 | k recorded failures are possible within a lifetime exactly if the first k - 1 waits fit into it |
| `Outbox.FailuresInNumbers` | services/command-dispatcher/main.py:204-209 | the same in numbers: waits of 2, 4, 8 and 16 s and then of 30 s each |
| `Outbox.DefaultAllowsFour` | apps/api/app/modules/commands/service.py:204-214 | the default 30 s lifetime allows four recorded failures and no fifth |
| `Outbox.EndedStays` | services/command-dispatcher/main.py:176-184 | published and expired rows are never taken up again |
| `Outbox.RowEndsExactlyIfValid` | services/command-dispatcher/main.py:189-209 | 30 s after the last cycle and past the expiry, a committed cycle ends the row exactly if its payload is schema-valid; an invalid one is retried for ever |
| `Outbox.OneCommittedSend` | services/command-dispatcher/main.py:189-193 | a published row was confirmed by exactly one committed cycle |
| `Outbox.PublishedWhenSent` | services/command-dispatcher/main.py:189-193 | and is dated with the end of that cycle |
| `Outbox.RolledBackSendRepeats` | services/command-dispatcher/main.py:175-213 | a confirmation whose transaction is rolled back is sent again |
| `Outbox.UnconfirmedSendRepeats` | services/command-dispatcher/main.py:37-50 | an attempt that is not confirmed within 3 s has handed the command to the MQTT client all the same, and so does the next |
| `SafetyStreams.SafetyStream.Enqueue` | apps/api/app/modules/commands/service.py:299-307 | a new entry goes to the end, and only entries older than the newest 1000 may be trimmed |
| `SafetyStreams.SafetyStream.ProcessSafetyEvents` | services/command-dispatcher/main.py:137-166 | an event is acknowledged exactly if it was published or had expired and the transaction committed |
| `SafetyStreams.SentExactly` | services/command-dispatcher/main.py:37-50 | an entry counts as published in a batch exactly if some delivery of it was valid, in time and confirmed |
| `SafetyStreams.AckedExactly` | services/command-dispatcher/main.py:137-166 | over any run, an entry is acknowledged exactly if some later batch published it or found it expired, on record |
| `SafetyStreams.NothingIsLost` | services/command-dispatcher/main.py:99-166 | while fewer than 1000 newer entries have arrived, a safety command can be claimed exactly if it is not settled in that sense |
| `SafetyStreams.ClaimableExactly` | apps/api/app/modules/commands/service.py:299-307 | it is sure to be claimable, however the store trims, exactly if it is not settled and fewer than 1000 newer ones have arrived |
| `EndToEnd.LagExactly` | apps/api/app/modules/commands/service.py:204-248 | for boot-bound commands of any lifetime, over any outbox run, where every cycle that reaches the MQTT client may have the command delivered any number of times from then on, confirmed or not: handed over at most once in every history exactly if the vehicle clock lags by at most 300 s, less the lifetime and the longest callback |
| `EndToEnd.DurableCommandOnce` | apps/api/app/modules/commands/service.py:204-248 | with the default lifetime, exactly if the lag is at most 270 s, less the longest callback |
| `EndToEnd.SafetyLagExactly` | services/command-dispatcher/main.py:99-166 | the same for what the safety stream carries, however often an entry is reclaimed and published |
| `EndToEnd.SafetyCommandOnce` | apps/api/app/modules/commands/service.py:251-261 | a safety command for a known boot, over any run of its stream: at most once, exactly if the lag is at most 297 s, less the longest callback |

## Left out

- SlotClearance.HitExactly: for a box of negative extent, which legs are reported is not characterised beyond `SlotClearance.SoundExactly`.
- Dijkstra.Search: the heap is a multiset with a least-entry pop; its array layout is not modelled.
- Outbox.FailuresExactly: counts recorded failures. An attempt whose own transaction is rolled back leaves no trace in the row and is not spaced by it; how often that happens is not bounded.
- Outbox.RowEndsExactlyIfValid: assumes some committed cycle comes late enough; the dispatcher loop itself, its sleeps and the competition between rows are not modelled.
- SafetyStreams.NothingIsLost: which consumer claims an entry, and when, is not modelled; a claimable entry may be in any batch or none.
- BridgeOnce.HandedAtMostOnce: the lengths of callbacks are bounded by a parameter; nothing in the source bounds them.
- EndToEnd.SafetyCommandOnce: for commands bound to a boot; a safety command for a vehicle without a known boot is an unbound one (`BridgeOnce.UnboundHandedAgain`).
- BridgeLock.LockInvariant: interleavings inside one callback are out of scope, as are the mutexes.
- CruiseRoutes.BuildCruiseWaypoints: a slot carries the number its code ends in; parsing the code is not modelled.
- DemoCruises.CruiseIsClear: the clearance of 0.3 m is a constant of the route builder that nothing in the code applies; the poses the vehicle takes between the waypoints, and its own width, are not modelled.
- CruiseRoutes.SlotIsOnRight: sine and cosine of the three headings are exact (0, 1 and -1).
- Resumes.NeverSkips: the cursor is given. With no cursor on record the source infers one from the pose by projecting onto the route; that inference is not modelled.
- MockRobots.MockRobot.SimulateTask: a drive reaches its waypoints in order or halts between two of them; the follower's control law, its stall watchdog with the failed status it publishes, the poses in between, and a cancellation in the middle of an arrival or during the pause after the extinguishing status are not modelled.
- FieldEvidence.EvidenceIsCurrent: supposes, as `BootSessions.NeverRecursExactly` shows it must, that vehicles do not use the empty boot id.
- FieldReadings.ReadingsAreRecent: the time of the first pass is a parameter; a request that is committed while a pass is under way is read by a pass whose clock reading is older.
- MotionReadings.StillnessIsDated: a motion reading is as old as the source time of its message; that the ROS adapter copies its last odometry into the locations it makes, and how far a vehicle's clock is off, are not modelled.
- LatestCache.VehicleLatest.ProcessInternalCompat: each handler reads and writes the cached reading in one step, so no handler overwrites another's update; fields that the stop judgement does not read, and the boot id of the adapter, are left out.
- StopTelemetry.StillnessIsSlow: squared speeds instead of `hypot`; parsing of timestamps and numbers is reduced to the kinds of value that can result.
- Ingress.IngressService.Process: handlers of the individual message kinds, rate limits, payload limits and the namespace of ROS-compatible vehicles; keys expire exactly on time.
- JSON Schema validation is a flag on a payload; MQTT, Redis, SQL, HTTP routing and threads are maps, inputs and atomic steps.
- ROS nodes and subprocess management: only the feedback messages they may send, in any order.
- Manual control pulses: published at most once each and dropped on any error; nothing to prove beyond the body.
- Patrol scheduling, leases, alarms, media, reports, audit records, traces, seed data and the web interface.

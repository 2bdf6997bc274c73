# Verified models of a ROS 2 navigation workspace

A Dafny model of the decision logic in this workspace, with proofs of what that logic is for. Four parts
are modelled, each in the form the program has: objects with fields that methods change, loops over arrays,
and recursion where the program recurses.

* **Collision monitor.** Obstacle points are counted inside polygons and circles (a ray-crossing test),
  APPROACH shapes simulate the robot forward, every shape proposes an action, a loop with an early exit folds
  the proposals into one velocity, and a small protocol decides whether that velocity is published.
  `Plane`, `Paths`, `RayCrossing`, `ConvexPolygons`, `Kinematics`, `Counting`, `Zones`, `SafeVelocity`,
  `ZoneOrder`, `StraightAhead`, `CollisionMonitor`, `StopProtocol`.
* **Text and configuration.** The bracket-depth parser for nested arrays, the polygon printer and reader built
  on it, and the merge of YAML overlays. `Numerals`, `WrittenNumbers`, `ArrayParser`, `PolygonText`, `WrittenArrays` (numbers and nested arrays as people
  write them), `Overlay` (what a merge
  means, on values), `DeepMerge` (the merge in place, on mapping objects).
* **Localisation and mapping.** The processor-type protocol of slam_toolbox with its SE(2) bookkeeping, the index
  that the Ceres solver keeps over its problem, and AMCL's laser registry with its odometry account.
  `RigidTransforms`, `SlamSession`, `PoseGraphSolver`, `Amcl`.
* **Signals.** The speckle and interpolation filters and the yaw accumulation of the spin behaviour.
  `SpeckleFilter`, `InterpolationFilter`, `SpinBehavior`.

Each operation is a method proved against a specification function, and the theorems are about that function:
over all inputs, all reachable states or all runs. A run is a sequence of callbacks, each one atomic.

## What the theorems rest on

* Floating-point values are exact reals. `cos` and `sin` are any two functions with cos² + sin² = 1 at every
  angle (and, where a theorem says so, with the addition formulas or their values at zero), pi and `sqrt` and the wrapping of an angle are parameters with the contract that the theorem states. A
  rigid transform of the plane holds its heading as the pair (cos, sin).
* Sensor points, tf answers, the clock, the footprint, the mapper's verdict on a scan, Ceres' solution and the
  success of a filter update are parameters that may take any value.
* Of Ceres the documented contract is used: a residual block brings its parameter blocks, removing a parameter
  block removes the residuals that depend on it, and only a live residual may be removed. The stored iterator
  `first_node_` is taken to survive insertions into the hash map, as it does in libstdc++ although the language
  standard lets a rehash invalidate it; only the removal of its node makes it dangle.
* Numbers in text follow `num_get` in the C locale (sign, digits, point, exponent, digits needed in the
  mantissa) and `"%f"` with six decimals, ties to even.
* `requires` that name `Runnable` exclude one configuration: an APPROACH shape whose horizon is not negative and
  whose simulation step is not positive (the program's loop need not end). With a horizon of zero the collision
  time can only be zero as well, and the program's 0 / 0 is not a number, so that every comparison with it is
  false: such a shape is modelled as never changing the action.

## What does not hold, and exactly when it does

* The chosen velocity can depend on the order of the shapes when a slowdown ratio is negative
  (`NegativeRatioDependsOnOrder`). It is the same in all orders if and only if no two shapes clash: the command is
  not zero and two shapes ask for the least speed, below the command's, in opposite directions (`OrderExactly`).
  Speed and STOP never depend on the order.
* Applying an overlay twice is applying it once exactly when no null is copied into the base
  (`IdempotentExactly`; `CopiedNullIsTakenOut` is a case where one is).
* Overlays regroup, merge(merge(b, o1), o2) = merge(b, merge(o1, o2)), if and only if at every level the recursion
  reaches o2 deletes nothing that b names and o1 puts no leaf and no null between two mappings of b and o2 that
  o2 does not replace completely (`RegroupExactly`, for all overlays, nulls included; `NullDoesNotRegroup` is a
  case). Overlays of the same shape regroup when the second one holds no null (`NullFreeRegroups`).
* AMCL looks a frame id up without its leading slash and stores it with it. A later scanner can be left without a
  laser (`SlashedFrameBreaksRegistry`), and a scan can be served as another scanner's
  (`SlashedFrameIsServedAsAnother`). Every scan has a laser until one adds a frame to a table with more entries than
  there are lasers (`RunDefinedExactly`); the table stays one of distinct lasers if and only if the index that a scan
  writes is one of a laser that no other frame holds (`SoundExactly`). With plain frame ids both always hold
  (`ScannersAlwaysDefined`).
* A scan that continues an older session joins it if and only if tf knows the base at its stamp, or the old transform
  happens to fit (`RejoinedSession`, `SessionContinues` over runs). When tf fails the request is used up all the same
  and no later scan rejoins (`RequestUsedInVain`, `SessionCanBeLost`).
* A filter update that fails makes AMCL count the same movement twice (`FailedUpdateCountsTwice`);
  `OdometryAccount` says by how much.
* Removing a node that a residual joins, or adding a constraint whose key is in use, separates the solver's index
  from its problem (`AgreementExactly`, over whole runs and in terms of node pairs `NewPairsExactly`;
  after `StaleResidual`'s four calls removing a constraint hands Ceres a residual that is gone); removing the node about to be pinned leaves `first_node_` dangling
  (`ComputableExactly`, `FirstNodeCanDangle`).
* The look-ahead of the spin behaviour checks nothing in a cycle whose accumulated turn is zero
  (`CanRefuseExactly`).
* The interpolation filter is there to make invalid readings valid; that holds exactly when range_min is below
  range_max - 0.01 (`OutputsAcceptedExactly`).

## Model

| member | source | states |
|---|---|---|
| RayCrossing.IsPointInside | navigation2/nav2_collision_monitor/src/polygon.cpp:387-417 | The loop answers by the parity of the edges of the closed polygon that the ray towards +x meets, for every vertex list, empty ones included |
| RayCrossing.InPolygon | laser_filters/include/laser_filters/polygon_filter.h:329-343 | The same for the laser filter's own edge test, with its own choice of which end of an edge is open |
| RayCrossing.TogglesMeaning | navigation2/nav2_collision_monitor/src/polygon.cpp:400-413 | An edge inverts the answer if and only if it goes up or down through the point's height with the point strictly on the proper side; the divisor is not zero there and no quotient is left |
| RayCrossing.TogglesSplit | navigation2/nav2_collision_monitor/src/polygon.cpp:400-413 | The edges counted are the upward and the downward ones to the right of the point |
| RayCrossing.OddLeavesOneOut | navigation2/nav2_collision_monitor/src/polygon.cpp:387-417 | Edges that straddle a height are even in number, so an answer of true leaves a straddling edge that does not toggle |
| RayCrossing.InsideImpliesBox | navigation2/nav2_collision_monitor/src/polygon.cpp:387-417 | For any polygon at all, an answer of true implies min_x <= x < max_x and min_y < y <= max_y |
| RayCrossing.TestsAgreeMirrored | laser_filters/include/laser_filters/polygon_filter.h:329-343 | On every input the collision monitor's test equals the laser filter's test on the y-mirrored polygon and point |
| RayCrossing.TestsAgreeOffVertices | laser_filters/include/laser_filters/polygon_filter.h:329-343 | Both tests agree unless a vertex lies on the ray itself, at the point's height and strictly to its right |
| RayCrossing.InsideRotated | navigation2/nav2_collision_monitor/src/polygon.cpp:398-415 | Neither test depends on the vertex at which the list starts |
| RayCrossing.InsideReversed | navigation2/nav2_collision_monitor/src/polygon.cpp:398-415 | Neither test depends on the direction of the list |
| Paths.UpEqualsDown | navigation2/nav2_collision_monitor/src/polygon.cpp:398-404 | A closed path leaves a half plane as often as it enters it |
| ConvexPolygons.OneEdgeEachWay | navigation2/nav2_collision_monitor/src/polygon.cpp:400-413 | In a strictly convex polygon no two edges go up, and no two go down, through one height |
| ConvexPolygons.StrictlyInsideIsInside | navigation2/nav2_collision_monitor/src/polygon.cpp:387-417 | A point strictly left of every edge of a strictly convex polygon is reported inside |
| ConvexPolygons.StrictlyOutsideIsOutside | navigation2/nav2_collision_monitor/src/polygon.cpp:387-417 | A point strictly right of some edge is reported outside |
| ConvexPolygons.ConvexTestIsExact | navigation2/nav2_collision_monitor/src/polygon.cpp:387-417 | For either orientation of a strictly convex polygon and every point, boundary included: true if and only if the point is on or right of the edge that goes down through its height and strictly left of the one that goes up, a height belonging to an edge's upper end and not to its lower; hence true strictly inside and false strictly outside |
| ConvexPolygons.BetweenMeansInside | navigation2/nav2_collision_monitor/src/polygon.cpp:387-417 | A point between the two sides at its height is reported inside |
| ConvexPolygons.InsideMeansBetween | navigation2/nav2_collision_monitor/src/polygon.cpp:387-417 | And only such a point is |
| ConvexPolygons.FilterConvexTestIsExact | laser_filters/include/laser_filters/polygon_filter.h:329-343 | The same for the laser filter's test, where a height belongs to an edge's lower end and not to its upper |
| Kinematics.ProjectState | navigation2/nav2_collision_monitor/src/kinematics.cpp:44-68 | One simulation step: the pose moves by the old velocity, which is then turned; the new state is the specified one |
| Kinematics.TransformPoints | navigation2/nav2_collision_monitor/src/kinematics.cpp:22-42 | In place, every point becomes its coordinates in the frame at the pose |
| Kinematics.FrameKeepsDistances | navigation2/nav2_collision_monitor/src/kinematics.cpp:22-42 | The change of frame keeps all pairwise distances |
| Kinematics.FrameRoundTrip | navigation2/nav2_collision_monitor/src/kinematics.cpp:28-36 | p = R p' + pose brings every point back |
| Kinematics.SeenFromPose | navigation2/nav2_collision_monitor/src/kinematics.cpp:28-40 | The point d ahead and l to the left of a robot at the pose gets the coordinates (d, l) |
| Kinematics.SpeedConserved | navigation2/nav2_collision_monitor/src/kinematics.cpp:59-67 | Linear speed is the same after any number of steps |
| Kinematics.HeadingIsLinear | navigation2/nav2_collision_monitor/src/kinematics.cpp:46-57 | After n steps the turn rate is unchanged and the heading is n * tw * dt |
| Kinematics.StraightMotion | navigation2/nav2_collision_monitor/src/kinematics.cpp:44-68 | Without turning the velocity is kept and after n steps the pose is n * dt times it, in its direction |
| Kinematics.MotionFollowsHeading | navigation2/nav2_collision_monitor/src/kinematics.cpp:44-68 | At every step the velocity is the command turned by the simulated heading, and the next step moves the robot by dt times that velocity |
| Kinematics.DisplacementBound | navigation2/nav2_collision_monitor/src/kinematics.cpp:44-68 | After n steps of any length that is not negative, the pose is within n * dt * speed of its start |
| Counting.CountIfMonotone | navigation2/nav2_collision_monitor/src/polygon.cpp:164-173 | The count depends on the multiset of points only and grows with it, for polygons and circles alike |
| Zones.Polygon.UpdatePolygon | navigation2/nav2_collision_monitor/src/polygon.cpp:142-162 | The outline becomes the footprint if there is a subscription and stays otherwise; nothing else changes |
| Zones.Polygon.GetPointsInside | navigation2/nav2_collision_monitor/src/polygon.cpp:164-173 | Counts exactly the points covered by the shape, polygon or circle |
| Zones.Polygon.CountFrom | navigation2/nav2_collision_monitor/src/polygon.cpp:196-201 | Counts the points covered from a pose, each step starting from the untransformed points |
| Zones.Polygon.GetCollisionTime | navigation2/nav2_collision_monitor/src/polygon.cpp:175-208 | 0 when at least max_points are covered now; otherwise k * dt for the least k with k * dt within the horizon whose pose after k + 1 steps covers more than max_points; -1 if there is none; it terminates |
| Zones.CollisionTimeUnique | navigation2/nav2_collision_monitor/src/polygon.cpp:175-208 | That meaning determines the result |
| Zones.CollidesMonotone | navigation2/nav2_collision_monitor/src/polygon.cpp:186-204 | Added points keep every static and every simulated hit |
| Zones.CollisionTimeMonotone | navigation2/nav2_collision_monitor/src/polygon.cpp:175-208 | With -1 read as never, added points can only bring the collision forward |
| Zones.CollisionTimeRange | navigation2/nav2_collision_monitor/src/polygon.cpp:175-208 | The result is -1, or lies between 0 and the horizon |
| StraightAhead.DiscCovers | navigation2/nav2_collision_monitor/src/circle.cpp:61-71 | A circle covers a point if and only if the point's distance is less than the radius |
| StraightAhead.SquareCovers | navigation2/nav2_collision_monitor/src/polygon.cpp:387-417 | A square outline covers its inside, its left and its upper side and nothing else |
| StraightAhead.StandingStill | navigation2/nav2_collision_monitor/src/polygon.cpp:186-207 | Exactly max_points covered points are enough at once: a robot that stands has collision time 0 from max_points on and none below |
| StraightAhead.FewPointsNeverHit | navigation2/nav2_collision_monitor/src/polygon.cpp:201-207 | In the simulation they are not enough: max_points points or fewer, wherever they are, never give a simulated hit, whatever the motion |
| StraightAhead.FirstCollision | navigation2/nav2_collision_monitor/src/polygon.cpp:191-207 | The first step whose pose collides decides, horizon included |
| StraightAhead.StraightHit | navigation2/nav2_collision_monitor/src/polygon.cpp:175-208 | More than max_points obstacles at a gap before any shape that is deep enough not to be jumped over in one step, approached straight: the collision time is the number of whole steps that fit into the gap times dt, within the horizon, and -1 beyond it |
| StraightAhead.StraightApproach | navigation2/nav2_collision_monitor/src/collision_monitor_node.cpp:434-458 | End to end for one APPROACH shape: the command is then slowed down in the ratio of that time and the horizon |
| StraightAhead.SquareAhead | navigation2/nav2_collision_monitor/src/polygon.cpp:387-417 | Any point before the front of a square, at a height the square has, is such an obstacle, the gap being its distance from the front |
| SafeVelocity.StopExactly | navigation2/nav2_collision_monitor/src/collision_monitor_node.cpp:368-389 | Despite the early break the action is STOP if and only if some enabled STOP shape holds more than its max_points |
| SafeVelocity.ActionIsExplained | navigation2/nav2_collision_monitor/src/collision_monitor_node.cpp:405-458 | For every configuration, a SLOWDOWN or APPROACH action's velocity is the command times the ratio of an enabled, triggered shape of that kind; without an action it is the command |
| SafeVelocity.SpeedIsLeast | navigation2/nav2_collision_monitor/src/collision_monitor_node.cpp:363-389 | For every configuration, the squared speed chosen is the command's times the least of 1 and the squared ratios of the triggered shapes |
| SafeVelocity.VelocityIsLeast | navigation2/nav2_collision_monitor/src/collision_monitor_node.cpp:363-389 | With ratios that are not negative, the velocity is the command scaled by the least of 1 and the ratios, STOP counting 0 |
| ZoneOrder.ChosenFactor | navigation2/nav2_collision_monitor/src/collision_monitor_node.cpp:363-389 | For every configuration and every command that is not zero, the velocity is the command times the ratio of the first shape with the least squared ratio below 1, and the command itself without such a shape |
| ZoneOrder.FactorIsLeast | navigation2/nav2_collision_monitor/src/collision_monitor_node.cpp:419-428 | That factor squared is the least of 1 and the squared ratios, and it is the ratio of some shape or 1 |
| ZoneOrder.FirstDecides | navigation2/nav2_collision_monitor/src/collision_monitor_node.cpp:421-427 | A shape that is listed first and attains the least decides: only a strictly slower velocity replaces a chosen one |
| ZoneOrder.OrderDoesNotMatter | navigation2/nav2_collision_monitor/src/collision_monitor_node.cpp:368-389 | Listing the shapes in another order changes neither speed nor STOP, nor the velocity when no two shapes clash, in particular when no ratio is negative |
| ZoneOrder.OrderExactly | navigation2/nav2_collision_monitor/src/collision_monitor_node.cpp:368-389 | For every list of shapes and every scene, the velocity is the same in all orders if and only if no two shapes ask for the least speed below the command's in opposite directions |
| ZoneOrder.NegativeRatioDependsOnOrder | navigation2/nav2_collision_monitor/src/collision_monitor_node.cpp:419-428 | A concrete pair of shapes for which the velocity does depend on the order |
| SafeVelocity.RatioMonotone | navigation2/nav2_collision_monitor/src/collision_monitor_node.cpp:405-458 | Added obstacle points never raise what one shape allows |
| SafeVelocity.MoreObstaclesNeverFaster | navigation2/nav2_collision_monitor/src/collision_monitor_node.cpp:343-458 | End to end: for fixed shapes and command, added obstacle points never make the chosen velocity faster, and a stop stays a stop |
| SafeVelocity.NeverFasterThanCommand | navigation2/nav2_collision_monitor/include/nav2_collision_monitor/types.hpp:28-39 | Under the comparison of x² + y² + tw² the chosen velocity is never above the command |
| CollisionMonitor.Node.constructor | navigation2/nav2_collision_monitor/src/collision_monitor_node.cpp:30-35 | The node starts inactive, with the reset velocity (-1, -1, -1) and stamp zero |
| CollisionMonitor.Node.OnActivate | navigation2/nav2_collision_monitor/src/collision_monitor_node.cpp:73-97 | Activation sets the active flag only |
| CollisionMonitor.Node.OnDeactivate | navigation2/nav2_collision_monitor/src/collision_monitor_node.cpp:99-122 | Deactivation also resets the remembered velocity |
| CollisionMonitor.Node.PublishVelocity | navigation2/nav2_collision_monitor/src/collision_monitor_node.cpp:160-181 | What is published and when the stop stamp is taken, as functions of the state and the clock |
| CollisionMonitor.Node.ProcessStopSlowdown | navigation2/nav2_collision_monitor/src/collision_monitor_node.cpp:405-432 | The step of a STOP or SLOWDOWN shape; false is returned only when the action stays |
| CollisionMonitor.Node.ProcessApproach | navigation2/nav2_collision_monitor/src/collision_monitor_node.cpp:434-458 | The step of an APPROACH shape, on its refreshed outline; without effect when the horizon is zero |
| CollisionMonitor.Node.VisitZone | navigation2/nav2_collision_monitor/src/collision_monitor_node.cpp:368-388 | One pass of the loop over the shapes: skip, break or step; only this shape's outline may change |
| CollisionMonitor.Node.ChooseAction | navigation2/nav2_collision_monitor/src/collision_monitor_node.cpp:363-389 | The loop over the shape objects yields the fold over their refreshed values, and refreshes the outlines of those it reaches and no others |
| CollisionMonitor.BreakIsFinal | navigation2/nav2_collision_monitor/src/collision_monitor_node.cpp:372-375 | Breaking at a STOP gives what the whole list would have given, and leaves the outlines of the rest |
| CollisionMonitor.Node.Process | navigation2/nav2_collision_monitor/src/collision_monitor_node.cpp:343-403 | A command on an inactive node changes and publishes nothing; on an active one the chosen velocity goes through the publishing protocol and is remembered; only enabled APPROACH shapes with a subscription take over a footprint |
| StopProtocol.FieldsFollowHistory | navigation2/nav2_collision_monitor/src/collision_monitor_node.cpp:160-181 | Over all runs, active flag, remembered velocity and stop stamp are what the history of callbacks says: active, in a streak of zeros, when the streak began |
| StopProtocol.SuppressedExactly | navigation2/nav2_collision_monitor/src/collision_monitor_node.cpp:160-181 | In every run an active node keeps a command back exactly when it is zero, a streak of zeros is under way, and it began more than the timeout ago |
| StopProtocol.StreakIsPublished | navigation2/nav2_collision_monitor/src/collision_monitor_node.cpp:160-181 | During a streak, the last velocity that went out since the last deactivation is zero |
| StopProtocol.SuppressedOnlyAfterZero | navigation2/nav2_collision_monitor/src/collision_monitor_node.cpp:160-181 | Only a zero is ever kept back, and only when the last published velocity is zero too |
| StopProtocol.FirstZeroGoesOut | navigation2/nav2_collision_monitor/src/collision_monitor_node.cpp:104-108 | The first zero after a deactivation or a moving command is published and starts a streak |
| StopProtocol.InactiveIsSilent | navigation2/nav2_collision_monitor/src/collision_monitor_node.cpp:348-351 | An inactive node publishes nothing and its memory does not change |
| Numerals.RoundedIsClose | laser_filters/include/laser_filters/polygon_filter.h:200 | Printing with six decimals moves a number by at most half a millionth and keeps whole millionths |
| Numerals.TiesGoToEven | laser_filters/include/laser_filters/polygon_filter.h:200 | Half way between two millionths the even one is printed |
| WrittenNumbers.PrintedIsWritten | laser_filters/include/laser_filters/polygon_filter.h:200 | What is printed is a number with a minus sign only, no leading zeros and six digits after the point |
| Numerals.ScanPrinted | laser_filters/include/laser_filters/polygon_filter.h:132-133 | Reading a number takes exactly the printed characters, whatever follows that ends a number, and yields the rounded value with its sign |
| WrittenNumbers.ScanWritten | laser_filters/include/laser_filters/polygon_filter.h:132-133 | Every number written with optional sign, whole part, point and fraction, and exponent, in front of any text that ends it, is taken whole and read with its value digit by digit |
| WrittenNumbers.WholeDigit | laser_filters/include/laser_filters/polygon_filter.h:132-133 | A further digit of the whole part makes the value ten times as much, and the digit more |
| WrittenNumbers.FractionDigit | laser_filters/include/laser_filters/polygon_filter.h:132-133 | A further digit after the point adds that many units of its place; a zero adds nothing |
| ArrayParser.ParseVVF | laser_filters/include/laser_filters/polygon_filter.h:83-152 | The loop terminates on every string and computes the specified machine: result so far and error, for every error case |
| ArrayParser.DepthIsSurplus | laser_filters/include/laser_filters/polygon_filter.h:96-118 | From any machine state, an accepted rest closes as many brackets as are open and as it opens |
| ArrayParser.AcceptedIsBalanced | navigation2/nav2_costmap_2d/src/array_parser.cpp:44-103 | Every accepted text has as many opening as closing brackets; both copies of the parser are this machine |
| ArrayParser.ReadRows | navigation2/nav2_costmap_2d/src/array_parser.cpp:44-103 | Printed rows are read one by one from any state at depth one, in front of any remaining text |
| ArrayParser.ParsePrinted | laser_filters/include/laser_filters/polygon_filter.h:83-152 | Every nested array with rows of any length, empty ones included, is read back without error, each number rounded to six decimals |
| WrittenArrays.ParseWritten | navigation2/nav2_costmap_2d/src/array_parser.cpp:44-103 | Every nested array of such numbers, with any commas, blanks and tabs between its parts and any white space before its numbers, is read with the numbers' values |
| WrittenArrays.BrokenOff | laser_filters/include/laser_filters/polygon_filter.h:142-145 | A text that ends before its last bracket gives the rows read so far and the error for it |
| WrittenArrays.OpenedTooDeep | laser_filters/include/laser_filters/polygon_filter.h:98-102 | So does a bracket opened inside a row |
| WrittenArrays.ClosedTooOften | laser_filters/include/laser_filters/polygon_filter.h:107-112 | So does a bracket too many at the end |
| WrittenArrays.StandsOutside | laser_filters/include/laser_filters/polygon_filter.h:125-131 | So does any other character outside the rows, line ends included |
| WrittenArrays.NoNumber | laser_filters/include/laser_filters/polygon_filter.h:132-138 | Something that cannot start a number in a row ends the parse as unterminated |
| WrittenArrays.LineEndBeforeClose | laser_filters/include/laser_filters/polygon_filter.h:132-138 | So does a line end right before a closing bracket |
| PolygonText.PolygonToString | laser_filters/include/laser_filters/polygon_filter.h:191-204 | The text of the list of coordinate pairs; z is not printed |
| PolygonText.MakePolygonFromString | laser_filters/include/laser_filters/polygon_filter.h:154-189 | The parsed polygon with z = 0, or the last polygon on an error, on one or two rows, or on a row that is no pair |
| WrittenArrays.MakePolygonWritten | laser_filters/include/laser_filters/polygon_filter.h:154-189 | Every written array becomes the polygon of its pairs if it has no rows or at least three and all are pairs; otherwise the last polygon stays |
| WrittenArrays.UnbalancedKeepsLast | laser_filters/include/laser_filters/polygon_filter.h:159-162 | A text in which brackets are missing or left over keeps the last polygon, whatever else it holds |
| PolygonText.PolygonRoundTrip | laser_filters/include/laser_filters/polygon_filter.h:154-204 | Reading back what was printed gives the polygon to six decimals, for 0 or at least 3 vertices, and the last polygon for 1 or 2 |
| PolygonText.RoundedPolygonIsStable | laser_filters/include/laser_filters/polygon_filter.h:191-204 | A second round trip changes nothing, and no coordinate moves by more than half a millionth |
| Overlay.MergePathLaw | titan_nav/launch/navigation.launch.py:21-31 | What is found under every path of the merged tree, from base and overlay alone: untouched paths keep the base, leaves replace, nulls remove the entry at every level the recursion reaches and are copied elsewhere |
| Overlay.MergeWithItself | titan_nav/launch/navigation.launch.py:21-31 | Merging a tree into itself changes nothing if and only if it holds no null |
| Overlay.IdempotentExactly | titan_nav/launch/navigation.launch.py:21-31 | An overlay may be applied again without effect if and only if no mapping with a null was copied |
| Overlay.CopiedNullIsTakenOut | titan_nav/launch/navigation.launch.py:24-30 | A concrete overlay whose second application changes the result |
| Overlay.AbsorbedExactly | titan_nav/launch/navigation.launch.py:21-31 | For every overlay the merge is the overlay if and only if it names everything in the base and holds no null, at every level the recursion reaches |
| Overlay.RegroupExactly | titan_nav/launch/navigation.launch.py:68-74 | For all overlays, nulls included, merge(merge(b, o1), o2) = merge(b, merge(o1, o2)) if and only if o2 deletes nothing that b names and o1 puts no leaf and no null between mappings of b and o2 that o2 does not replace completely |
| Overlay.NullFreeRegroups | titan_nav/launch/navigation.launch.py:68-74 | Overlays regroup when o2 holds no null and no path is a mapping in b and o2 and something else in o1 |
| Overlay.NullDoesNotRegroup | titan_nav/launch/navigation.launch.py:24-26 | A concrete case in which a null in the first overlay does not regroup |
| Overlay.LastLeafWins | titan_nav/launch/navigation.launch.py:68-74 | In a chain of overlays the last one that names a path with a leaf decides it |
| Overlay.UntouchedKeepsBaseline | titan_nav/launch/navigation.launch.py:68-74 | A path that no overlay touches keeps the baseline's value |
| DeepMerge.Mapping.MergeIn | titan_nav/launch/navigation.launch.py:21-31 | In place on mapping objects and in any order of the keys, the tree becomes the merge of its old value and the overlay; only the tree's own objects change |
| DeepMerge.Mapping.MergeKey | titan_nav/launch/navigation.launch.py:23-30 | One pass of the loop: remove, merge into the nested mapping, or put a deep copy |
| DeepMerge.Mapping.MergeChild | titan_nav/launch/navigation.launch.py:27-28 | Merging a nested mapping where it stands changes that entry of the outer value and no other |
| DeepMerge.Mapping.SetEntry | titan_nav/launch/navigation.launch.py:30 | Storing a separate node replaces one entry and keeps the tree free of sharing |
| DeepMerge.Mapping.Pop | titan_nav/launch/navigation.launch.py:25 | Removing a key leaves all others, and is no error when it is missing |
| DeepMerge.Mapping.CopyEntry | titan_nav/launch/navigation.launch.py:30 | Storing a deep copy replaces one entry by the value and shares nothing with it |
| DeepMerge.DeepCopy | titan_nav/launch/navigation.launch.py:30 | A copy of the same value made of new objects only |
| DeepMerge.MergeOneMore | titan_nav/launch/navigation.launch.py:23-30 | Merging the overlay restricted to one more key is the loop body applied to what was merged before, so the order of the keys does not matter |
| DeepMerge.MergeOverlays | titan_nav/launch/navigation.launch.py:68-74 | The launch file's chain computes the left fold of the overlays |
| RigidTransforms.ComposeAssociative | slam_toolbox/src/slam_toolbox_common.cpp:474-475 | Composition of planar transforms is associative |
| RigidTransforms.ComposeActs | slam_toolbox/src/slam_toolbox_common.cpp:474-475 | a * b moves a point first by b and then by a, each a turn by its heading followed by its shift |
| RigidTransforms.LeftInverse | slam_toolbox/src/slam_toolbox_common.cpp:440-442 | The inverse of a rigid transform undoes it from the left |
| RigidTransforms.RightInverse | slam_toolbox/src/slam_toolbox_common.cpp:440-442 | And from the right |
| RigidTransforms.InverseInverse | slam_toolbox/src/slam_toolbox_common.cpp:469 | Inverting twice gives the transform back |
| RigidTransforms.InverseOfCompose | slam_toolbox/src/slam_toolbox_common.cpp:480-481 | The inverse of a composition is the composition of the inverses in reverse |
| SlamSession.Node.constructor | slam_toolbox/src/slam_toolbox_localization.cpp:27-31 | The initial processor type of both kinds of node |
| SlamSession.Node.SetTransformFromPoses | slam_toolbox/src/slam_toolbox_common.cpp:429-484 | Both transforms after the call; a tf failure changes neither |
| SlamSession.Node.AddScanMapping | slam_toolbox/src/slam_toolbox_common.cpp:570-631 | Which mapper call a scan gets, at which pose, and the whole new state, for each processor type |
| SlamSession.Node.AddScanLocalization | slam_toolbox/src/slam_toolbox_localization.cpp:145-206 | The same for the localization node |
| SlamSession.Node.LaserCallback | slam_toolbox/src/slam_toolbox_async.cpp:34-60 | A scan without odometry pose or laser device is dropped without effect; the first measurement after a request passes whatever the other checks say |
| SlamSession.Node.LocalizePoseCallback | slam_toolbox/src/slam_toolbox_localization.cpp:209-239 | A pose request is stored, replaces an older one, and lets the next scan pass |
| SlamSession.Node.DeserializePoseGraphCallback | slam_toolbox/src/slam_toolbox_common.cpp:792-851 | Which requests are refused without effect and what each accepted match type sets |
| SlamSession.ProtocolAlways | slam_toolbox/src/slam_toolbox_localization.cpp:102-206 | Over all runs a localization node is in PROCESS_LOCALIZATION between callbacks; a mapping node never is, and when it is in PROCESS_NEAR_REGION a pose is pending |
| SlamSession.ScansAreHandled | slam_toolbox/src/slam_toolbox_common.cpp:593-611 | Over all runs the fatal branch and the branch without a valid region are never taken |
| SlamSession.PendingIsHeld | slam_toolbox/src/slam_toolbox_common.cpp:829-848 | The stored pose is the last one requested since the last scan, and the next scan will pass |
| SlamSession.RequestUsedOnce | slam_toolbox/src/slam_toolbox_localization.cpp:167-183 | Over all runs the scan after a request, and no other, is placed at the requested pose |
| SlamSession.RejectedScanUsesRequestUp | slam_toolbox/src/slam_toolbox_common.cpp:602-606 | A scan that the mapper rejects uses the request up all the same and leaves the transforms |
| SlamSession.MapToOdomIsExact | slam_toolbox/src/slam_toolbox_common.cpp:436-481 | map_to_odom composed with the tf odometry pose at the scan's stamp is the corrected pose |
| SlamSession.RejoinedSession | slam_toolbox/src/slam_toolbox_common.cpp:443-500 | For every accepted scan that continues a session: reprocessing_transform applied to its odometry is the corrected pose if and only if tf knows the base or the old transform already fits; then odometry moved on by a step enters the graph at corrected pose composed with that step |
| SlamSession.RequestUsedInVain | slam_toolbox/src/slam_toolbox_common.cpp:458-462 | A rejoining scan that is rejected or whose tf lookup fails uses the request up, leaves both transforms, and no later scan rejoins without a new request |
| SlamSession.SessionCanBeLost | slam_toolbox/src/slam_toolbox_common.cpp:458-462 | A concrete run in which the loaded session is not joined |
| SlamSession.RejoinedTransformsAgree | slam_toolbox/src/slam_toolbox_common.cpp:468-481 | If tf and the odometry source agree, both transforms of a rejoined session are equal |
| SlamSession.ReprocessingKept | slam_toolbox/src/slam_toolbox_common.cpp:468-476 | Without a rejoining scan no run changes the reprocessing transform |
| SlamSession.SessionContinues | slam_toolbox/src/slam_toolbox_common.cpp:429-509 | Over any run after an accepted scan that continues a session, later odometry enters the graph as corrected pose composed with the movement since, if and only if the session was joined |
| SlamSession.ReportByHistory | slam_toolbox/src/slam_toolbox_common.cpp:511-611 | After every run: a scan is admitted if and only if the other checks pass or none was admitted since the start or the last accepted request; it then goes to the pending pose, to the first node if that was asked for last, or the ordinary way |
| SlamSession.TransformsByHistory | slam_toolbox/src/slam_toolbox_common.cpp:429-484 | After every run map_to_odom is the identity before the first admitted and accepted scan with a tf answer, and then carries that last scan's tf pose onto its corrected pose; the reprocessing transform likewise for the last joining scan; rejected scans and all other events leave both |
| SlamSession.CarriesDetermines | slam_toolbox/src/slam_toolbox_common.cpp:479-481 | There is only one transform that does |
| SlamSession.EnteredByHistory | slam_toolbox/src/slam_toolbox_common.cpp:497-506 | An ordinary scan after any run enters at its own odometry pose if no session was joined, and otherwise as far from the last joining scan's corrected pose as odometry has moved since |
| PoseGraphSolver.CeresSolver.constructor | slam_toolbox/solvers/ceres_solver.cpp:15-22 | The solver starts empty |
| PoseGraphSolver.CeresSolver.DoAddNode | slam_toolbox/solvers/ceres_solver.cpp:274-293 | A node is inserted unless its id is known, and becomes the first one when it is the only one |
| PoseGraphSolver.CeresSolver.DoAddConstraint | slam_toolbox/solvers/ceres_solver.cpp:296-348 | A residual between two known, different nodes; a key in use keeps its old residual |
| PoseGraphSolver.CeresSolver.DoRemoveNode | slam_toolbox/solvers/ceres_solver.cpp:351-380 | The node goes, with its parameter blocks and their residuals; the index is not touched |
| PoseGraphSolver.CeresSolver.DoRemoveConstraint | slam_toolbox/solvers/ceres_solver.cpp:383-402 | The residual under the given direction goes, else the one under the other direction |
| PoseGraphSolver.CeresSolver.DoCompute | slam_toolbox/solvers/ceres_solver.cpp:174-226 | Pinning, the solver's new poses, and corrections only for a usable solution |
| PoseGraphSolver.CeresSolver.DoReset | slam_toolbox/solvers/ceres_solver.cpp:243-271 | Everything is empty again, and nothing is pinned |
| PoseGraphSolver.WellFormedKept | slam_toolbox/solvers/ceres_solver.cpp:174-402 | Every operation keeps: each live residual joins two different live nodes, at most one node is constant |
| PoseGraphSolver.AlwaysWellFormed | slam_toolbox/solvers/ceres_solver.cpp:174-402 | So does every run, from construction and across resets |
| PoseGraphSolver.AgreementExactly | slam_toolbox/solvers/ceres_solver.cpp:296-402 | A step leaves the index equal to the problem's live residuals if and only if it adds no constraint under a key in use and removes no node that a residual joins |
| PoseGraphSolver.CarefulRunsAgree | slam_toolbox/solvers/ceres_solver.cpp:243-402 | In every run of such steps the ids in blocks_ are exactly the live residuals, and removing a constraint is always defined |
| PoseGraphSolver.CarefulMeansNewPair | slam_toolbox/solvers/ceres_utils.h:14-18 | Where the hash is injective on the ids in use, a key is in use exactly when the ordered pair is live |
| PoseGraphSolver.NewPairsExactly | slam_toolbox/solvers/ceres_solver.cpp:296-402 | Then, over every run, all steps are careful if and only if no ordered pair is added while live and no node is removed with live constraints, and index and problem agree after such a run |
| PoseGraphSolver.KeyIsLivePair | slam_toolbox/solvers/ceres_solver.cpp:346-347 | Then the key of a pair leads to that pair's residual and back |
| PoseGraphSolver.RemoveConstraintIsExact | slam_toolbox/solvers/ceres_solver.cpp:383-402 | Then removing a constraint removes that pair's residual and no other; the reversed pair's when the pair is not live |
| PoseGraphSolver.PinnedOnce | slam_toolbox/solvers/ceres_solver.cpp:186-199 | Over every run between two resets: nodes held constant at any two moments are the same node, and from the first pinning on nothing else is ever held constant and the pinned node keeps its pose |
| PoseGraphSolver.PinIsNotRenewed | slam_toolbox/solvers/ceres_solver.cpp:186-199 | When the pinned node is removed nothing is pinned again before the next reset |
| PoseGraphSolver.FirstNodeIsPinned | slam_toolbox/solvers/ceres_solver.cpp:187-199 | In every run the first node of an epoch stays first_node_ while it is not removed, nothing else is ever pinned, and a Compute pins it once it takes part in a constraint |
| PoseGraphSolver.CorrectionsByHistory | slam_toolbox/solvers/ceres_solver.cpp:207-225 | After every run the corrections are the poses right after the last usable solve since the last reset; an unusable one leaves them |
| PoseGraphSolver.ComputeMoves | slam_toolbox/solvers/ceres_solver.cpp:201-202 | A solve gives every joined node but the pinned one its solved pose and moves no other |
| PoseGraphSolver.NodesByHistory | slam_toolbox/solvers/ceres_solver.cpp:274-293 | A node is live if and only if it was added after its last removal and the last reset |
| PoseGraphSolver.PoseKept | slam_toolbox/solvers/ceres_solver.cpp:274-293 | It keeps the pose it was first added with until it is removed or a solve moves it |
| PoseGraphSolver.ComputableExactly | slam_toolbox/solvers/ceres_solver.cpp:187-190 | Compute stays defined if and only if the step does not remove the node about to be pinned while others remain |
| PoseGraphSolver.CarefulRunsAreDefined | slam_toolbox/solvers/ceres_solver.cpp:174-402 | A run of careful steps that keep the node about to be pinned makes no undefined call, whatever its length |
| PoseGraphSolver.FirstNodeCanDangle | slam_toolbox/solvers/ceres_solver.cpp:375 | Three calls after which first_node_ dangles and Compute is undefined |
| PoseGraphSolver.StaleResidual | slam_toolbox/solvers/ceres_solver.cpp:351-402 | Four calls after which index and problem disagree and removing a constraint hands Ceres a residual that is gone |
| Amcl.AmclNode.AddNewScanner | navigation2/nav2_amcl/src/amcl_node.cpp:733-766 | A laser and its flag are added first; the table is written, and a laser given the scanner's pose, only when that pose is known |
| Amcl.AmclNode.ShouldUpdateFilter | navigation2/nav2_amcl/src/amcl_node.cpp:768-780 | The odometry delta and whether it or a request calls for an update |
| Amcl.AmclNode.UpdateFilter | navigation2/nav2_amcl/src/amcl_node.cpp:782-852 | A failed update changes nothing; otherwise the laser's flag is cleared and the odometry pose taken |
| Amcl.AmclNode.TrackScan | navigation2/nav2_amcl/src/amcl_node.cpp:658-688 | What the motion model is given and the whole new state once odometry is known |
| Amcl.AmclNode.LaserReceived | navigation2/nav2_amcl/src/amcl_node.cpp:618-688 | A scan on a node that is inactive or has no map changes nothing; otherwise the state and the motion handed on, with the lookup by stripped and the access by raw frame id |
| Amcl.AmclNode.HandleInitialPose | navigation2/nav2_amcl/src/amcl_node.cpp:552-615 | A new initial pose (and likewise global localisation) starts a new filter and keeps the odometry pose |
| Amcl.AmclNode.InitParticleFilter | navigation2/nav2_amcl/src/amcl_node.cpp:1587-1613 | The particle filter is new and the odometry pose zero |
| Amcl.AmclNode.FreeMapDependentMemory | navigation2/nav2_amcl/src/amcl_node.cpp:1433-1446 | A new map clears lasers, flags and table together |
| Amcl.AmclNode.NomotionUpdateCallback | navigation2/nav2_amcl/src/amcl_node.cpp:510-518 | The next scan updates whatever the movement |
| Amcl.DefinedExactly | navigation2/nav2_amcl/src/amcl_node.cpp:639-646 | While all table entries are indices of lasers, a scan has a laser unless it adds a frame to a table that already has more entries than there are lasers; then the entries stay in range |
| Amcl.RunDefinedExactly | navigation2/nav2_amcl/src/amcl_node.cpp:639-646 | The same after every run from the start, for any frame ids |
| Amcl.SoundExactly | navigation2/nav2_amcl/src/amcl_node.cpp:633-646 | From a table of distinct lasers a scan is served and leaves such a table if and only if the index it writes belongs to a laser and no other frame holds it |
| Amcl.SlashedFrameIsServedAsAnother | navigation2/nav2_amcl/src/amcl_node.cpp:639-645 | From the start, after scans of "a" and "b" a scan of "/b" is served as the laser of "a" |
| Amcl.RegistryExactly | navigation2/nav2_amcl/src/amcl_node.cpp:633-646 | The sufficient invariant for plain frame ids: with distinct lasers and only plain ids in the table every scan is served, and it is lost exactly when another id is written |
| Amcl.ScannersAlwaysDefined | navigation2/nav2_amcl/src/amcl_node.cpp:633-646 | Over all runs with plain frame ids no index is without a laser and no two frames share one |
| Amcl.TableByHistory | navigation2/nav2_amcl/src/amcl_node.cpp:733-766 | Over all runs with plain frame ids the table holds the frames in the order in which their scanner's pose first became known, and each laser the pose of its own frame's scanner |
| Amcl.ServedByOwnLaser | navigation2/nav2_amcl/src/amcl_node.cpp:639-688 | After every such run a scan is served by its own frame's laser; it is handed the odometry since the last update exactly when that laser is waiting or a threshold is exceeded or an update was asked for; a successful update clears that laser's flag and no other |
| Amcl.UnknownNotServed | navigation2/nav2_amcl/src/amcl_node.cpp:639-642 | A scan of a scanner whose pose is not known yet moves nothing |
| Amcl.FilterByHistory | navigation2/nav2_amcl/src/amcl_node.cpp:660-682 | Over all such runs the filter is started and an update asked for exactly when the history of events says so |
| Amcl.NeverFarBehind | navigation2/nav2_amcl/src/amcl_node.cpp:768-780 | After a scan of a known frame whose update succeeds, pf_odom_pose_ is within the thresholds of the robot's odometry pose, or equal to it |
| Amcl.SlashedFrameBreaksRegistry | navigation2/nav2_amcl/src/amcl_node.cpp:639-645 | From the start, after scans of "scan" and "/scan" the next new laser gets an index that no laser has |
| Amcl.AngleDiffIsDifference | navigation2/nav2_amcl/include/nav2_amcl/angleutils.hpp:59-74 | angle_diff differs from a - b by whole turns |
| Amcl.AngleDiffIsLeast | navigation2/nav2_amcl/include/nav2_amcl/angleutils.hpp:44-50 | It is at most half a turn, and no angle with the same heading is nearer to zero |
| Amcl.OdometryAccount | navigation2/nav2_amcl/src/amcl_node.cpp:658-688 | Over all runs within one filter and for any number of lasers, what the motion model was given is the change of pf_odom_pose_ plus exactly what was given again after a failed update, yaw up to whole turns |
| Amcl.OdometryConserved | navigation2/nav2_amcl/src/amcl_node.cpp:658-688 | If updates succeed, the deltas add up to pf_odom_pose_ minus the pose at filter initialisation, without gap or double count |
| Amcl.FailedUpdateCountsTwice | navigation2/nav2_amcl/src/amcl_node.cpp:678-688 | From any state, a movement whose update fails is given to the motion model twice |
| SpeckleFilter.CheckWindowValid | laser_filters/include/laser_filters/speckle_filter.h:63-83 | True exactly when the first reading is a number and every further one in the window is a number within the difference of it |
| SpeckleFilter.MarkWindow | laser_filters/include/laser_filters/speckle_filter.h:236-245 | The flags a window sets, and that none is cleared |
| SpeckleFilter.Update | laser_filters/include/laser_filters/speckle_filter.h:220-257 | A scan that is too short is refused unchanged; otherwise a reading survives exactly when it is beyond max_range or lies in some valid window, and becomes NaN otherwise |
| SpeckleFilter.RemovedExactly | laser_filters/include/laser_filters/speckle_filter.h:220-257 | A reading is NaN in the output if and only if it was one, or is within max_range and in no valid window |
| SpeckleFilter.SurvivesByValues | laser_filters/include/laser_filters/speckle_filter.h:63-83 | On the values: a finite reading survives if and only if it is greater than max_range or some window around it starts at a number from which every member, nearer or farther, differs by at most max_range_difference |
| SpeckleFilter.WindowStaysValid | laser_filters/include/laser_filters/speckle_filter.h:63-83 | A valid window is still valid in the output |
| SpeckleFilter.FilteredTwice | laser_filters/include/laser_filters/speckle_filter.h:220-257 | Filtering twice is filtering once |
| InterpolationFilter.FindNext | laser_filters/include/laser_filters/interpolation_filter.h:77-90 | The end of the invalid run and the value that follows it, unchanged when the scan ends first |
| InterpolationFilter.Fill | laser_filters/include/laser_filters/interpolation_filter.h:95-97 | Sets exactly the readings of the run |
| InterpolationFilter.Update | laser_filters/include/laser_filters/interpolation_filter.h:63-110 | In place, each invalid reading becomes the mean of the values at its run's two ends, a run at the right edge taking the reading that ended the run before it |
| InterpolationFilter.OutputsAcceptedExactly | laser_filters/include/laser_filters/interpolation_filter.h:65-66 | Every output of every scan lies strictly between the limits if and only if range_min < range_max - 0.01 |
| InterpolationFilter.InterpolatedTwice | laser_filters/include/laser_filters/interpolation_filter.h:63-110 | A second pass changes nothing, whatever the limits, also where outputs are still invalid |
| InterpolationFilter.StillInvalid | laser_filters/include/laser_filters/interpolation_filter.h:92-100 | A run that stays invalid keeps its bounds and is given the same value again |
| InterpolationFilter.RunBecomesMean | laser_filters/include/laser_filters/interpolation_filter.h:92-97 | Valid readings stay, and a maximal invalid run with a valid right neighbour becomes the mean of the two readings that bound it, the default on the left edge |
| InterpolationFilter.RightEdgeBecomesMean | laser_filters/include/laser_filters/interpolation_filter.h:63-110 | A run at the right edge becomes the mean of the reading before it and of the valid reading that ended the run before it, range_max - 0.01 without an earlier run |
| InterpolationFilter.AllInvalidBecomesDefault | laser_filters/include/laser_filters/interpolation_filter.h:65-66 | A scan without valid readings becomes range_max - 0.01 throughout |
| SpinBehavior.IsCollisionFree | navigation2/nav2_behaviors/plugins/spin.cpp:160-187 | True exactly when every simulated heading whose turn is below the turn so far is free, new data being fetched for the first |
| SpinBehavior.CanRefuseExactly | navigation2/nav2_behaviors/plugins/spin.cpp:177-179 | Some environment makes the look-ahead refuse if and only if the accumulated turn is not zero and there is a cycle to simulate |
| SpinBehavior.Spin.OnRun | navigation2/nav2_behaviors/plugins/spin.cpp:74-97 | The fields a goal sets; without a pose it fails and changes none |
| SpinBehavior.Spin.OnCycleUpdate | navigation2/nav2_behaviors/plugins/spin.cpp:99-158 | Status, published velocity with the sign of the commanded turn, stop and new fields for every outcome of a cycle: timeout, no pose, done, obstacle ahead, running |
| SpinBehavior.DeltaYawExactly | navigation2/nav2_behaviors/plugins/spin.cpp:121-124 | One cycle measures the true turn if and only if it is less than half a revolution, or just that without crossing the seam |
| SpinBehavior.RelativeIsRotation | navigation2/nav2_behaviors/plugins/spin.cpp:119-127 | For any number of cycles and seam crossings with turns of less than pi between cycles, the accumulated yaw is the rotation since onRun |
| SpinBehavior.Spin.Execute | navigation2/nav2_behaviors/include/nav2_behaviors/timed_behavior.hpp:185-259 | Over a whole run of the action server's loop the first cycle that does not leave it running decides how it ends: cancelled, preempted, late or without a pose, turned to within 1e-6, or an obstacle ahead; the field relative_yaw_ is the accumulated yaw |
| SpinBehavior.SuccessMeansTurned | navigation2/nav2_behaviors/plugins/spin.cpp:132-136 | Success then means that more than abs(cmd_yaw) - 1e-6 was really turned |
| SpinBehavior.SpeedIsLimited | navigation2/nav2_behaviors/plugins/spin.cpp:138-142 | The speed respects both limits, and strictly between them it is the one from which the remaining angle is just enough to stop |
| SpinBehavior.SpeedExactly | navigation2/nav2_behaviors/plugins/spin.cpp:138-139 | With min < max the speed is max if and only if max² <= 2 * acc * remaining, min if and only if 2 * acc * remaining <= min², and between them its square is 2 * acc * remaining |
| SpinBehavior.SpeedMonotone | navigation2/nav2_behaviors/plugins/spin.cpp:138-139 | It never falls when more remains to be turned |
| SpinBehavior.SimulatedHeadings | navigation2/nav2_behaviors/plugins/spin.cpp:173-174 | The look-ahead starts at the current heading and goes on by the velocity over the cycle frequency |

## Left out

- ROS plumbing: parameters, publishers, services, lifecycle bonds, logging, visualisation topics.
- Rounding, NaN and overflow of floating-point numbers; polygon coordinates are not rounded to 32 bits.
- Zones.Polygon.GetCollisionTime: a horizon that is not negative with a simulation step that is not positive is outside its requires, because the program's loop need not end there.
- CollisionMonitor.Node.ProcessApproach: the same configuration is outside its requires.
- CollisionMonitor.Node.Process: the obstacle points are a parameter, so the data sources and their timeouts are not modelled; the report and visualisation calls have no effect on the state.
- Circle::getPolygon and padding of polygons, which only draw or prepare the vertices.
- ArrayParser.ParseVVF: texts of numbers too large for a float, hexadecimal numbers and the words inf and nan; error strings are a datatype.
- DeepMerge.Mapping.MergeIn: YAML anchors, which let two entries share one mapping object; lists are leaves.
- Overlay: load_yaml, resolve_use_sim_time and the launch description, which hold no further logic.
- SlamSession.Node.LaserCallback: its pause, throttle, time and distance checks are one flag; the queue of the synchronous node, the merged map-and-localization node and races between threads are not modelled.
- SlamSession.Node.DeserializePoseGraphCallback: loading the stored graph itself is not modelled, only whether reading succeeds.
- PoseGraphSolver.CeresSolver.DoCompute: the optimisation is an arbitrary new pose for each free node; ModifyNode and GetNodeOrientation are left out, and so is the reuse of an address after a node is erased.
- PoseGraphSolver.ComputableExactly: invalidation of `first_node_` by a rehashing insertion is not modelled.
- PoseGraphSolver.CarefulRunsAreDefined: the same.
- PoseGraphSolver.CarefulMeansNewPair: the bits of the hash are not modelled; injectivity on the ids in use is an assumption.
- Amcl.AmclNode.LaserReceived: the resampling counter, the particle cloud and the published pose; its requires excludes an index without a laser, which the program would use all the same.
- SpeckleFilter.Update: a window below one, for which the program's indices leave the scan, and the RadiusOutlier mode.
- InterpolationFilter.Update: NaN readings, which both comparisons let pass as valid.
- SpinBehavior.Spin.Execute: the loop rate, elapsed time and action results; the inputs of the cycles are a finite list whose end is the shutdown.
- SpinBehavior.Spin.OnCycleUpdate: a negative zero as the sign in copysign; positions other than the heading.
- Box, footprint, sector, range, intensity and shadow filters, DenoiseLayer, sensor drivers and display tools: element-wise, or in files that are not part of this model.

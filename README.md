# RVO2 3D agent: neighbour buffer and linear-program skeleton

This project models two parts of the agent of the RVO2 (Reciprocal Velocity
Obstacles) 3D crowd simulator, Java port (`rvo2/Agent.java`):

- **The neighbour search.** Every step, an agent rebuilds its buffer of at most
  `maxNeighbors` nearest other agents. `computeNeighbors` clears the buffer
  and, when `maxNeighbors > 0`, asks the kd-tree for the agents within
  `neighborDist`. The kd-tree reports every candidate to
  `insertAgentNeighbor`.
  - A report is turned away for the agent itself and for a squared distance
    not strictly below the current squared range.
  - An accepted report is appended while the buffer has room. Once the
    buffer is full, it overwrites the last slot instead.
  - The new entry then moves left past every entry of strictly larger
    distance; equal distances stay in front of it.
  - When the buffer is full, the squared range tightens to the distance of
    the last entry.
- **The control skeleton of `linearProgram3`.** The ORCA planes are scanned in
  order. When the current result violates a plane, the two-dimensional
  program is run on it. If that fails, the result is restored to its value
  before that plane and the plane's index is returned. Otherwise the scan
  returns the number of planes.

Files:

- `neighbor_set.dfy` (module `NeighborSet`) holds the buffer as values and
  gives the meaning of an insertion and of a whole search:
  - `ShiftPoint` and `Place` describe where the backward shift stops;
  - `Kept` gives the entries an accepted insertion keeps;
  - `Insert` is one call of the insertion routine;
  - `Collect` folds `Insert` over the kd-tree's reports.
  The module also proves the properties of these functions.
- `agent.dfy` (module `AgentNeighbors`) holds class `Agent`, with the
  buffer as a mutable field. `InsertAgentNeighbor` is the shifting loop,
  proved equal to `Insert`. `ComputeNeighbors` is the clear-then-search
  routine, proved to keep the `maxNeighbors` nearest eligible agents.
- `linear_program.dfy` (module `LinearProgram`) holds the scan of
  `linearProgram3`. The plane-violation test and `linearProgram2` are
  parameters. `ScanPlanes` is the reference definition, and the method
  `LinearProgram3` is proved against it.

Modelling choices:

- Squared distances are `real`.
- Agent identity (`this != agent`) is equality of an `AgentId`.
- The kd-tree is represented by the sequence of (squared distance, agent)
  reports it makes, in order.
- `linearProgram2` is represented by a function from (plane index, current
  result) to `Attempt(ok, written)`. `written` is what it leaves in `result`
  even when it fails, so the restore on failure is observable.
- The buffer is not strictly sorted, although it is sometimes described
  that way. The code moves the new entry only past strictly larger
  distances, so it keeps equal distances, with the newcomer after the older
  entries. The model follows the code: `Sorted` is non-decreasing, and
  `PlaceShape` states where ties go.
- `insertAgentNeighbor` fails with an index out of range, at `get(i - 1)`
  with `i = -1` in the shift loop's guard, when it accepts a candidate into
  an empty buffer whose capacity is 0. The
  precondition `CanInsert` excludes exactly that input; every other input is
  handled. `computeNeighbors` never reaches this case, because it only
  searches when `maxNeighbors > 0`.

## Model

| member | source | states |
|---|---|---|
| NeighborSet.ShiftPoint | RVO2_3D_Double_Java/src/rvo2/Agent.java:149-155 | the slot where the shift loop stops is within the buffer, every entry from it on has a strictly larger distance, and the entry before it (if any) has one no larger |
| NeighborSet.ShiftPointAt | RVO2_3D_Double_Java/src/rvo2/Agent.java:151-155 | that slot is unique: any index with strictly larger distances to its right and a distance no larger (or the front) to its left is where the loop stops |
| NeighborSet.PlaceShape | RVO2_3D_Double_Java/src/rvo2/Agent.java:149-157 | in a sorted buffer the new entry lands after every entry of equal or smaller distance and before every larger one; entries before it stay, entries after it move one slot right |
| NeighborSet.PlaceContents | RVO2_3D_Double_Java/src/rvo2/Agent.java:149-157 | the shift adds exactly the new entry: one more element, multiset of old entries plus the new one |
| NeighborSet.PlaceSorted | RVO2_3D_Double_Java/src/rvo2/Agent.java:149-157 | the shift keeps a sorted buffer sorted |
| NeighborSet.InsertRejected | RVO2_3D_Double_Java/src/rvo2/Agent.java:141-144 | the agent itself, or a candidate not strictly inside the range, changes neither the buffer nor the range |
| NeighborSet.InsertLength | RVO2_3D_Double_Java/src/rvo2/Agent.java:145-147 | an accepted candidate adds one entry while the buffer has room and none once it is full; the capacity is never exceeded |
| NeighborSet.InsertContents | RVO2_3D_Double_Java/src/rvo2/Agent.java:145-157 | an accepted candidate joins all old entries while there is room; once full it replaces the last (farthest) entry |
| NeighborSet.InsertSorted | RVO2_3D_Double_Java/src/rvo2/Agent.java:145-157 | an insertion keeps the buffer sorted |
| NeighborSet.InsertTightens | RVO2_3D_Double_Java/src/rvo2/Agent.java:144-161 | an insertion keeps a search valid (sorted, within capacity, every distance within range, range equal to the last distance when full), never widens the range, and an accepted insertion that fills the buffer sets the range to the last entry's distance |
| NeighborSet.CollectNarrows | RVO2_3D_Double_Java/src/rvo2/Agent.java:53-54 | over any sequence of kd-tree reports the search stays valid and the range never increases |
| NeighborSet.CollectKeepsNearest | RVO2_3D_Double_Java/src/rvo2/Agent.java:49-56 | a search from an empty buffer keeps the nearest eligible agents: sorted, within capacity, only other agents strictly inside the initial range, all of them when not full, and each left out one at least as far as the last entry; the final range is at most the initial one and equals the last distance when full |
| AgentNeighbors.Agent.constructor | RVO2_3D_Double_Java/src/rvo2/Agent.java:35-44 | a new agent has capacity 0, range 0 and an empty buffer |
| AgentNeighbors.Agent.InsertAgentNeighbor | RVO2_3D_Double_Java/src/rvo2/Agent.java:139-164 | the append, shift loop and write leave exactly the buffer and range `Insert` describes, and keep the buffer sorted and within capacity |
| AgentNeighbors.Agent.ComputeNeighbors | RVO2_3D_Double_Java/src/rvo2/Agent.java:49-56 | the buffer is cleared; with capacity 0 it stays empty, otherwise it is the result of the search from range `neighborDist²`, which keeps the nearest eligible agents |
| LinearProgram.LinearProgram3 | RVO2_3D_Double_Java/src/rvo2/Agent.java:357-369 | the returned index is at most the number of planes, equals it exactly when the scan gets through, and the result is the scan's final or restored result |
| LinearProgram.FailedStays | RVO2_3D_Double_Java/src/rvo2/Agent.java:360-364 | once the scan fails, later planes change neither the failing index nor the result |
| LinearProgram.FailedAt | RVO2_3D_Double_Java/src/rvo2/Agent.java:360-364 | after a failure at plane `i` the result is the one held just before plane `i`; it violates plane `i` and the two-dimensional program failed on it |
| LinearProgram.RunningIff | RVO2_3D_Double_Java/src/rvo2/Agent.java:357-369 | the scan returns the number of planes if and only if no plane's two-dimensional program fails |
| LinearProgram.ScanFeasible | RVO2_3D_Double_Java/src/rvo2/Agent.java:357-369 | if the two-dimensional program's successes satisfy their plane and all earlier ones, a completed scan satisfies every plane, and a failed one satisfies every plane before the failing one |

## Left out

- `computeNewVelocity` (construction of the ORCA planes, lines 61-132): floating-point geometry, outside the modelled core.
- The bodies of `linearProgram1`, `linearProgram2` and `linearProgram4` (lines 186-257, 269-331, 379-424): epsilon-thresholded floating-point geometry. `linearProgram2` and the violation test are parameters of `LinearProgram3`.
- The seed of `linearProgram3` (lines 344-355), computed from the optimisation velocity and the radius: it is the parameter `seed`.
- `update` (lines 169-173): position and velocity integration.
- The distance computation `position_.subtract(agent.position_).lengthSq()` (line 142): the squared distance is a parameter of `InsertAgentNeighbor`.
- The kd-tree's traversal and pruning: `ComputeNeighbors` takes the reports the kd-tree would make. The pruning only skips candidates at or beyond the current range, and `Insert` rejects those anyway.
- AgentNeighbors.Agent.InsertAgentNeighbor: the entries are shifted in a local copy of the buffer, which is stored back at the end, not written into the field one slot at a time. Nothing observes the buffer in between.
- Floating-point rounding, NaN and infinities: distances and ranges are exact reals.
- Negative `maxNeighbors`: it is a `nat`.
- `Pair`, `Plane`, `Line`, `RVOSimulator`, `KdTree` and the MASON vector types are not part of this model beyond the values above.

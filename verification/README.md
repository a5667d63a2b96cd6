# Cozmo robotics labs: planner, particle filter and prediction tracker

This project models three algorithmic cores of a set of Cozmo robot lab
assignments in Dafny and proves properties of the models:

- **A\* grid planning** (`lab10/planning.py`: `astar`, `heuristic`, `Node`),
  module `Planning` in `planning.dfy`. The search keeps an open map and a
  closed map of nodes keyed by cell. Each round picks the first open node of
  least `g + h` in dictionary insertion order. It stops with a path when that
  node is the goal. Otherwise it closes the node and relaxes the edges to the
  node's neighbours.
- **Particle-filter localisation** (`lab8/particle_filter.py`:
  `add_relative_to_origin_frame`, `motion_update`, `measurement_update`,
  `prob_estimate`). Module `ParticleFilter` in `particle_filter.dfy` holds
  the filter itself. Module `Resampling` in `resampling.dfy` holds the
  numeric core of importance resampling: sums, normalisation, the cumulative
  distribution and `bisect_left`.
- **The prediction tracker** (`lab11/CozmoImageClassification.py`: class
  `Tracker`), module `PredictionTracker` in `tracker.dfy`. It is a sliding
  window of per-frame image classifications. When the window is full it
  reports the most frequent label as a detection if that label is not
  `none` and fills at least 70% of the window.

`outcomes.dfy` holds the shared `Option` and `Result` types.

All models are pure functions over immutable datatypes, except the A\* main
loop, which is a method with a `while` loop (`Planning.Explore`). The Python
code's side effects are returned as values:

- `grid.setPath` and `grid.addVisited` become the path and visit order
  carried by `Planning.PlanResult`.
- `Tracker`'s mutations return a new `Tracker`.

Whatever the code reads from outside becomes a parameter, and the model
states only what it relies on:

- `math.sqrt`, cosine and sine, `math.e ** x`, and the course's
  `add_heading_deg` and `diff_heading_deg`;
- the grid's free-space test, its marker list and `parse_marker_info`;
- the Gaussian noise samples, the `random.uniform(0, 1)` draws, and the
  particles `Particle.create_random` returns.

Real numbers stand for Python floats throughout. `float('inf')` appears in
the model only as the `Inf` cost, which `Below` compares with finite costs.
The code's insertion of a first-seen neighbour with an infinite g that is
then overwritten (`lab10/planning.py`, lines 71-81) is modelled as one write
of the final node.

## Model

| member | source | states |
|---|---|---|
| PredictionTracker.ResetMap | lab11/CozmoImageClassification.py:54-55 | the fresh counts dictionary is the count of every label in an empty window |
| PredictionTracker.Create | lab11/CozmoImageClassification.py:21-26 | a new tracker has an empty window of capacity `threshold`, counts in step with it, and frame counter 0 |
| PredictionTracker.ResetTracker | lab11/CozmoImageClassification.py:57-60 | resetting empties the window, zeroes every count and the frame counter, keeps the threshold, and keeps the counts in step with the window |
| PredictionTracker.LastN | lab11/CozmoImageClassification.py:22 | a deque with `maxlen` n holds the last n elements pushed, oldest first |
| PredictionTracker.Rank | lab11/CozmoImageClassification.py:55 | every label has a position in the key order of the counts dictionary |
| PredictionTracker.Shift | lab11/CozmoImageClassification.py:29-37 | after the counter bump, the eviction when full and the append, the window is the last `threshold` predictions and the counts still count it |
| PredictionTracker.AddPrediction | lab11/CozmoImageClassification.py:28-52 | no label is reported until the window is full. Once it is full, the label reported is the first in key order with maximal count. A detection fires exactly when that label is not `none` and fills at least 70% of the window. A detection resets the tracker; otherwise the window has moved on by one frame |
| PredictionTracker.MaxScan | lab11/CozmoImageClassification.py:43-46 | the final count is at least the running count and every count scanned. When no scanned count beats the running count, the running label is kept. Otherwise the label is the first scanned key holding the final count, and every key scanned before it has a smaller count |
| PredictionTracker.MaxScanFrom | lab11/CozmoImageClassification.py:42-46 | the strict `>` scan, resumed from a correct running maximum, ends on the first key of maximal count |
| PredictionTracker.MaxScanIsFirstMax | lab11/CozmoImageClassification.py:39-46 | with counts in step with the window, the scan always picks a label, and it is the window's first most frequent label |
| PredictionTracker.Feed | lab11/CozmoImageClassification.py:28-52 | repeated calls keep the tracker invariant and give one verdict per prediction |
| PredictionTracker.LastNAppend | lab11/CozmoImageClassification.py:31-36 | pushing into a bounded deque step by step equals pushing everything and keeping the last n |
| PredictionTracker.QuietFeedKeepsLastPredictions | lab11/CozmoImageClassification.py:28-37 | while no detection fires, the window is exactly the last `threshold` predictions of the whole stream and the frame counter counts every call |
| PredictionTracker.SilentWhileFilling | lab11/CozmoImageClassification.py:39-50 | while the window is not yet full, every call answers `(False, None)`, so after a detection the next `threshold - 1` calls are silent |
| Planning.Init | lab10/planning.py:22-29 | the search starts with only the start cell open, at g = 0 with no parent, and the invariant holds |
| Planning.MinFrom | lab10/planning.py:36 | `min` with a key, resumed at a position, returns a least-priority node that every node before it beats strictly |
| Planning.FirstMin | lab10/planning.py:36 | the node chosen has least `g + h` among the open nodes, and every node inserted before it has a strictly larger priority |
| Planning.Without | lab10/planning.py:53 | deleting a key removes exactly that cell from the insertion order and keeps it duplicate-free |
| Planning.WithoutAbsent | lab10/planning.py:53 | removing a cell that is not listed leaves the insertion order as it was |
| Planning.WithoutCut | lab10/planning.py:53 | deleting a key that is listed once cuts it out at its position, so every other cell keeps its place in the insertion order |
| Planning.PopKeepsCosts | lab10/planning.py:52-53 | closing the chosen node keeps every node's g equal to its closed parent's g plus the step cost `getNeighbors` reported |
| Planning.Pop | lab10/planning.py:52-56 | the chosen node moves from the open map to the closed map unchanged and is appended to the visit order. The insertion order loses exactly that cell, and the invariant, including the cost relation, still holds |
| Planning.OverwriteKeepsCosts | lab10/planning.py:76-81 | the node written for a neighbour costs its parent's g plus the reported step cost, and every other node keeps that relation |
| Planning.Relax | lab10/planning.py:67-82 | a closed neighbour leaves the state unchanged, and so does an open one whose g is not strictly above the cost through the current node. Otherwise the neighbour's node becomes exactly that cost, its heuristic and the current node as parent, and a first-seen cell is appended to the insertion order. Every other open node, every closed node and the cost relation are kept. Any open node that is new or changed has the current node as parent and, if it was open before, a strictly smaller g, so a tie keeps the old node; the insertion order is only ever extended |
| Planning.Improve | lab10/planning.py:71-82 | for a neighbour that is not closed: when its g is not strictly above the cost through the current node, the open map and insertion order are unchanged. Otherwise its node becomes exactly that cost, heuristic and parent, and a first-seen cell is appended to the insertion order. Every other open node and the cost relation are kept, and afterwards the neighbour's g never exceeds the cost through the current node. Any open node that is new or changed has the current node as parent and, if it was open before, a strictly smaller g; the old insertion order is a prefix of the new one |
| Planning.Overwrite | lab10/planning.py:71-82 | when the cost through the current node is strictly smaller, or the neighbour is new, the neighbour's node becomes that cost, the heuristic, and the current node as parent. A new cell is appended to the insertion order, every other open node is untouched, and the cost relation is kept |
| Planning.RelaxedGrows | lab10/planning.py:67-82 | once neighbour k is relaxed, each of the first k + 1 neighbours that is still open costs no more than the path through the current node, because later relaxations only lower g |
| Planning.RelaxFrom | lab10/planning.py:67-82 | after all neighbours are relaxed, every neighbour of every closed cell has been seen, closed nodes are unchanged, and no open g has grown. Each neighbour of the current node costs no more than the path through it. The invariant holds, including g = parent's g + reported step cost for every node with a closed parent. Across the whole loop, any open node that is new or changed was written through the current node with a strictly smaller g than before (a tie keeps the old node and parent), and the insertion order is only extended |
| Planning.RelaxThenRest | lab10/planning.py:67-82 | one relaxation followed by the rest of the neighbour loop keeps closed nodes and seen cells, drops no open cell, lowers no open g, writes every new or changed open node through the current node with a strictly smaller g than before, and only extends the insertion order |
| Planning.ImprovedCompose | lab10/planning.py:76-81 | two rounds of strict improvement through the same node compose into one: a node changed by either round ends with that node as parent and a g strictly below its first value, and prefixes of the insertion order chain |
| Planning.Expand | lab10/planning.py:52-82 | one round adds exactly the chosen cell to the closed set, never changes a closed node, and only lowers open g values. Afterwards each neighbour of the chosen cell that is still open costs no more than the path through it. Any open node that is new or changed has the chosen cell as parent and, if it was open before, a strictly smaller g (a tie keeps the old parent). The insertion order with the chosen cell deleted is a prefix of the order after the round |
| Planning.Chain | lab10/planning.py:43-46 | following parent links from a closed node gives a walk of neighbour steps from the start to it |
| Planning.PathTo | lab10/planning.py:41-47 | the path set for the chosen node starts at the start, ends at that node, and every step is a neighbour step |
| Planning.ExhaustedMeansUnreachable | lab10/planning.py:31 | when the open map runs empty, no walk from the start reaches the goal |
| Planning.Explore | lab10/planning.py:31-82 | the loop terminates. It ends either with the goal as the open node of least priority or with an empty open map, and the invariant holds throughout |
| Planning.AStar | lab10/planning.py:14-82 | it fails exactly when there is no goal. A path it sets runs from the start to the first goal through neighbour steps. It finishes without a path only when no walk reaches that goal. The goal is never marked visited |
| Planning.SquaredDistance | lab10/planning.py:94 | the squared straight-line distance is non-negative and zero exactly for equal cells |
| Planning.Heuristic | lab10/planning.py:85-94 | the heuristic is non-negative and zero exactly at the goal |
| Planning.HeuristicSymmetric | lab10/planning.py:94 | the straight-line distance is the same in both directions |
| Resampling.Sum | lab8/particle_filter.py:111 | the left-to-right sum of weights that are all zero is zero |
| Resampling.SumNonNegative | lab8/particle_filter.py:111 | a sum of non-negative weights is non-negative, and positive once one weight is |
| Resampling.SumNormalize | lab8/particle_filter.py:111-114 | the normalised weights sum to the sum divided by the total |
| Resampling.NormalizedSumIsOne | lab8/particle_filter.py:111-114 | dividing the weights by their own non-zero sum makes them sum to exactly 1 |
| Resampling.Cumulative | lab8/particle_filter.py:117-121 | entry i of the accumulation is the start value plus the first i + 1 weights |
| Resampling.CumulativeStep | lab8/particle_filter.py:117-121 | each entry of the accumulation is the one before it plus its own weight |
| Resampling.CumulativeTotal | lab8/particle_filter.py:117-121 | the accumulation from 0 ends on the sum of all weights |
| Resampling.CumulativeSorted | lab8/particle_filter.py:117-121 | the accumulation of non-negative weights never decreases |
| Resampling.Distribution | lab8/particle_filter.py:111-121 | the distribution has one entry per particle and ends on exactly 1 |
| Resampling.DistributionSorted | lab8/particle_filter.py:111-121 | the distribution never decreases, so `bisect_left` may search it |
| Resampling.DistributionStep | lab8/particle_filter.py:111-121 | each entry adds that particle's share of the total weight to the entry before it (to 0 for the first) |
| Resampling.DistributionShares | lab8/particle_filter.py:111-121 | entry i is the share of the total weight carried by the first i + 1 particles |
| Resampling.BisectFrom | lab8/particle_filter.py:130 | binary search on a slice returns the boundary between the entries below x and those at least x |
| Resampling.BisectLeft | lab8/particle_filter.py:130 | `bisect_left` returns the first position whose entry is at least x, with everything before it below x |
| Resampling.BisectSelects | lab8/particle_filter.py:128-131 | a draw no larger than the last entry selects a valid index k exactly when it lies in `(a[k-1], a[k]]` |
| Resampling.SelectedByShare | lab8/particle_filter.py:114-130 | for a draw no larger than 1, `bisect_left` on the distribution returns a valid position k whose slice `(Sum(ws[..k]) / total, Sum(ws[..k + 1]) / total]` of the cumulative weight share holds the draw (position 0 also takes any draw at most 0) |
| Resampling.ZeroWeightNeverSelected | lab8/particle_filter.py:128-131 | a zero-weight particle is never selected, except the first one for a draw of exactly 0 |
| ParticleFilter.Radians | lab8/particle_filter.py:22 | degrees convert to zero radians exactly for zero degrees |
| ParticleFilter.RotationKeepsLength | lab8/particle_filter.py:23-29 | the rotation matrix keeps the length of the relative offset |
| ParticleFilter.AddRelative | lab8/particle_filter.py:20-30 | the new heading is `add_heading_deg` of the two headings. The position moves rigidly by the offset's length. A zero offset stays put, and at heading 0 the offset is added unchanged |
| ParticleFilter.MotionStep | lab8/particle_filter.py:54-57 | with zero noise a particle moves exactly as `add_relative_to_origin_frame` says. With the noise taken away, the particle has moved the length of the odometry step, and its heading is `add_heading_deg` of the old heading and the odometry turn |
| ParticleFilter.MotionUpdate | lab8/particle_filter.py:32-59 | one particle out per particle in, in order, each moved by the odometry plus its own noise sample. Without noise each particle travels exactly the odometry distance |
| ParticleFilter.TransPrecision | lab8/particle_filter.py:10-11 | the x and y entries of the inverse marker covariance are positive |
| ParticleFilter.RotPrecision | lab8/particle_filter.py:10-12 | the heading entry of the inverse marker covariance is positive |
| ParticleFilter.WeightedSquare | lab8/particle_filter.py:151 | a precision-weighted squared error is non-negative and positive exactly for a non-zero error |
| ParticleFilter.Mahalanobis | lab8/particle_filter.py:148-151 | the quadratic form is non-negative and zero exactly when all three errors are zero |
| ParticleFilter.ProbEstimate | lab8/particle_filter.py:146-153 | the likelihood lies in (0, 1] and is 1 exactly when position and heading agree with the marker |
| ParticleFilter.MaxOf | lab8/particle_filter.py:107 | `max` returns one of the entries, and no entry exceeds it |
| ParticleFilter.BestMatch | lab8/particle_filter.py:103-107 | an observation's score is the best likelihood over the map's markers, attained by one of them, and lies in (0, 1] |
| ParticleFilter.ObservationScore | lab8/particle_filter.py:99-108 | a particle's score is between 0 and the number of observations, and positive exactly when something was observed |
| ParticleFilter.Weight | lab8/particle_filter.py:94-108 | a weight is non-negative, and positive exactly for a particle on free space when something was observed |
| ParticleFilter.Weights | lab8/particle_filter.py:94-108 | there is one non-negative weight per particle |
| ParticleFilter.SubsetSize | lab8/particle_filter.py:124-125 | the number of weighted draws is the floor of 95% of the particle count |
| ParticleFilter.Resample | lab8/particle_filter.py:128-136 | each draw yields the particle `bisect_left` selects, always a valid index, followed by the spawned particles |
| ParticleFilter.MeasurementUpdate | lab8/particle_filter.py:62-138 | with nothing observed the particles are returned unchanged. The update fails exactly when a free particle meets a map without markers, or when no particle of a non-empty list is free. On success the count is kept, the drawn particles are input particles, and the spawned ones follow |
| ParticleFilter.DrawnByWeight | lab8/particle_filter.py:111-131 | when something was observed and the update succeeds, the total weight is positive and draw j yields the particle k whose slice `(Sum(ws[..k]) / total, Sum(ws[..k + 1]) / total]` of the cumulative weight share holds `draws[j]` (the first particle also takes a draw of 0): particles are picked by weight |
| ParticleFilter.TotalWeight | lab8/particle_filter.py:94-111 | the weights sum to zero exactly when no particle stands on free space |
| ParticleFilter.DrawnParticlesAreFree | lab8/particle_filter.py:94-131 | with markers on the map and at least one particle on free space, the update succeeds and every particle drawn by weight (for a positive draw) stands on free space |

## Left out

- Floating point: all arithmetic is on exact reals. Rounding, NaN and overflow are not modelled.
- I/O: the `print` calls in `motion_update` and `addPrediction`.
- The robot programs around the core are not part of this model: `cozmoBehavior`, `RobotThread`, the `main` functions and the `cozmo` calls.
- `math.sqrt`, `np.cos`, `np.sin` and `math.e ** x` are parameters. The utilities module with `add_heading_deg`, `diff_heading_deg`, `add_gaussian_noise` and `parse_marker_info`, and the `grid` and `particle` modules, are not part of this model either. The model states only what it needs of these functions (`Planning.SqrtFacts`, `ParticleFilter.EnvFacts`).
- Randomness: the Gaussian noise samples, the `random.uniform(0, 1)` draws and the particles from `Particle.create_random` are inputs. Properties that hold only in distribution are not stated.
- Planning.AStar: does not state that the path set is a cheapest one. The code does not promise optimality for an arbitrary heuristic, so only soundness (a real walk) and completeness (no path only when the goal is unreachable) are proved.
- Planning.AStar: step costs are finite reals. An infinite step cost would leave a node with infinite g and no parent in the open map, and that case is not modelled. The grid's cells are a finite set that the neighbour function never leaves (`Planning.WellFormed`).
- Planning.Heuristic: states non-negativity, zero exactly at the goal, and symmetry. It does not state that the value equals the Euclidean distance, because `math.sqrt` is a parameter.
- PredictionTracker.AddPrediction: the test `float(maxCount)/threshold >= .7` is modelled as `10 * maxCount >= 7 * threshold`. Rounding is monotone and `.7` is a double just below 0.7, so the two agree whenever the threshold is below 10^14. Only a larger threshold could let a ratio just under 70% round up to `.7`.
- PredictionTracker.Create: requires a positive threshold. With `maxlen=0` the first `addPrediction` raises on `popleft` of an empty deque, and a negative `maxlen` is rejected by `deque`.
- PredictionTracker: predictions are the eight labels of the counts dictionary. A string outside them would raise `KeyError` after the append, and is excluded by the `Label` type.
- PredictionTracker: the `size` field is decremented on every eviction and never incremented. The model keeps it as the source does and states only that it never grows.
- ParticleFilter.SubsetSize: `int(n * .95)` is modelled as `(95 * n) / 100`. These agree while `n * .95` rounds to the correct side of an integer, and no claim is made about huge particle counts.
- ParticleFilter.MeasurementUpdate: in floats the accumulated distribution may end slightly below 1, so that a draw above its last entry makes `bisect_left` return `len(distribution)` and `particles[i]` raises `IndexError`. With exact reals the last entry is exactly 1 and this cannot happen.
- ParticleFilter.MeasurementUpdate: an all-zero weight list is a failure (`ZeroTotalWeight`). The code divides by the zero sum at line 114 and has no fallback. The model follows the code.
- ParticleFilter.MeasurementUpdate: the `ZeroTotalWeight` iff assumes exact reals. In floats `math.e ** -(q/2)` underflows to 0 once q/2 exceeds about 745, so the `ZeroDivisionError` at line 114 can also occur when every free particle is far from all markers. The model does not state that case.
- ParticleFilter.Weight: "positive exactly for a particle on free space when something was observed" assumes no float underflow. A free particle far from every marker can weigh 0 in floats, because `math.e ** -(q/2)` underflows for q/2 beyond about 745.
- ParticleFilter.TotalWeight: "zero exactly when no particle stands on free space" assumes the same absence of underflow as `ParticleFilter.Weight`.
- ParticleFilter.DrawnParticlesAreFree: excludes a draw of exactly 0. `bisect_left` sends that draw to the first particle whatever its weight.
- ParticleFilter.MotionUpdate: the heading is not normalised beyond what `add_heading_deg` does, and the noise sample is added to each coordinate as `add_gaussian_noise` returns it.

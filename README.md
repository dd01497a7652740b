# Cab driver MDP environment, modelled in Dafny

This project models the environment of a cab-driver Markov Decision Process
(`Env.py`, class `CabDriver`). Each hour the driver either refuses every
request or accepts one ride `(pickup, drop)`. The environment defines:

- the action and state spaces;
- the requests offered at a location;
- the hour/day tracker;
- the transition from one state to the next, using a travel-time table indexed
  `[from][to][hour][day]`;
- the reward;
- the one-hot state encoding used by an external learning agent.

Configuration is fixed as in the source: `m = 5` cities, `t = 24` hours,
`d = 7` days, cost `C = 5` and revenue `R = 9` per hour. At most 15 requests
are offered per step.

Files and modules:

- `env.dfy`, module `Env`: states, actions, the travel-time table, the
  time/day tracker (`UpdateTimeDay`), the transition engine
  (`NextStateAndTime`, `NextState`), the reward (`Reward`) and the step driver
  (`Step`). These are pure functions, as in the source. Lemmas prove:
  - the tracker keeps time modulo a week (168 hours);
  - the tracker is plain week arithmetic, and advancing by `a` then by `b` is
    the same as advancing by `a + b`;
  - each transition case gives exactly the values the source describes;
  - the reward has the sign and formula the source describes.
- `spaces.dfy`, module `Spaces`: a closed index formula for the action space
  and for the state space, each with its inverse. `BuildActionSpace` and
  `BuildStateSpace` build the two lists with nested loops, as the
  constructor's comprehensions do, and are proved equal to the formulas.
  Lemmas prove size, placement, range, ordering, no duplicates and
  completeness.
- `encoding.dfy`, module `StateEncoding`: the one-hot vector as a function, a
  decoder that reads the positions of the ones back, and a count of ones.
- `cab_driver.dfy`, module `CabDriverEnv`: the `CabDriver` class. Its `const`
  fields `actionSpace`, `stateSpace` and `stateInit` are set once by the
  constructor and only read afterwards, as in the source. It also holds the
  array-based encoder and the request generator.

How the model uses randomness and external data:

- The random draws are parameters.
- The initial-state choice is the constructor's argument `initChoice`.
- The Poisson draw is a function `poisson: nat -> nat`, applied to the
  location's rate (2, 12, 4, 7, 8).
- `random.sample` is a function `sample: (int, int, nat) -> seq<int>`, called
  with the bounds `1` and `(m-1)*m + 1` of the population `range(...)` and the
  requested count, as at Env.py:86. Its result must be what sampling without
  replacement yields: that many distinct values between the two bounds.
- The travel-time table is an input: a `seq<seq<seq<seq<nat>>>>` of
  dimensions 5 x 5 x 24 x 7.

Three details of `Env.py` that the model keeps:

- `step` evaluates the transition twice: once directly, and once inside
  `reward_func`. `Env.Step` does the same. The function is deterministic, so
  the two evaluations agree (the last two ensures clauses of `Env.Step`).
- `update_time_day` hard-codes 24 and 7 instead of using `t` and `d`.
  `UpdateTimeDay` uses the literals too.
- Refusal is the coordinate pair `(0, 0)`, tested component by component
  (`IsRefusal`), not a separate tagged variant.

## Model

| member | source | states |
|---|---|---|
| Env.IsRefusal | Env.py:130 | The test `pickup == 0 and drop == 0` (also at line 183) holds exactly for the refusal action (0,0). |
| Env.Lookup | Env.py:135 | Every in-range query `Time_matrix[from][to][hour][day]` (also at lines 141 and 146) is defined and yields an entry of the table. |
| Env.UpdateTimeDay | Env.py:92-110 | For hour >= 0 the new hour is in [0,24). For a day in [0,7) the new day is in [0,7). When hour+duration < 24 the day is unchanged. A zero duration is the identity. No precondition is needed. |
| Env.UpdateTimeDayConservesWeekTime | Env.py:101-110 | new_day*24+new_hour ≡ day*24+hour+duration (mod 168), for all inputs. |
| Env.UpdateTimeDayIsWeekArithmetic | Env.py:101-110 | For in-range (hour, day), the result is the hour and day of (day*24+hour+duration) mod 168. This is an independent reference definition. |
| Env.FromWeekHour | Env.py:101-110 | The reference decomposition of a week hour into an in-range hour and day that recombine to it. |
| Env.UpdateTimeDayAdditive | Env.py:92-110 | Advancing by a and then by b equals advancing by a+b. |
| Env.UpdateTimeDayOneHour | Env.py:101-108 | Advancing by one hour gives (hour+1) mod 24, and the day advances (mod 7) only from hour 23. |
| Env.UpdateTimeDayExamples | Env.py:101-110 | (23,6)+1 gives (0,0); (10,2)+25 gives (11,3). |
| Env.NextStateAndTime | Env.py:113-156 | The next state is in range. wait is 1 exactly on refusal. Refusal: transit and ride are 0 and the location is kept. Acceptance: the next location is the drop. At the pickup, transit is 0. The next time is the original (hour, day) advanced by wait+transit+ride. |
| Env.RefusalTransition | Env.py:130-132 | Refusal gives (1,0,0), keeps the location and moves to the next hour, rolling over the day at 23. |
| Env.AtPickupTransition | Env.py:134-136 | Already at the pickup: transit 0, ride = T[curr][drop][h][d], next location the drop, time advanced by the ride. |
| Env.TwoLegTransition | Env.py:138-151 | General case: transit = T[curr][pickup][h][d]. The ride is looked up at the post-transit time (h',d'). The final time is the original time advanced by transit+ride. |
| Env.TwoLegFinalTimeIsArrivalPlusRide | Env.py:142-151 | The final time from the original time equals the post-transit time advanced by the ride alone. |
| Env.TransitionConservesWeekTime | Env.py:150-151 | The next state's week hour is (week hour + total time) mod 168. |
| Env.NextState | Env.py:160-163 | The next state is in range. Its location is kept on refusal and is the drop otherwise. |
| Env.Reward | Env.py:166-186 | Refusal gives exactly -C. Otherwise the reward is (R-C)*ride - C*transit. In every case, refusal included, the reward equals R*ride - C*(ride+wait+transit), so the flat override agrees with the formula. |
| Env.RewardSign | Env.py:176-181 | For an accepted trip, the reward is positive iff (R-C)*ride > C*transit. It is negative when ride = 0 and transit > 0, and positive when transit = 0 and ride > 0. |
| Env.Step | Env.py:188-199 | The next state is in range. Refusal gives reward -C, total time 1 and the same location. Otherwise the reward is R*ride - C*total_time. The next time is the original time advanced by total_time. The result is next_state_func's state, reward_func's reward and the transition's wait+transit+ride. |
| Spaces.ActionAt | Env.py:21-22 | Index 0 is the refusal, and only index 0. Every other index holds a ride with distinct in-range endpoints. |
| Spaces.ActionIndex | Env.py:21-22 | Every ride and the refusal has an index in [0, 21) that holds it. |
| Spaces.ActionIndexOfActionAt | Env.py:21-22 | The index formula inverts ActionAt. |
| Spaces.ActionAtInjective | Env.py:21-22 | Distinct indices hold distinct actions. |
| Spaces.ActionAtOrdered | Env.py:21 | Rides are in p-outer, q-inner (lexicographic) order. |
| Spaces.ActionSpaceStructure | Env.py:21-22 | The space has m*(m-1)+1 entries with (0,0) at index 0. Every other entry is a ride. There are no duplicates, the order is lexicographic, and every ride pair occurs. |
| Spaces.BuildActionSpace | Env.py:21-22 | The nested loops over p and q with p≠q, followed by inserting (0,0) at index 0, give exactly the ActionAt sequence. |
| Spaces.StateAt | Env.py:25 | Every entry of the state space is an in-range state. |
| Spaces.StateIndex | Env.py:25 | loc*t*d + time*d + day is an index in [0, m*t*d) holding the state. |
| Spaces.StateIndexOfStateAt | Env.py:25 | The index formula inverts StateAt. |
| Spaces.StateSpaceStructure | Env.py:25 | m*t*d entries, all in range. (loc,time,day) is at loc*t*d+time*d+day. There are no duplicates. |
| Spaces.BuildStateSpace | Env.py:25 | The three nested loops over loc, time and day give exactly the StateAt sequence. |
| StateEncoding.Encoding | Env.py:40-54 | Length m+t+d. A one at positions loc, m+time and m+t+day, and zero elsewhere. |
| StateEncoding.IndexOfOne | Env.py:48-50 | Returns the first position holding a one, or None when there is none. |
| StateEncoding.IndexOfOneHot | Env.py:48-50 | Reading a one-hot segment back gives its hot position. |
| StateEncoding.Decode | Env.py:40-54 | A decoded state is in range and sits on ones of the vector in each of the three segments. Every vector of length m+t+d with a one in each segment decodes. |
| StateEncoding.DecodeEncoding | Env.py:40-54 | Reading the three one-hot positions back recovers (loc, time, day). |
| StateEncoding.CountOnesAppend | Env.py:53 | The count of ones in a concatenation is the sum of the counts of its parts. |
| StateEncoding.CountOnesOneHot | Env.py:43-50 | A zeroed segment with one cell set contains exactly one 1. |
| StateEncoding.EncodingHasThreeOnes | Env.py:43-53 | An encoded state has exactly three ones. |
| CabDriverEnv.RequestRate | Env.py:64-78 | The Poisson rate of each location (2, 12, 4, 7, 8) lies in [2, 12], and location 1 alone has the highest rate, 12. |
| CabDriverEnv.CabDriver.constructor | Env.py:15-31 | The fields hold the action space and the state space. The initial state is the state space's entry at the drawn index. |
| CabDriverEnv.CabDriver.EncodeState | Env.py:33-56 | Zeroed arrays with single cells set, stacked, equal Encoding(state). |
| CabDriverEnv.CabDriver.Requests | Env.py:59-89 | There are min(draw, 15)+1 entries, and the chosen indices are the sample. The last index is 0 (refusal). The others are distinct and lie in [1, m*(m-1)]. actions[i] = action_space[indices[i]], each non-last action is a ride, and no action repeats. |

## Left out

- Random number generation is not modelled. `np.random.poisson`,
  `random.sample` and `np.random.choice` become caller-supplied parameters.
- The unused `pickup` and `drop` fields, drawn at random in the constructor,
  are not modelled: nothing reads them.
- `reset` is not modelled: it only returns the three stored fields, which are
  readable directly as `const` fields of `CabDriver`.
- Env.UpdateTimeDay: takes its duration as a `nat`. It does not model the
  `int()` conversion of a possibly fractional table entry. The table is given
  as whole-hour `nat` entries.
- CabDriverEnv.CabDriver.Requests: requires the location to be in [0, 5).
  For any other location the source fails with an unbound local variable,
  and that failure is not modelled.
- In `Requests`, the source's `random.sample` fails when more than 20
  indices are requested. The clamp to 15 rules this out for m = 5, and the
  `IsSample` precondition expresses it.
- The travel-time table is always queried in range (enforced by
  preconditions). Python's negative-index wrap-around is not modelled.
- NumPy's `hstack`/`tolist` representation is reduced to a plain `seq<int>`.

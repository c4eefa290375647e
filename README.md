# Walker balancing engine, modelled in Dafny

This project models the walker-population engine of `fragile/core/walkers.py`,
which holds the classes `SimpleWalkers` and `Walkers`. The engine runs a fixed
population of `n` walkers and repeats one balancing step:

- every walker gets a companion drawn from the walkers that are still alive;
- each walker's clone probability is its companion's relative advantage in
  virtual reward;
- walkers clone: dead walkers always clone, live ones when their probability
  beats a uniform sample;
- cloning copies the companion's cumulative reward, lineage id, environment
  state and model state.

Around that step the engine does some bookkeeping:

- it accumulates rewards;
- it decides when to stop;
- it tracks the best walker ever seen;
- it writes that best walker into the last slot.

Files:

- `ext_real.dfy` (module `ExtReals`): rewards as reals extended with both
  infinities. The best reward starts at plus or minus infinity, and
  `fix_best` can copy that value into a cumulative reward.
- `options.dfy` (module `Options`): optional values.
- `balancing.dfy` (module `Balancing`): the balancing step of `SimpleWalkers`
  as functions over sequences, with lemmas about them.
- `best_tracking.dfy` (module `BestTracking`): best-walker tracking of
  `Walkers` as functions, with lemmas about them.
- `walkers.dfy` (module `WalkersEngine`): the engine as a class
  `WalkersEngine.Walkers`. Its fields are the walker arrays and the
  environment and model containers. Its methods update those fields in place,
  and each method is proved against the functions above.

One class covers both Python classes. The methods whose names end in
`Simple` are the base-class versions that `Walkers` overrides.

The random draws are parameters:

- `draws`: the positions in the alive list that `random_state.choice` picked.
- `u`: the uniform samples of `random_sample`.

The virtual rewards come from distance and reward formulas that are outside
the model, so `Balance` takes them as a parameter.

Consequences of the code as written, each proved:

- **All walkers alive means no cloning.** The first `k` companions are
  overwritten with the alive indices. When all `n` walkers are alive, every
  walker is therefore its own companion, so every clone probability is 0 and
  nothing clones (`Balancing.CloneProbsAllAlive`,
  `Balancing.NoCloningWhenAllAlive`).
- **The best index can be a dead walker.** `_get_best_index` takes the
  extremum over the alive walkers only. It then returns the first index in the
  WHOLE array holding that value, which can be a dead walker. That dead
  candidate can in turn block an update that an alive walker with the same
  reward would have made, when the environment has ended that dead walker
  too (`BestTracking.BestIndexMayBeDead`,
  `BestTracking.TieWithDeadWalkerBlocksUpdate`).
- **`update_best` checks the environment's `ends` array, not the walkers'
  `end_condition`.** So an update can happen when every walker's
  `end_condition` is set, as long as the environment has not ended walker 0
  (`BestTracking.BestGateUsesEnvironmentEnds`).
- **The constructor starts the best reward at minus infinity even when
  minimizing**, unless it is given a best walker (fragile/core/walkers.py:363-365).
  `reset` later sets plus infinity for minimization.

## Model

| member | source | states |
|---|---|---|
| WalkersEngine.Walkers.constructor | fragile/core/walkers.py:340-372 | fresh walker arrays hold the defaults; `max_iters` defaults to 1e12; the best reward is minus infinity with no best observation or state unless a best walker (state, observation, reward) is given |
| WalkersEngine.Walkers.CalculateEndCondition | fragile/core/walkers.py:137-148 | stop exactly when every walker is dead or the iteration count has reached `max_iters` |
| Balancing.CountTrue | fragile/core/walkers.py:146 | the number of dead walkers is at most the population size |
| Balancing.CountTrueIsLength | fragile/core/walkers.py:146 | the count of dead walkers equals `n` exactly when every walker is dead |
| WalkersEngine.Walkers.Ids | fragile/core/walkers.py:108-116 | one id per walker, hashed from its environment state, so walkers in equal states share an id |
| WalkersEngine.Walkers.UpdateIds | fragile/core/walkers.py:118-120 | the stored lineage ids become the ids of the current states |
| Balancing.AliveMask | fragile/core/walkers.py:183 | the alive mask is the negation of the end condition, walker by walker |
| Balancing.AliveIndices | fragile/core/walkers.py:186 | the alive list has `n - dead` entries, each an alive walker's index, strictly increasing |
| Balancing.AliveIndicesComplete | fragile/core/walkers.py:186 | every walker that has not ended is in the alive list |
| Balancing.AliveIndicesEmpty | fragile/core/walkers.py:183-186 | the alive list is empty exactly when every walker has ended |
| Balancing.AliveIndicesAllAlive | fragile/core/walkers.py:186 | with no dead walker the alive list is `0..n` |
| Balancing.AliveCompas | fragile/core/walkers.py:174-189 | one companion per walker, each inside the population |
| Balancing.AliveCompasAllDead | fragile/core/walkers.py:184-185 | all walkers dead: every walker is its own companion |
| Balancing.DrawnCompanions | fragile/core/walkers.py:187 | the companions drawn with replacement are all alive walkers |
| Balancing.AliveCompasCoverage | fragile/core/walkers.py:186-188 | some walker alive: every companion is alive, every alive walker appears, and the first k companions are exactly the alive indices in order |
| Balancing.AliveCompasAllAlive | fragile/core/walkers.py:186-188 | no walker dead: the companions are the identity |
| WalkersEngine.AssignPrefix | fragile/core/walkers.py:188 | the slice assignment overwrites the leading slots with the prefix and keeps the rest |
| WalkersEngine.Walkers.GetAliveCompas | fragile/core/walkers.py:174-189 | stores the alive mask and returns a fresh array equal to the companion function on the current end condition and draws |
| Balancing.AllEqual | fragile/core/walkers.py:199-201 | every virtual reward equal to the first holds exactly when all virtual rewards are pairwise equal |
| Balancing.CloneProbs | fragile/core/walkers.py:191-211 | one probability and one in-range companion per walker |
| Balancing.Advantages | fragile/core/walkers.py:207-209 | each walker's probability times its virtual reward is its companion's virtual reward minus its own |
| Balancing.CloneProbsFallback | fragile/core/walkers.py:199-205 | all virtual rewards equal: every probability is 0 and the companions are the identity |
| Balancing.CloneProbSign | fragile/core/walkers.py:206-209 | otherwise, for a walker with a positive virtual reward, its probability is positive exactly when the companion's virtual reward is higher, negative exactly when it is lower, and times the walker's own reward gives the difference |
| Balancing.CloneCompanionAlive | fragile/core/walkers.py:206 | outside the fallback, when some walker is alive, every walker's companion is alive |
| Balancing.CloneProbsAboveOne | fragile/core/walkers.py:209-210 | probabilities are not clamped above: a concrete case gives 3 |
| Balancing.CloneProbsNegative | fragile/core/walkers.py:208-209 | probabilities are not clamped below: a concrete case gives -0.75 |
| Balancing.CloneProbsAllAlive | fragile/core/walkers.py:183-209 | no walker dead: every probability is 0, whatever the virtual rewards |
| WalkersEngine.Walkers.UpdateCloneProbs | fragile/core/walkers.py:191-211 | stores the probabilities and companions the clone-probability function gives; the alive mask is refreshed only outside the fallback |
| Balancing.CloneDecision | fragile/core/walkers.py:244-245 | one decision per walker |
| Balancing.CloneDecisionSpec | fragile/core/walkers.py:244-245 | dead walkers clone; a live walker clones exactly when its probability beats its sample, so never with a non-positive probability and a sample in [0, 1) |
| Balancing.OnlyDeadCloneWhenRewardsEqual | fragile/core/walkers.py:244-245 | all virtual rewards equal and samples in [0, 1): exactly the dead walkers clone |
| Balancing.NoCloningWhenAllAlive | fragile/core/walkers.py:244-245 | no walker dead and samples in [0, 1): no walker clones |
| Balancing.CloneBy | fragile/core/walkers.py:247 | the cloned array keeps the population size |
| Balancing.CloneBySpec | fragile/core/walkers.py:228-234 | cloners take the companion's value, others keep theirs, no new value appears (so the new id set is within the old one), nothing changes when nobody clones |
| Balancing.CloneEnv | fragile/core/walkers.py:248-250 | the cloned environment keeps one entry per walker in every attribute |
| Balancing.CloneModel | fragile/core/walkers.py:251-253 | the model container keeps its attribute names and sizes |
| Balancing.CloneContainersSpec | fragile/core/walkers.py:248-253 | attributes named in the ignore sets are never cloned; a walker that does not clone keeps every attribute of both containers; a walker that clones takes its companion's value of every environment attribute and model key outside the ignore sets |
| WalkersEngine.Walkers.CloneWalkers | fragile/core/walkers.py:237-253 | stores the clone decision (dead walkers clone) and applies the same mapping to cumulative rewards, ids, the environment and the model |
| WalkersEngine.IdSet | fragile/core/walkers.py:228-233 | the id set holds every walker's id and nothing else |
| WalkersEngine.Walkers.BalanceSimple | fragile/core/walkers.py:214-234 | virtual rewards, clone probabilities, then cloning, in that order; returns the id sets before and after, the second within the first |
| WalkersEngine.Walkers.Balance | fragile/core/walkers.py:407-418 | best tracking on the state before balancing, then the base step with every field it changes, the alive mask included; the best reward never gets worse |
| ExtReals.AddReal | fragile/core/walkers.py:311 | adding a finite reward keeps a finite total finite and adds exactly that reward; an infinite total stays the same infinity |
| Balancing.Accumulate | fragile/core/walkers.py:306-313 | the new cumulative rewards have one entry per walker |
| WalkersEngine.Walkers.AccumulateAndUpdateRewards | fragile/core/walkers.py:298-314 | the cumulative rewards become the old ones plus the rewards, or the rewards alone |
| Balancing.AccumulatedIsSum | fragile/core/walkers.py:306-311 | accumulating over a run of updates gives the start plus the sum of every reward received |
| Balancing.UnaccumulatedIsLast | fragile/core/walkers.py:312-313 | without accumulation the cumulative reward is the last reward received |
| Balancing.AccumulationExample | fragile/core/walkers.py:298-314 | rewards 1, 2, 3 from zero give 6 when accumulating and 3 otherwise |
| WalkersEngine.Walkers.UpdateStates | fragile/core/walkers.py:273-296 | direct rewards are accumulated first, then `end_condition` stored, then the environment replaced and its rewards accumulated, then the model merged |
| WalkersEngine.Walkers.ResetWalkerStates | fragile/core/walkers.py:269 | the walker arrays go back to their defaults |
| WalkersEngine.Walkers.ResetSimple | fragile/core/walkers.py:255-271 | the given cumulative rewards, end condition and ids, or else all eight walker arrays at their defaults; the new containers stored with the environment's rewards accumulated; the iteration count back to 0 |
| WalkersEngine.Walkers.Reset | fragile/core/walkers.py:458-486 | the base reset (every walker array as in the row above), then the best reward back to plus or minus infinity by direction and the best observation and state taken from the environment's best-rewarded walker; `best_id` is kept |
| WalkersEngine.Walkers.SeedBest | fragile/core/walkers.py:479-486 | the best reward is the starting infinity; the best observation and state belong to the environment's argmin or argmax walker |
| BestTracking.ArgBest | fragile/core/walkers.py:480 | the chosen index is inside the population |
| BestTracking.ArgBestSpec | fragile/core/walkers.py:480 | the chosen index holds the smallest (minimizing) or largest reward, and no earlier index holds that reward |
| BestTracking.Extremum | fragile/core/walkers.py:424 | the result is one of the values and none is better in the search direction |
| BestTracking.FirstIndex | fragile/core/walkers.py:425-426 | the first position of the value, or 0 when it is absent |
| BestTracking.AliveValues | fragile/core/walkers.py:421 | one value per alive walker |
| BestTracking.BestIndex | fragile/core/walkers.py:420-427 | the best index is inside the population |
| BestTracking.BestIndexSpec | fragile/core/walkers.py:420-427 | 0 when every walker is dead; otherwise an alive walker holds its reward, no alive walker is better, and no earlier walker, dead or alive, holds the same reward |
| BestTracking.BestIndexMayBeDead | fragile/core/walkers.py:421-426 | with two walkers of reward 5, walker 0 dead and walker 1 alive, the best index is the dead walker 0 |
| BestTracking.NextBest | fragile/core/walkers.py:429-448 | the record either stays as it was or becomes strictly better and is then the reward, observation, state and id of a walker the environment has not ended |
| BestTracking.BestNeverWorsens | fragile/core/walkers.py:436-441 | the best reward is non-decreasing when maximizing and non-increasing when minimizing |
| BestTracking.BestUpdateGate | fragile/core/walkers.py:429-448 | the record changes exactly when the candidate strictly improves and the environment has not ended it; it then holds the candidate's reward, observation, state and id, and no alive walker beats it |
| BestTracking.TieWithDeadWalkerBlocksUpdate | fragile/core/walkers.py:431-441 | with two walkers of reward 5, walker 0 dead in both the end condition and the environment's `ends`, walker 1 alive, and a record of minus infinity, the record stays unchanged although walker 1 would beat it |
| BestTracking.BestGateUsesEnvironmentEnds | fragile/core/walkers.py:435 | the update follows the environment's `ends`, not the walkers' end condition |
| WalkersEngine.Walkers.UpdateBest | fragile/core/walkers.py:429-448 | the record becomes the best-tracking function of the current arrays, and never gets worse |
| BestTracking.WithLast | fragile/core/walkers.py:453-456 | writing the last slot keeps the array's length |
| BestTracking.WithLastSpec | fragile/core/walkers.py:453-456 | writing the last slot sets it, leaves the others unchanged, and writing it again changes nothing |
| WalkersEngine.Walkers.FixBest | fragile/core/walkers.py:450-456 | the best observation, reward, id and state are written into slot `n - 1` of the matching arrays |

## Left out

- `calculate_distances`, both `calculate_virtual_reward` methods and `relativize`
  are left out. These are floating-point formulas (a norm, powers, entropies,
  efficiency), and `relativize` lives in `fragile/core/utils.py`, which is not
  part of this model. Virtual rewards are a parameter of `Balance`, and the
  `distances`, `compas_dist`, `processed_rewards`, `efficiency` and
  `_min_entropy` fields are left out with them.
- numpy's random sources (`permutation`, `random_state.choice`,
  `random_sample`) are not modelled. Their results are the `draws` and `u`
  parameters.
- The `**kwargs` fields of `update_states` other than `rewards` and
  `end_condition` (virtual rewards, clone probabilities and the rest) are not
  modelled as arguments of `UpdateStates`. The methods that compute them
  store them directly.
- `StatesWalkers`, `StatesEnv` and `StatesModel` live in
  `fragile/core/states.py`, which is not part of this model. The model assumes
  the following about them:
  - `StatesWalkers.clone` copies `cum_rewards` and `id_walkers` from the
    companions for the walkers that clone;
  - the environment and model `clone` apply the same mapping to every
    attribute outside the ignore set;
  - a fresh `StatesWalkers` starts at the same defaults that
    `StatesWalkers.reset` restores: zeros, all-false, all-true and identity;
  - `best_id` starts at 0;
  - `StatesWalkers.reset` leaves `best_id` (and the other best-record fields)
    as they were, so `Reset` keeps `best_id`; a reset record can therefore
    pair an old id with the new observation and state, which `fix_best` then
    writes into slot n-1;
  - `update` of a container replaces it (the environment) or merges
    attributes (the model);
  - `hash_values("states")` is a fixed function of each state.
- The critic (`critic.calculate`, `update`, `reset`) is a plug-in outside
  the engine, so it is left out together with the `critic_score` field.
- `__repr__`, `_print_stats` and `_repr_state` are left out; they only format
  text.
- `SimpleWalkers.fix_best` has no member because it does nothing.
- `n_iters` is only reset here. The caller that increments it is not part of
  this model.
- Rewards are exact reals with two infinities. Float rounding and NaN are not
  modelled.
- The population is non-empty (`n > 0`). `reset` takes the argmax of the
  environment's rewards, which fails on an empty array.
- The model container holds one element type `M` for all of its attributes.
- A `walkers_states` snapshot passed to `reset` carries cumulative rewards,
  end condition and ids. Other attributes it might carry are not modelled:
  with a snapshot, the alive mask, virtual rewards, clone probabilities,
  companions and clone decisions keep their values from before the reset.
- `AccumulateAndUpdateRewards`: the case where `cum_rewards` is missing and
  counts as zeros cannot arise here, because the array always exists and
  starts at zeros.
- `FixBest`: the `best_reward is not None` guard is not modelled, because the
  best reward always holds a value here. The method instead requires that a
  best observation and state exist, since the source copies them.
- `UpdateCloneProbs`: requires every virtual reward to be non-zero outside
  the all-equal case, because the source divides by each walker's own
  virtual reward.

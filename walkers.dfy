/** The walker-population engine object of fragile/core/walkers.py. One class
    models both `SimpleWalkers` and its subclass `Walkers`: the methods named
    `...Simple` are the base-class versions that `Walkers` overrides. The
    engine owns the walkers' per-walker arrays and holds the environment's and
    the model's state containers; every method updates these fields in place
    and is proved against the functions of modules Balancing and BestTracking.

    The random draws of the source are parameters: `draws` are the positions in
    the alive list picked by `random_state.choice`, `u` the uniform samples of
    `random_sample`. The distance and virtual-reward formulas are outside the
    model, so `Balance` receives the virtual rewards they would produce. */
module WalkersEngine {
  import opened ExtReals
  import opened Options
  import opened Balancing
  import opened BestTracking

  /** `max_iters` when the caller gives none (1e12 in the source). */
  const DefaultMaxIters: int := 1_000_000_000_000

  /** A snapshot of the walkers' own arrays, as `reset` may receive one. */
  datatype WalkerStates = WalkerStates(cumRewards: seq<ExtReal>, endCondition: seq<bool>, idWalkers: seq<int>)

  predicate WalkerStatesSized(w: WalkerStates, n: nat)
  {
    |w.cumRewards| == n && |w.endCondition| == n && |w.idWalkers| == n
  }

  /** `set(id_walkers)`: every id that some walker carries, and no other. */
  function IdSet(ids: seq<int>): (s: set<int>)
    ensures forall i :: 0 <= i < |ids| ==> ids[i] in s
    ensures forall x :: x in s ==> exists i :: 0 <= i < |ids| && ids[i] == x
  {
    set x | x in ids
  }

  /** `a[:len(prefix)] = prefix`: overwrite the leading slots in place. */
  method AssignPrefix(a: array<nat>, prefix: seq<nat>)
    requires |prefix| <= a.Length
    modifies a
    ensures a[..] == prefix + old(a[..])[|prefix|..]
  {
    for j := 0 to |prefix|
      invariant forall t :: 0 <= t < j ==> a[t] == prefix[t]
      invariant forall t :: j <= t < a.Length ==> a[t] == old(a[t])
    {
      a[j] := prefix[j];
    }
    assert a[..] == prefix + old(a[..])[|prefix|..];
  }

  class Walkers<O, S, M> {
    // configuration, fixed for the life of the engine
    const n: nat
    const maxIters: int
    const accumulateRewards: bool
    const minimize: bool
    const hash: S -> int              // the content hash behind `hash_values("states")`
    const ignoreEnv: set<EnvField>    // ignore_clone["env"]
    const ignoreModel: set<string>    // ignore_clone["model"]

    var nIters: nat

    // the walkers' own state (StatesWalkers)
    var cumRewards: seq<ExtReal>
    var endCondition: seq<bool>
    var aliveMask: seq<bool>
    var idWalkers: seq<int>
    var virtualRewards: seq<real>
    var cloneProbs: seq<real>
    var compasClone: seq<nat>
    var willClone: seq<bool>
    var bestReward: ExtReal
    var bestObs: Option<O>
    var bestState: Option<S>
    var bestId: int

    // the collaborators' state containers (StatesEnv, StatesModel)
    var env: EnvStates<O, S>
    var model: map<string, seq<M>>

    /** Every per-walker array has one entry per walker, and companions stay
        inside the population. */
    ghost predicate Valid()
      reads this
    {
      && n > 0
      && |cumRewards| == n && |endCondition| == n && |aliveMask| == n && |idWalkers| == n
      && |virtualRewards| == n && |cloneProbs| == n && |willClone| == n
      && ValidCompanions(compasClone, n)
      && EnvSized(env, n)
      && ModelSized(model, n)
    }

    /** The best-ever record as one value. */
    function CurrentBest(): Best<O, S>
      reads this
    {
      Best(bestReward, bestObs, bestState, bestId)
    }

    /** The walkers' arrays hold the defaults a fresh `StatesWalkers` starts with. */
    ghost predicate DefaultWalkerStates()
      reads this
    {
      && cumRewards == Zeros(n)
      && endCondition == Fill(n, false)
      && idWalkers == Fill(n, 0)
      && DefaultScratchArrays()
    }

    /** The arrays one balancing step recomputes (alive mask, virtual rewards,
        clone probabilities, companions, clone decisions) at their defaults. */
    ghost predicate DefaultScratchArrays()
      reads this`aliveMask, this`virtualRewards, this`cloneProbs, this`compasClone, this`willClone
    {
      && aliveMask == Fill(n, true)
      && virtualRewards == Fill(n, 0.0)
      && cloneProbs == Fill(n, 0.0)
      && compasClone == Range(n)
      && willClone == Fill(n, false)
    }

    /** `Walkers.__init__`: the configuration, fresh walker arrays and the
        initial containers; the best reward starts at minus infinity unless a
        best walker is given, whatever the direction of the search. */
    constructor (n: nat, env0: EnvStates<O, S>, model0: map<string, seq<M>>, maxIters: Option<int>,
                 accumulateRewards: bool, minimize: bool, hash: S -> int,
                 ignoreEnv: set<EnvField>, ignoreModel: set<string>, bestWalker: Option<(S, O, real)>)
      requires n > 0 && EnvSized(env0, n) && ModelSized(model0, n)
      ensures Valid() && DefaultWalkerStates() && nIters == 0
      ensures this.n == n && this.accumulateRewards == accumulateRewards && this.minimize == minimize
      ensures this.maxIters == (if maxIters.Some? then maxIters.value else DefaultMaxIters)
      ensures this.hash == hash && this.ignoreEnv == ignoreEnv && this.ignoreModel == ignoreModel
      ensures env == env0 && model == model0
      ensures bestWalker.None? ==> CurrentBest() == Best(NegInf, None, None, 0)
      ensures bestWalker.Some? ==>
        CurrentBest() == Best(Fin(bestWalker.value.2), Some(bestWalker.value.1), Some(bestWalker.value.0), 0)
    {
      this.n := n;
      this.maxIters := if maxIters.Some? then maxIters.value else DefaultMaxIters;
      this.accumulateRewards := accumulateRewards;
      this.minimize := minimize;
      this.hash := hash;
      this.ignoreEnv := ignoreEnv;
      this.ignoreModel := ignoreModel;
      nIters := 0;
      cumRewards, endCondition, aliveMask, idWalkers := Zeros(n), Fill(n, false), Fill(n, true), Fill(n, 0);
      virtualRewards, cloneProbs, compasClone, willClone := Fill(n, 0.0), Fill(n, 0.0), Range(n), Fill(n, false);
      if bestWalker.Some? {
        var (s, o, r) := bestWalker.value;
        bestReward, bestObs, bestState := Fin(r), Some(o), Some(s);
      } else {
        bestReward, bestObs, bestState := NegInf, None, None;
      }
      bestId := 0;
      env := env0;
      model := model0;
    }

    // -------------------------------------------------------------------------
    // Queries
    // -------------------------------------------------------------------------

    /** `calculate_end_condition`: stop when every walker is dead or the
        iteration budget is spent. */
    function CalculateEndCondition(): (stop: bool)
      reads this
      requires Valid()
      ensures stop <==> (forall i :: 0 <= i < n ==> endCondition[i]) || nIters >= maxIters
    {
      CountTrueIsLength(endCondition);
      CountTrue(endCondition) == n || nIters >= maxIters
    }

    /** `ids`: one lineage id per walker, a hash of its environment state, so
        walkers in the same environment state share an id. */
    function Ids(): (ids: seq<int>)
      reads this
      requires Valid()
      ensures |ids| == n
      ensures forall i, j :: 0 <= i < n && 0 <= j < n && env.states[i] == env.states[j] ==> ids[i] == ids[j]
    {
      var states := env.states;
      seq(n, i requires 0 <= i < n => hash(states[i]))
    }

    // -------------------------------------------------------------------------
    // State updates
    // -------------------------------------------------------------------------

    /** `update_ids`. */
    method UpdateIds()
      requires Valid()
      modifies this`idWalkers
      ensures Valid() && idWalkers == Ids()
    {
      idWalkers := Ids();
    }

    /** `_accumulate_and_update_rewards`. A missing `cum_rewards` counts as
        zeros in the source; here the array is always present and starts at
        zeros. */
    method AccumulateAndUpdateRewards(rewards: seq<real>)
      requires Valid() && |rewards| == n
      modifies this`cumRewards
      ensures Valid() && cumRewards == Accumulate(accumulateRewards, old(cumRewards), rewards)
    {
      cumRewards := Accumulate(accumulateRewards, cumRewards, rewards);
    }

    /** `update_states`: rewards given directly are accumulated first, then the
        other walker fields (here `end_condition`) are stored, then a new
        environment snapshot replaces the old one and its rewards are
        accumulated too, then the model's attributes are merged in. */
    method UpdateStates(rewards: Option<seq<real>>, endCond: Option<seq<bool>>,
                        envIn: Option<EnvStates<O, S>>, modelIn: Option<map<string, seq<M>>>)
      requires Valid()
      requires rewards.Some? ==> |rewards.value| == n
      requires endCond.Some? ==> |endCond.value| == n
      requires envIn.Some? ==> EnvSized(envIn.value, n)
      requires modelIn.Some? ==> ModelSized(modelIn.value, n)
      modifies this`cumRewards, this`endCondition, this`env, this`model
      ensures Valid()
      ensures var direct := if rewards.Some? then Accumulate(accumulateRewards, old(cumRewards), rewards.value)
                            else old(cumRewards);
        cumRewards == if envIn.Some? then Accumulate(accumulateRewards, direct, envIn.value.rewards) else direct
      ensures endCondition == if endCond.Some? then endCond.value else old(endCondition)
      ensures env == if envIn.Some? then envIn.value else old(env)
      ensures model == if modelIn.Some? then old(model) + modelIn.value else old(model)
    {
      if rewards.Some? {
        AccumulateAndUpdateRewards(rewards.value);
      }
      if endCond.Some? {
        endCondition := endCond.value;
      }
      if envIn.Some? {
        env := envIn.value;
        AccumulateAndUpdateRewards(envIn.value.rewards);
      }
      if modelIn.Some? {
        model := model + modelIn.value;
      }
    }

    /** `states.reset()`: the walkers' arrays go back to their defaults. */
    method ResetWalkerStates()
      requires Valid()
      modifies this`cumRewards, this`endCondition, this`aliveMask, this`idWalkers,
               this`virtualRewards, this`cloneProbs, this`compasClone, this`willClone
      ensures Valid() && DefaultWalkerStates()
    {
      cumRewards, endCondition, aliveMask, idWalkers := Zeros(n), Fill(n, false), Fill(n, true), Fill(n, 0);
      virtualRewards, cloneProbs, compasClone, willClone := Fill(n, 0.0), Fill(n, 0.0), Range(n), Fill(n, false);
    }

    /** What `SimpleWalkers.reset` leaves behind, given the state before it. */
    ghost predicate ResetDone(oldEnv: EnvStates<O, S>, oldModel: map<string, seq<M>>, envIn: Option<EnvStates<O, S>>,
                              modelIn: Option<map<string, seq<M>>>, walkersIn: Option<WalkerStates>)
      reads this`nIters, this`env, this`model, this`cumRewards, this`endCondition, this`idWalkers
      requires envIn.Some? ==> |envIn.value.rewards| == n
      requires walkersIn.Some? ==> WalkerStatesSized(walkersIn.value, n)
    {
      var base := if walkersIn.Some? then walkersIn.value.cumRewards else Zeros(n);
      && nIters == 0
      && env == (if envIn.Some? then envIn.value else oldEnv)
      && model == (if modelIn.Some? then oldModel + modelIn.value else oldModel)
      && cumRewards == (if envIn.Some? then Accumulate(accumulateRewards, base, envIn.value.rewards) else base)
      && endCondition == (if walkersIn.Some? then walkersIn.value.endCondition else Fill(n, false))
      && idWalkers == (if walkersIn.Some? then walkersIn.value.idWalkers else Fill(n, 0))
    }

    /** `SimpleWalkers.reset`: take the given walker arrays or the defaults,
        store the given containers (accumulating the environment's rewards),
        and restart the iteration counter. */
    method ResetSimple(envIn: Option<EnvStates<O, S>>, modelIn: Option<map<string, seq<M>>>,
                       walkersIn: Option<WalkerStates>)
      requires Valid()
      requires envIn.Some? ==> EnvSized(envIn.value, n)
      requires modelIn.Some? ==> ModelSized(modelIn.value, n)
      requires walkersIn.Some? ==> WalkerStatesSized(walkersIn.value, n)
      modifies this`cumRewards, this`endCondition, this`aliveMask, this`idWalkers, this`virtualRewards,
               this`cloneProbs, this`compasClone, this`willClone, this`env, this`model, this`nIters
      ensures Valid() && ResetDone(old(env), old(model), envIn, modelIn, walkersIn)
      ensures walkersIn.None? ==> DefaultScratchArrays()
      ensures walkersIn.Some? ==> unchanged(this`aliveMask, this`virtualRewards, this`cloneProbs, this`compasClone, this`willClone)
    {
      if walkersIn.Some? {
        cumRewards := walkersIn.value.cumRewards;
        endCondition := walkersIn.value.endCondition;
        idWalkers := walkersIn.value.idWalkers;
      } else {
        ResetWalkerStates();
      }
      UpdateStates(None, None, envIn, modelIn);
      nIters := 0;
    }

    /** `Walkers.reset`: the base reset, then the best reward goes back to the
        infinity the search direction starts from and the best observation and
        state are seeded from the environment's best-rewarded walker. */
    method Reset(envIn: Option<EnvStates<O, S>>, modelIn: Option<map<string, seq<M>>>,
                 walkersIn: Option<WalkerStates>)
      requires Valid()
      requires envIn.Some? ==> EnvSized(envIn.value, n)
      requires modelIn.Some? ==> ModelSized(modelIn.value, n)
      requires walkersIn.Some? ==> WalkerStatesSized(walkersIn.value, n)
      modifies this`cumRewards, this`endCondition, this`aliveMask, this`idWalkers, this`virtualRewards,
               this`cloneProbs, this`compasClone, this`willClone, this`env, this`model, this`nIters,
               this`bestReward, this`bestObs, this`bestState
      ensures Valid() && ResetDone(old(env), old(model), envIn, modelIn, walkersIn)
      ensures bestReward == if minimize then PosInf else NegInf
      ensures var ix := ArgBest(env.rewards, minimize);
        bestObs == Some(env.observs[ix]) && bestState == Some(env.states[ix])
      ensures walkersIn.None? ==> DefaultScratchArrays()
      ensures walkersIn.Some? ==> unchanged(this`aliveMask, this`virtualRewards, this`cloneProbs, this`compasClone, this`willClone)
      ensures bestId == old(bestId)
    {
      ResetSimple(envIn, modelIn, walkersIn);
      SeedBest();
    }

    /** The best-record part of `Walkers.reset`: the best reward goes back to
        the starting infinity and the best observation and state are those of
        the environment's best-rewarded walker. */
    method SeedBest()
      requires Valid()
      modifies this`bestReward, this`bestObs, this`bestState
      ensures Valid()
      ensures bestReward == if minimize then PosInf else NegInf
      ensures var ix := ArgBest(env.rewards, minimize);
        bestObs == Some(env.observs[ix]) && bestState == Some(env.states[ix])
    {
      var rewards, observs, states := env.rewards, env.observs, env.states;
      var ix := ArgBest(rewards, minimize);
      bestReward, bestObs, bestState := if minimize then PosInf else NegInf, Some(observs[ix]), Some(states[ix]);
    }

    // -------------------------------------------------------------------------
    // One balancing iteration
    // -------------------------------------------------------------------------

    /** `get_alive_compas`: store the alive mask, then draw companions among
        the alive walkers and overwrite the first k slots with the alive
        indices in order; the identity when every walker is dead. */
    method GetAliveCompas(draws: seq<nat>) returns (compas: array<nat>)
      requires Valid() && ValidDraws(endCondition, draws)
      modifies this`aliveMask
      ensures Valid() && aliveMask == AliveMask(endCondition)
      ensures fresh(compas) && compas[..] == AliveCompas(endCondition, draws)
    {
      aliveMask := AliveMask(endCondition);
      AliveIndicesEmpty(endCondition);
      if !(exists i :: 0 <= i < n && aliveMask[i]) {
        compas := new nat[n](i => i);
        AliveCompasAllDead(endCondition, draws);
        assert compas[..] == AliveCompas(endCondition, draws);
        return;
      }
      var drawn := DrawnCompanions(endCondition, draws);
      compas := new nat[n](j requires 0 <= j < n => drawn[j]);
      assert compas[..] == drawn;
      AssignPrefix(compas, AliveIndices(endCondition));
      AliveCompasSplit(endCondition, draws);
      assert compas[..] == AliveCompas(endCondition, draws);
    }

    /** `update_clone_probs`. */
    method UpdateCloneProbs(draws: seq<nat>)
      requires Valid() && ValidDraws(endCondition, draws)
      requires !AllEqual(virtualRewards) ==> forall i :: 0 <= i < n ==> virtualRewards[i] != 0.0
      modifies this`cloneProbs, this`compasClone, this`aliveMask
      ensures Valid()
      ensures var step := CloneProbs(virtualRewards, endCondition, draws);
        cloneProbs == step.probs && compasClone == step.compas
      ensures aliveMask == if AllEqual(virtualRewards) then old(aliveMask) else AliveMask(endCondition)
    {
      var vr := virtualRewards;
      if forall i :: 0 <= i < n ==> vr[i] == vr[0] {
        cloneProbs := Fill(n, 0.0);
        compasClone := Range(n);
      } else {
        var compasArray := GetAliveCompas(draws);
        var compas := compasArray[..];
        cloneProbs := Advantages(vr, compas);
        compasClone := compas;
      }
    }

    /** `clone_walkers`: decide who clones (dead walkers always do), then apply
        the walkers' own clone mapping to the cumulative rewards and lineage
        ids, and the same mapping to both containers, sparing the attributes
        named in `ignore_clone`. */
    method CloneWalkers(u: seq<real>)
      requires Valid() && |u| == n
      modifies this`willClone, this`cumRewards, this`idWalkers, this`env, this`model
      ensures Valid()
      ensures willClone == CloneDecision(cloneProbs, endCondition, u)
      ensures forall i :: 0 <= i < n && endCondition[i] ==> willClone[i]
      ensures cumRewards == CloneBy(old(cumRewards), willClone, compasClone)
      ensures idWalkers == CloneBy(old(idWalkers), willClone, compasClone)
      ensures env == CloneEnv(old(env), willClone, compasClone, ignoreEnv)
      ensures model == CloneModel(old(model), willClone, compasClone, ignoreModel)
    {
      var will := CloneDecision(cloneProbs, endCondition, u);
      willClone := will;
      cumRewards := CloneBy(cumRewards, will, compasClone);
      idWalkers := CloneBy(idWalkers, will, compasClone);
      env := CloneEnv(env, will, compasClone, ignoreEnv);
      model := CloneModel(model, will, compasClone, ignoreModel);
    }

    /** `SimpleWalkers.balance`: store the virtual rewards, compute the clone
        probabilities, clone, and return the lineage ids before and after.
        Cloning only copies ids, so no new lineage appears. */
    method BalanceSimple(vr: seq<real>, draws: seq<nat>, u: seq<real>) returns (oldIds: set<int>, newIds: set<int>)
      requires Valid() && |vr| == n && |u| == n && ValidDraws(endCondition, draws)
      requires !AllEqual(vr) ==> forall i :: 0 <= i < n ==> vr[i] != 0.0
      modifies this`virtualRewards, this`cloneProbs, this`compasClone, this`aliveMask, this`willClone,
               this`cumRewards, this`idWalkers, this`env, this`model
      ensures Valid()
      ensures oldIds == IdSet(old(idWalkers)) && newIds == IdSet(idWalkers)
      ensures newIds <= oldIds
      ensures virtualRewards == vr
      ensures var step := CloneProbs(vr, endCondition, draws);
        cloneProbs == step.probs && compasClone == step.compas
      ensures aliveMask == if AllEqual(vr) then old(aliveMask) else AliveMask(endCondition)
      ensures willClone == CloneDecision(cloneProbs, endCondition, u)
      ensures cumRewards == CloneBy(old(cumRewards), willClone, compasClone)
      ensures idWalkers == CloneBy(old(idWalkers), willClone, compasClone)
      ensures env == CloneEnv(old(env), willClone, compasClone, ignoreEnv)
      ensures model == CloneModel(old(model), willClone, compasClone, ignoreModel)
    {
      oldIds := IdSet(idWalkers);
      virtualRewards := vr;
      UpdateCloneProbs(draws);
      CloneWalkers(u);
      newIds := IdSet(idWalkers);
      CloneBySpec(old(idWalkers), willClone, compasClone);
    }

    /** `update_best`. */
    method UpdateBest()
      requires Valid()
      modifies this`bestReward, this`bestObs, this`bestState, this`bestId
      ensures Valid()
      ensures CurrentBest() == NextBest(old(CurrentBest()), minimize, cumRewards, endCondition, env.ends,
                                        env.observs, env.states, idWalkers)
      ensures if minimize then LessEq(bestReward, old(bestReward)) else LessEq(old(bestReward), bestReward)
    {
      var ix := BestIndex(cumRewards, endCondition, minimize);
      var candidate := cumRewards[ix];
      var bestIsAlive := !env.ends[ix];
      var hasImproved := if minimize then Less(candidate, bestReward) else Less(bestReward, candidate);
      if hasImproved && bestIsAlive {
        bestReward, bestState, bestObs, bestId := candidate, Some(env.states[ix]), Some(env.observs[ix]), idWalkers[ix];
      }
      BestNeverWorsens(old(CurrentBest()), minimize, cumRewards, endCondition, env.ends,
                       env.observs, env.states, idWalkers);
    }

    /** `Walkers.balance`: track the best walker, then run the base balancing
        step. */
    method Balance(vr: seq<real>, draws: seq<nat>, u: seq<real>) returns (oldIds: set<int>, newIds: set<int>)
      requires Valid() && |vr| == n && |u| == n && ValidDraws(endCondition, draws)
      requires !AllEqual(vr) ==> forall i :: 0 <= i < n ==> vr[i] != 0.0
      modifies this`virtualRewards, this`cloneProbs, this`compasClone, this`aliveMask, this`willClone,
               this`cumRewards, this`idWalkers, this`env, this`model,
               this`bestReward, this`bestObs, this`bestState, this`bestId
      ensures Valid()
      ensures CurrentBest() == NextBest(old(CurrentBest()), minimize, old(cumRewards), endCondition, old(env.ends),
                                        old(env.observs), old(env.states), old(idWalkers))
      ensures if minimize then LessEq(bestReward, old(bestReward)) else LessEq(old(bestReward), bestReward)
      ensures oldIds == IdSet(old(idWalkers)) && newIds == IdSet(idWalkers) && newIds <= oldIds
      ensures virtualRewards == vr
      ensures var step := CloneProbs(vr, endCondition, draws);
        cloneProbs == step.probs && compasClone == step.compas
      ensures aliveMask == if AllEqual(vr) then old(aliveMask) else AliveMask(endCondition)
      ensures willClone == CloneDecision(cloneProbs, endCondition, u)
      ensures cumRewards == CloneBy(old(cumRewards), willClone, compasClone)
      ensures idWalkers == CloneBy(old(idWalkers), willClone, compasClone)
      ensures env == CloneEnv(old(env), willClone, compasClone, ignoreEnv)
      ensures model == CloneModel(old(model), willClone, compasClone, ignoreModel)
    {
      UpdateBest();
      oldIds, newIds := BalanceSimple(vr, draws, u);
    }

    /** `Walkers.fix_best`: copy the best-ever observation, reward, id and
        environment state into the last walker slot. The source copies
        `best_obs` and `best_state`, so these must have been set (by the
        constructor's best walker, `reset` or `update_best`). */
    method FixBest()
      requires Valid() && bestObs.Some? && bestState.Some?
      modifies this`env, this`cumRewards, this`idWalkers
      ensures Valid()
      ensures env == old(env).(observs := WithLast(old(env.observs), bestObs.value),
                               states := WithLast(old(env.states), bestState.value))
      ensures cumRewards == WithLast(old(cumRewards), bestReward)
      ensures idWalkers == WithLast(old(idWalkers), bestId)
    {
      env := env.(observs := env.observs[n - 1 := bestObs.value]);
      cumRewards := cumRewards[n - 1 := bestReward];
      idWalkers := idWalkers[n - 1 := bestId];
      env := env.(states := env.states[n - 1 := bestState.value]);
    }
  }
}

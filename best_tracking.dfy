/** Best-solution tracking of the extended engine (`Walkers` in
    fragile/core/walkers.py): which walker is the current best candidate, when
    the best-ever record is overwritten, and the final copy of that record into
    the last walker slot. */
module BestTracking {
  import opened ExtReals
  import opened Options
  import opened Balancing

  /** Reward a strictly beats reward b in the direction of the search. */
  predicate Better(minimize: bool, a: ExtReal, b: ExtReal)
  {
    if minimize then Less(a, b) else Less(b, a)
  }

  /** `rewards.min()` when minimizing, `rewards.max()` otherwise. */
  function Extremum(xs: seq<ExtReal>, minimize: bool): (m: ExtReal)
    requires |xs| > 0
    ensures m in xs
    ensures forall j :: 0 <= j < |xs| ==> !Better(minimize, xs[j], m)
  {
    if |xs| == 1 then xs[0]
    else
      var prefix := xs[..|xs| - 1];
      var m' := Extremum(prefix, minimize);
      var x := xs[|xs| - 1];
      assert forall j :: 0 <= j < |prefix| ==> prefix[j] == xs[j];
      if Better(minimize, x, m') then x else m'
  }

  /** `(xs == v).astype(int).argmax()`: the first position holding v, and 0
      when there is none (the argmax of an all-zero array). */
  function FirstIndex<T(==)>(xs: seq<T>, v: T): (r: nat)
    ensures v in xs ==> r < |xs| && xs[r] == v && forall j :: 0 <= j < r ==> xs[j] != v
    ensures v !in xs ==> r == 0
  {
    if v !in xs then 0
    else if xs[0] == v then 0
    else 1 + FirstIndex(xs[1..], v)
  }

  /** `cum_rewards[numpy.logical_not(end_condition)]`. */
  function AliveValues(cum: seq<ExtReal>, ends: seq<bool>): (r: seq<ExtReal>)
    requires |cum| == |ends|
    ensures |r| == |AliveIndices(ends)|
  {
    var alive := AliveIndices(ends);
    seq(|alive|, j requires 0 <= j < |alive| => cum[alive[j]])
  }

  /** `_get_best_index`: 0 when no walker is alive; otherwise the first index,
      over the WHOLE population, whose cumulative reward equals the best reward
      among the alive walkers. */
  function BestIndex(cum: seq<ExtReal>, ends: seq<bool>, minimize: bool): (ix: nat)
    requires |cum| == |ends|
    ensures |cum| > 0 ==> ix < |cum|
  {
    var rewards := AliveValues(cum, ends);
    if |rewards| == 0 then 0
    else FirstIndex(cum, Extremum(rewards, minimize))
  }

  /** The best index is 0 when every walker is dead. Otherwise its reward is
      that of some alive walker, no alive walker beats it, and no earlier walker,
      dead or alive, holds the same reward. */
  lemma BestIndexSpec(cum: seq<ExtReal>, ends: seq<bool>, minimize: bool)
    requires |cum| == |ends|
    ensures (forall i :: 0 <= i < |ends| ==> ends[i]) ==> BestIndex(cum, ends, minimize) == 0
    ensures (exists i :: 0 <= i < |ends| && !ends[i]) ==>
      var ix := BestIndex(cum, ends, minimize);
      && ix < |cum|
      && (exists a :: 0 <= a < |ends| && !ends[a] && cum[a] == cum[ix])
      && (forall a :: 0 <= a < |ends| && !ends[a] ==> !Better(minimize, cum[a], cum[ix]))
      && (forall j :: 0 <= j < ix ==> cum[j] != cum[ix])
  {
    AliveIndicesEmpty(ends);
    if exists i :: 0 <= i < |ends| && !ends[i] {
      var alive := AliveIndices(ends);
      var rewards := AliveValues(cum, ends);
      var best := Extremum(rewards, minimize);
      var ix := BestIndex(cum, ends, minimize);
      var k :| 0 <= k < |rewards| && rewards[k] == best;
      assert cum[alive[k]] == best;
      forall a | 0 <= a < |ends| && !ends[a]
        ensures !Better(minimize, cum[a], best)
      {
        AliveIndicesComplete(ends, a);
        var j :| 0 <= j < |alive| && alive[j] == a;
        assert rewards[j] == cum[a];
      }
    }
  }

  /** The best index can name a dead walker: a dead walker placed before an
      alive one with the same reward is returned instead of it. */
  lemma BestIndexMayBeDead()
    ensures BestIndex([Fin(5.0), Fin(5.0)], [true, false], false) == 0
  {
    var ends := [true, false];
    assert ends[..1] == [true];
    assert AliveIndices([true]) == [];
    assert AliveIndices(ends) == [1];
    assert AliveValues([Fin(5.0), Fin(5.0)], ends) == [Fin(5.0)];
  }

  /** `rewards.argmin()` when minimizing, `rewards.argmax()` otherwise: a
      later reward replaces the current choice only when strictly better, so
      the first extremal position wins. */
  function ArgBest(rewards: seq<real>, minimize: bool): (ix: nat)
    requires |rewards| > 0
    ensures ix < |rewards|
  {
    if |rewards| == 1 then 0
    else
      var ix' := ArgBest(rewards[..|rewards| - 1], minimize);
      var last := |rewards| - 1;
      if (if minimize then rewards[last] < rewards[ix'] else rewards[last] > rewards[ix']) then last else ix'
  }

  /** ArgBest is the first position of the smallest (minimizing) or largest
      (maximizing) reward. */
  lemma {:induction false} ArgBestSpec(rewards: seq<real>, minimize: bool)
    requires |rewards| > 0
    ensures var ix := ArgBest(rewards, minimize);
      && (forall j :: 0 <= j < |rewards| ==> if minimize then rewards[ix] <= rewards[j] else rewards[j] <= rewards[ix])
      && (forall j :: 0 <= j < ix ==> rewards[j] != rewards[ix])
  {
    if |rewards| > 1 {
      var prefix := rewards[..|rewards| - 1];
      ArgBestSpec(prefix, minimize);
      assert forall j :: 0 <= j < |prefix| ==> prefix[j] == rewards[j];
    }
  }

  /** The best-ever record: `best_reward`, `best_obs`, `best_state`, `best_id`. */
  datatype Best<O, S> = Best(reward: ExtReal, obs: Option<O>, state: Option<S>, id: int)

  /** The walker arrays `update_best` reads. */
  predicate SameSize<O, S>(cum: seq<ExtReal>, ends: seq<bool>, envEnds: seq<bool>,
                           observs: seq<O>, states: seq<S>, ids: seq<int>)
  {
    |cum| > 0 && |ends| == |cum| && |envEnds| == |cum| && |observs| == |cum| && |states| == |cum| && |ids| == |cum|
  }

  /** `update_best`: take the best candidate's reward, observation, state and
      id when it strictly beats the record and the ENVIRONMENT does not flag it
      as ended (`env_states.ends`, not the walkers' `end_condition`). */
  function NextBest<O, S>(b: Best<O, S>, minimize: bool, cum: seq<ExtReal>, ends: seq<bool>, envEnds: seq<bool>,
                          observs: seq<O>, states: seq<S>, ids: seq<int>): (r: Best<O, S>)
    requires SameSize(cum, ends, envEnds, observs, states, ids)
    ensures r == b || (Better(minimize, r.reward, b.reward) &&
      exists i :: 0 <= i < |cum| && !envEnds[i] && r == Best(cum[i], Some(observs[i]), Some(states[i]), ids[i]))
  {
    var ix := BestIndex(cum, ends, minimize);
    if Better(minimize, cum[ix], b.reward) && !envEnds[ix] then
      Best(cum[ix], Some(observs[ix]), Some(states[ix]), ids[ix])
    else b
  }

  /** The best-ever reward never gets worse: non-decreasing when maximizing,
      non-increasing when minimizing. */
  lemma BestNeverWorsens<O, S>(b: Best<O, S>, minimize: bool, cum: seq<ExtReal>, ends: seq<bool>, envEnds: seq<bool>,
                               observs: seq<O>, states: seq<S>, ids: seq<int>)
    requires SameSize(cum, ends, envEnds, observs, states, ids)
    ensures var r := NextBest(b, minimize, cum, ends, envEnds, observs, states, ids);
      if minimize then LessEq(r.reward, b.reward) else LessEq(b.reward, r.reward)
  {
  }

  /** The record changes exactly when the candidate strictly improves on it and
      the environment has not ended it; the new record then belongs to a walker
      the environment has not ended, and when some walker is alive no alive
      walker beats it. */
  lemma BestUpdateGate<O, S>(b: Best<O, S>, minimize: bool, cum: seq<ExtReal>, ends: seq<bool>, envEnds: seq<bool>,
                             observs: seq<O>, states: seq<S>, ids: seq<int>)
    requires SameSize(cum, ends, envEnds, observs, states, ids)
    ensures var ix := BestIndex(cum, ends, minimize);
      var r := NextBest(b, minimize, cum, ends, envEnds, observs, states, ids);
      && (r != b <==> Better(minimize, cum[ix], b.reward) && !envEnds[ix])
      && (r != b ==> r == Best(cum[ix], Some(observs[ix]), Some(states[ix]), ids[ix]))
      && (r != b && (exists i :: 0 <= i < |ends| && !ends[i]) ==>
            forall a :: 0 <= a < |ends| && !ends[a] ==> !Better(minimize, cum[a], r.reward))
  {
    var ix := BestIndex(cum, ends, minimize);
    LessIsStrictTotalOrder(cum[ix], b.reward, cum[ix]);
    BestIndexSpec(cum, ends, minimize);
  }

  /** A tie with a dead walker placed first blocks the update: walker 1 is
      alive with reward 5 and would beat the record, but the candidate is the
      dead walker 0. */
  lemma TieWithDeadWalkerBlocksUpdate(b: Best<int, int>)
    requires b.reward == NegInf
    ensures NextBest(b, false, [Fin(5.0), Fin(5.0)], [true, false], [true, false], [10, 11], [20, 21], [30, 31]) == b
  {
    BestIndexMayBeDead();
  }

  /** The gate is the environment's termination flag: a walker whose
      `end_condition` is set but which the environment has not ended can become
      the best; one the environment has ended cannot, even if `end_condition`
      says it is alive. */
  lemma BestGateUsesEnvironmentEnds(b: Best<int, int>)
    requires b.reward == NegInf
    ensures NextBest(b, false, [Fin(1.0)], [true], [false], [10], [20], [30]) == Best(Fin(1.0), Some(10), Some(20), 30)
    ensures NextBest(b, false, [Fin(1.0)], [false], [true], [10], [20], [30]) == b
  {
    assert [true][..0] == [];
    assert AliveIndices([true]) == [];
    assert [false][..0] == [];
    assert AliveIndices([false]) == [0];
    assert AliveValues([Fin(1.0)], [false]) == [Fin(1.0)];
  }

  /** `arr[-1] = v`: overwrite the last slot. */
  function WithLast<T>(s: seq<T>, v: T): (r: seq<T>)
    requires |s| > 0
    ensures |r| == |s|
  {
    s[|s| - 1 := v]
  }

  /** `fix_best` writes only the last slot, and writing it again changes nothing. */
  lemma WithLastSpec<T>(s: seq<T>, v: T)
    requires |s| > 0
    ensures WithLast(s, v)[|s| - 1] == v
    ensures forall i :: 0 <= i < |s| - 1 ==> WithLast(s, v)[i] == s[i]
    ensures WithLast(WithLast(s, v), v) == WithLast(s, v)
  {
  }
}

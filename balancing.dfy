/** The whole-array computations of the balancing engine (`SimpleWalkers` in
    fragile/core/walkers.py), stated as functions over the per-walker arrays of
    a population of n walkers. The engine class in module WalkersEngine is
    proved against these functions; the lemmas here state what the source
    promises about them. */
module Balancing {
  import opened ExtReals

  /** `numpy.arange(n)`. */
  function Range(n: nat): (r: seq<nat>)
    ensures |r| == n
    ensures forall i :: 0 <= i < n ==> r[i] == i
  {
    seq(n, i => i)
  }

  /** `numpy.full(n, v)`: n copies of one value. */
  function Fill<T>(n: nat, v: T): (r: seq<T>)
    ensures |r| == n
    ensures forall i :: 0 <= i < n ==> r[i] == v
  {
    seq(n, i => v)
  }

  /** `numpy.zeros(n)` as cumulative rewards: the value accumulation starts from. */
  function Zeros(n: nat): (r: seq<ExtReal>)
    ensures |r| == n
    ensures forall i :: 0 <= i < n ==> r[i] == Fin(0.0)
  {
    seq(n, i => Fin(0.0))
  }

  // ---------------------------------------------------------------------------
  // Termination test
  // ---------------------------------------------------------------------------

  /** `mask.sum()` for a boolean mask. */
  function CountTrue(s: seq<bool>): (c: nat)
    ensures c <= |s|
  {
    if s == [] then 0 else CountTrue(s[..|s| - 1]) + (if s[|s| - 1] then 1 else 0)
  }

  /** The count of dead walkers reaches the population size exactly when every walker is dead. */
  lemma {:induction false} CountTrueIsLength(s: seq<bool>)
    ensures CountTrue(s) == |s| <==> forall i :: 0 <= i < |s| ==> s[i]
  {
    if s != [] {
      var prefix := s[..|s| - 1];
      CountTrueIsLength(prefix);
      assert forall i :: 0 <= i < |prefix| ==> prefix[i] == s[i];
    }
  }

  // ---------------------------------------------------------------------------
  // Companion selection among the walkers still alive
  // ---------------------------------------------------------------------------

  /** `numpy.logical_not(end_condition)`. */
  function AliveMask(ends: seq<bool>): (alive: seq<bool>)
    ensures |alive| == |ends|
    ensures forall i :: 0 <= i < |ends| ==> (alive[i] <==> !ends[i])
  {
    seq(|ends|, i requires 0 <= i < |ends| => !ends[i])
  }

  /** `numpy.arange(n)[alive_mask]`: the indices of the walkers that have not
      ended, each exactly once, in increasing order. */
  function AliveIndices(ends: seq<bool>): (r: seq<nat>)
    ensures |r| == |ends| - CountTrue(ends)
    ensures forall j :: 0 <= j < |r| ==> r[j] < |ends| && !ends[r[j]]
    ensures forall j, k :: 0 <= j < k < |r| ==> r[j] < r[k]
  {
    if ends == [] then []
    else
      var prefix := ends[..|ends| - 1];
      assert forall i :: 0 <= i < |prefix| ==> prefix[i] == ends[i];
      AliveIndices(prefix) + (if ends[|ends| - 1] then [] else [|ends| - 1])
  }

  /** Every walker that has not ended is in the alive list. */
  lemma {:induction false} AliveIndicesComplete(ends: seq<bool>, i: nat)
    requires i < |ends| && !ends[i]
    ensures i in AliveIndices(ends)
  {
    var prefix := ends[..|ends| - 1];
    if i < |ends| - 1 {
      AliveIndicesComplete(prefix, i);
    }
  }

  /** When no walker has ended, the alive indices are all of `0..n`. */
  lemma {:induction false} AliveIndicesAllAlive(ends: seq<bool>)
    requires forall i :: 0 <= i < |ends| ==> !ends[i]
    ensures AliveIndices(ends) == Range(|ends|)
  {
    if ends != [] {
      var prefix := ends[..|ends| - 1];
      AliveIndicesAllAlive(prefix);
      assert Range(|ends|) == Range(|prefix|) + [|ends| - 1];
    }
  }

  /** The alive list is empty exactly when every walker has ended. */
  lemma AliveIndicesEmpty(ends: seq<bool>)
    ensures AliveIndices(ends) == [] <==> forall i :: 0 <= i < |ends| ==> ends[i]
  {
    if AliveIndices(ends) != [] {
      var r := AliveIndices(ends);
      assert !ends[r[0]];
    } else if exists i :: 0 <= i < |ends| && !ends[i] {
      var i :| 0 <= i < |ends| && !ends[i];
      AliveIndicesComplete(ends, i);
    }
  }

  /** The positions `random_state.choice` drew into the alive list, one per
      walker; only constrained when there is an alive walker to draw. */
  predicate ValidDraws(ends: seq<bool>, draws: seq<nat>)
  {
    && |draws| == |ends|
    && (AliveIndices(ends) != [] ==>
          forall j :: 0 <= j < |draws| ==> draws[j] < |AliveIndices(ends)|)
  }

  /** `get_alive_compas`: the identity when every walker has ended; otherwise a
      sample with replacement from the alive indices whose first k slots (k the
      number of alive walkers) are overwritten by the alive indices in order. */
  function AliveCompas(ends: seq<bool>, draws: seq<nat>): (r: seq<nat>)
    requires ValidDraws(ends, draws)
    ensures |r| == |ends|
    ensures forall j :: 0 <= j < |r| ==> r[j] < |ends|
  {
    var alive := AliveIndices(ends);
    if |alive| == 0 then Range(|ends|)
    else
      seq(|ends|, j requires 0 <= j < |ends| =>
        if j < |alive| then alive[j] else alive[draws[j]])
  }

  /** All walkers dead: every walker is its own companion. */
  lemma AliveCompasAllDead(ends: seq<bool>, draws: seq<nat>)
    requires ValidDraws(ends, draws)
    requires forall i :: 0 <= i < |ends| ==> ends[i]
    ensures forall i :: 0 <= i < |ends| ==> AliveCompas(ends, draws)[i] == i
  {
    AliveIndicesEmpty(ends);
  }

  /** The companion of walker j when some walker is alive. A proof step that
      only unfolds AliveCompas at one walker, for its callers. */
  lemma AliveCompasAt(ends: seq<bool>, draws: seq<nat>, j: nat)
    requires ValidDraws(ends, draws) && AliveIndices(ends) != [] && j < |ends|
    ensures var alive := AliveIndices(ends);
      AliveCompas(ends, draws)[j] == if j < |alive| then alive[j] else alive[draws[j]]
  {
  }

  /** `random_state.choice(compas_ix, n, replace=True)`: one companion drawn
      from the alive walkers for every walker. */
  function DrawnCompanions(ends: seq<bool>, draws: seq<nat>): (r: seq<nat>)
    requires ValidDraws(ends, draws) && AliveIndices(ends) != []
    ensures |r| == |ends|
    ensures forall j :: 0 <= j < |r| ==> r[j] < |ends| && !ends[r[j]]
  {
    var alive := AliveIndices(ends);
    seq(|ends|, j requires 0 <= j < |ends| => alive[draws[j]])
  }

  /** Some walker alive: the companions are the alive indices followed by the
      tail of the drawn companions. A proof step that only unfolds AliveCompas
      as a concatenation, for GetAliveCompas. */
  lemma AliveCompasSplit(ends: seq<bool>, draws: seq<nat>)
    requires ValidDraws(ends, draws) && AliveIndices(ends) != []
    ensures var alive := AliveIndices(ends);
      AliveCompas(ends, draws) == alive + DrawnCompanions(ends, draws)[|alive|..]
  {
  }

  /** Some walker alive: every companion is alive, every alive walker appears
      among the companions, and the first k companions are the alive indices
      in increasing order. */
  lemma AliveCompasCoverage(ends: seq<bool>, draws: seq<nat>)
    requires ValidDraws(ends, draws)
    requires exists i :: 0 <= i < |ends| && !ends[i]
    ensures var r := AliveCompas(ends, draws);
      && (forall j :: 0 <= j < |r| ==> !ends[r[j]])
      && (forall i :: 0 <= i < |ends| && !ends[i] ==> i in r)
      && r[..|AliveIndices(ends)|] == AliveIndices(ends)
  {
    AliveIndicesEmpty(ends);
    var r := AliveCompas(ends, draws);
    var alive := AliveIndices(ends);
    forall j | 0 <= j < |r|
      ensures !ends[r[j]]
      ensures j < |alive| ==> r[j] == alive[j]
    {
      AliveCompasAt(ends, draws, j);
    }
    forall i | 0 <= i < |ends| && !ends[i]
      ensures i in r
    {
      AliveIndicesComplete(ends, i);
      var j :| 0 <= j < |alive| && alive[j] == i;
      assert r[j] == i;
    }
    assert r[..|alive|] == alive;
  }

  /** With no walker dead, the companions are the identity: every walker is
      compared with itself. */
  lemma AliveCompasAllAlive(ends: seq<bool>, draws: seq<nat>)
    requires ValidDraws(ends, draws)
    requires forall i :: 0 <= i < |ends| ==> !ends[i]
    ensures AliveCompas(ends, draws) == Range(|ends|)
  {
    AliveIndicesAllAlive(ends);
  }

  // ---------------------------------------------------------------------------
  // Clone probabilities
  // ---------------------------------------------------------------------------

  /** `(virtual_rewards == virtual_rewards[0]).all()`. */
  predicate AllEqual(vr: seq<real>): (eq: bool)
    requires |vr| > 0
    ensures eq <==> forall i, j :: 0 <= i < |vr| && 0 <= j < |vr| ==> vr[i] == vr[j]
  {
    forall i :: 0 <= i < |vr| ==> vr[i] == vr[0]
  }

  /** The two arrays `update_clone_probs` stores: `clone_probs` and `compas_clone`. */
  datatype CloneStep = CloneStep(probs: seq<real>, compas: seq<nat>)

  /** `update_clone_probs`: all zero against the identity when every virtual
      reward is the same; otherwise the relative advantage of an alive
      companion, `(vr[c[i]] - vr[i]) / vr[i]`, unclamped. The source divides by
      `vr[i]`, so those must be non-zero outside the fallback. */
  function CloneProbs(vr: seq<real>, ends: seq<bool>, draws: seq<nat>): (r: CloneStep)
    requires |vr| == |ends| > 0 && ValidDraws(ends, draws)
    requires !AllEqual(vr) ==> forall i :: 0 <= i < |vr| ==> vr[i] != 0.0
    ensures |r.probs| == |r.compas| == |vr|
    ensures forall i :: 0 <= i < |vr| ==> r.compas[i] < |vr|
  {
    if AllEqual(vr) then
      CloneStep(Fill(|vr|, 0.0), Range(|vr|))
    else
      var c := AliveCompas(ends, draws);
      CloneStep(Advantages(vr, c), c)
  }

  /** `(virtual_rewards[compas] - virtual_rewards) / virtual_rewards`: each
      walker's relative advantage of its companion, by walker. */
  function Advantages(vr: seq<real>, compas: seq<nat>): (p: seq<real>)
    requires ValidCompanions(compas, |vr|)
    requires forall i :: 0 <= i < |vr| ==> vr[i] != 0.0
    ensures |p| == |vr|
    ensures forall i :: 0 <= i < |vr| ==> p[i] * vr[i] == vr[compas[i]] - vr[i]
  {
    seq(|vr|, i requires 0 <= i < |vr| => (vr[compas[i]] - vr[i]) / vr[i])
  }

  /** Degenerate rewards: no information to act on, so nothing is pushed to clone. */
  lemma CloneProbsFallback(vr: seq<real>, ends: seq<bool>, draws: seq<nat>)
    requires |vr| == |ends| > 0 && ValidDraws(ends, draws)
    requires AllEqual(vr)
    ensures var r := CloneProbs(vr, ends, draws);
      forall i :: 0 <= i < |vr| ==> r.probs[i] == 0.0 && r.compas[i] == i
  {
  }

  /** A relative advantage `p = (b - a) / a` over a positive a recovers the
      difference `b - a` and has its sign. */
  lemma RelativeAdvantage(a: real, b: real, p: real)
    requires a > 0.0 && p == (b - a) / a
    ensures p * a == b - a
    ensures p > 0.0 <==> b > a
    ensures p < 0.0 <==> b < a
  {
    assert p * a == b - a;
    if p > 0.0 { assert p * a > 0.0; }
    if p < 0.0 { assert (-p) * a > 0.0; }
    if b > a { assert p * a > 0.0; }
    if b < a { assert p * a < 0.0; }
  }

  /** The clone probability of walker i outside the fallback, as a value. A
      proof step that only unfolds CloneProbs at one walker, for its callers. */
  lemma CloneProbAt(vr: seq<real>, ends: seq<bool>, draws: seq<nat>, i: nat)
    requires |vr| == |ends| > 0 && ValidDraws(ends, draws)
    requires !AllEqual(vr) && forall j :: 0 <= j < |vr| ==> vr[j] != 0.0
    requires i < |vr|
    ensures var r := CloneProbs(vr, ends, draws);
      && r.compas == AliveCompas(ends, draws)
      && r.probs[i] == (vr[r.compas[i]] - vr[i]) / vr[i]
  {
  }

  /** Outside the fallback, with positive virtual rewards, a walker's clone
      probability is positive exactly when its companion is fitter, negative
      exactly when its companion is less fit, and it is the companion's
      advantage relative to the walker's own virtual reward. */
  lemma CloneProbSign(vr: seq<real>, ends: seq<bool>, draws: seq<nat>, i: nat)
    requires |vr| == |ends| > 0 && ValidDraws(ends, draws)
    requires !AllEqual(vr) && forall j :: 0 <= j < |vr| ==> vr[j] != 0.0
    requires i < |vr| && vr[i] > 0.0
    ensures var r := CloneProbs(vr, ends, draws);
      && (r.probs[i] > 0.0 <==> vr[r.compas[i]] > vr[i])
      && (r.probs[i] < 0.0 <==> vr[r.compas[i]] < vr[i])
      && r.probs[i] * vr[i] == vr[r.compas[i]] - vr[i]
  {
    var r := CloneProbs(vr, ends, draws);
    CloneProbAt(vr, ends, draws, i);
    RelativeAdvantage(vr[i], vr[r.compas[i]], r.probs[i]);
  }

  /** Whenever some walker is alive, every walker is compared against an alive
      companion, also outside the fallback. */
  lemma CloneCompanionAlive(vr: seq<real>, ends: seq<bool>, draws: seq<nat>, i: nat)
    requires |vr| == |ends| > 0 && ValidDraws(ends, draws)
    requires !AllEqual(vr) && forall j :: 0 <= j < |vr| ==> vr[j] != 0.0
    requires i < |vr| && exists j :: 0 <= j < |ends| && !ends[j]
    ensures !ends[CloneProbs(vr, ends, draws).compas[i]]
  {
    CloneProbAt(vr, ends, draws, i);
    AliveCompasCoverage(ends, draws);
  }

  /** Two walkers, the first dead: both are compared against walker 1. */
  lemma OneAliveOfTwo()
    ensures AliveIndices([true, false]) == [1]
    ensures AliveCompas([true, false], [0, 0]) == [1, 1]
  {
    var ends := [true, false];
    assert ends[..1] == [true];
    assert [true][..0] == [];
    assert AliveIndices([true]) == [];
  }

  /** Clone probabilities are not clamped above: a dead walker of virtual
      reward 1 facing a companion of virtual reward 4 gets probability 3. */
  lemma CloneProbsAboveOne()
    ensures (OneAliveOfTwo(); CloneProbs([1.0, 4.0], [true, false], [0, 0]).probs == [3.0, 0.0])
  {
    var vr: seq<real> := [1.0, 4.0];
    OneAliveOfTwo();
    assert !AllEqual(vr) by { assert vr[1] != vr[0]; }
    var r := CloneProbs(vr, [true, false], [0, 0]);
    assert r.compas == [1, 1];
    assert r.probs[0] == (4.0 - 1.0) / 1.0;
    assert r.probs[1] == (4.0 - 4.0) / 4.0;
  }

  /** Clone probabilities are not clamped below: a dead walker of virtual
      reward 4 facing a companion of virtual reward 1 gets probability -0.75. */
  lemma CloneProbsNegative()
    ensures (OneAliveOfTwo(); CloneProbs([4.0, 1.0], [true, false], [0, 0]).probs == [-0.75, 0.0])
  {
    var vr: seq<real> := [4.0, 1.0];
    OneAliveOfTwo();
    assert !AllEqual(vr) by { assert vr[1] != vr[0]; }
    var r := CloneProbs(vr, [true, false], [0, 0]);
    assert r.compas == [1, 1];
    assert r.probs[0] == (1.0 - 4.0) / 4.0;
    assert r.probs[1] == (1.0 - 1.0) / 1.0;
  }

  /** With every walker alive the companions are the identity, so every clone
      probability is zero, whatever the virtual rewards are. */
  lemma CloneProbsAllAlive(vr: seq<real>, ends: seq<bool>, draws: seq<nat>)
    requires |vr| == |ends| > 0 && ValidDraws(ends, draws)
    requires !AllEqual(vr) ==> forall i :: 0 <= i < |vr| ==> vr[i] != 0.0
    requires forall i :: 0 <= i < |ends| ==> !ends[i]
    ensures var r := CloneProbs(vr, ends, draws);
      forall i :: 0 <= i < |vr| ==> r.probs[i] == 0.0 && r.compas[i] == i
  {
    AliveCompasAllAlive(ends, draws);
  }

  // ---------------------------------------------------------------------------
  // Clone decision
  // ---------------------------------------------------------------------------

  /** `clone_walkers`' decision: `clone_probs > u`, then forced true wherever
      the walker has ended; `u` holds the uniform samples of `random_sample`. */
  function CloneDecision(probs: seq<real>, ends: seq<bool>, u: seq<real>): (will: seq<bool>)
    requires |probs| == |ends| == |u|
    ensures |will| == |ends|
  {
    var drawn := seq(|ends|, i requires 0 <= i < |ends| => probs[i] > u[i]);
    seq(|ends|, i requires 0 <= i < |ends| => if ends[i] then true else drawn[i])
  }

  /** Dead walkers always clone; a live walker clones exactly when its clone
      probability beats its uniform sample, so a live walker whose probability
      is not positive never clones under a sample in [0, 1). */
  lemma CloneDecisionSpec(probs: seq<real>, ends: seq<bool>, u: seq<real>, i: nat)
    requires |probs| == |ends| == |u| && i < |ends|
    ensures ends[i] ==> CloneDecision(probs, ends, u)[i]
    ensures !ends[i] ==> (CloneDecision(probs, ends, u)[i] <==> probs[i] > u[i])
    ensures !ends[i] && probs[i] <= 0.0 && 0.0 <= u[i] ==> !CloneDecision(probs, ends, u)[i]
  {
  }

  /** When every virtual reward is the same, the only walkers that clone are
      the dead ones. */
  lemma OnlyDeadCloneWhenRewardsEqual(vr: seq<real>, ends: seq<bool>, draws: seq<nat>, u: seq<real>)
    requires |vr| == |ends| == |u| > 0 && ValidDraws(ends, draws)
    requires AllEqual(vr)
    requires forall i :: 0 <= i < |u| ==> 0.0 <= u[i] < 1.0
    ensures CloneDecision(CloneProbs(vr, ends, draws).probs, ends, u) == ends
  {
    var r := CloneProbs(vr, ends, draws);
    CloneProbsFallback(vr, ends, draws);
    var will := CloneDecision(r.probs, ends, u);
    forall i | 0 <= i < |ends|
      ensures will[i] == ends[i]
    {
      CloneDecisionSpec(r.probs, ends, u, i);
    }
  }

  /** When no walker is dead, no walker clones: every walker is compared with
      itself (see AliveCompasAllAlive) and a zero probability never beats a
      sample in [0, 1). */
  lemma NoCloningWhenAllAlive(vr: seq<real>, ends: seq<bool>, draws: seq<nat>, u: seq<real>)
    requires |vr| == |ends| == |u| > 0 && ValidDraws(ends, draws)
    requires !AllEqual(vr) ==> forall i :: 0 <= i < |vr| ==> vr[i] != 0.0
    requires forall i :: 0 <= i < |ends| ==> !ends[i]
    requires forall i :: 0 <= i < |u| ==> 0.0 <= u[i] < 1.0
    ensures forall i :: 0 <= i < |ends| ==> !CloneDecision(CloneProbs(vr, ends, draws).probs, ends, u)[i]
  {
    var r := CloneProbs(vr, ends, draws);
    CloneProbsAllAlive(vr, ends, draws);
    forall i | 0 <= i < |ends|
      ensures !CloneDecision(r.probs, ends, u)[i]
    {
      CloneDecisionSpec(r.probs, ends, u, i);
    }
  }

  // ---------------------------------------------------------------------------
  // The clone mapping applied to every state container
  // ---------------------------------------------------------------------------

  /** Companion indices that stay inside the population. */
  predicate ValidCompanions(compas: seq<nat>, n: nat)
  {
    |compas| == n && forall i :: 0 <= i < n ==> compas[i] < n
  }

  /** `x[will_clone] = x[compas][will_clone]`: a walker that clones takes its
      companion's value, every other walker keeps its own. */
  function CloneBy<T>(xs: seq<T>, will: seq<bool>, compas: seq<nat>): (ys: seq<T>)
    requires |will| == |xs| && ValidCompanions(compas, |xs|)
    ensures |ys| == |xs|
  {
    seq(|xs|, i requires 0 <= i < |xs| => if will[i] then xs[compas[i]] else xs[i])
  }

  /** Cloning only copies values that are already present (so no new lineage
      id appears), leaves a walker that does not clone as it was, and changes
      nothing when no walker clones. */
  lemma CloneBySpec<T>(xs: seq<T>, will: seq<bool>, compas: seq<nat>)
    requires |will| == |xs| && ValidCompanions(compas, |xs|)
    ensures var ys := CloneBy(xs, will, compas);
      && (set y | y in ys) <= (set x | x in xs)
      && (forall i :: 0 <= i < |xs| && !will[i] ==> ys[i] == xs[i])
      && (forall i :: 0 <= i < |xs| && will[i] ==> ys[i] == xs[compas[i]])
      && ((forall i :: 0 <= i < |xs| ==> !will[i]) ==> ys == xs)
  {
    var ys := CloneBy(xs, will, compas);
    forall y | y in ys
      ensures y in xs
    {
      var i :| 0 <= i < |ys| && ys[i] == y;
      if will[i] {
        assert xs[compas[i]] == y;
      } else {
        assert xs[i] == y;
      }
    }
  }

  /** The attributes of the environment's state container the engine reads. */
  datatype EnvField = Observs | States | Rewards | Ends

  /** The environment's per-walker arrays: observations, opaque states, the
      last rewards and the termination flags. */
  datatype EnvStates<O, S> = EnvStates(observs: seq<O>, states: seq<S>, rewards: seq<real>, ends: seq<bool>)

  predicate EnvSized<O, S>(e: EnvStates<O, S>, n: nat)
  {
    |e.observs| == n && |e.states| == n && |e.rewards| == n && |e.ends| == n
  }

  /** The model's state container: named per-walker arrays, opaque to the engine. */
  predicate ModelSized<M>(m: map<string, seq<M>>, n: nat)
  {
    forall k :: k in m ==> |m[k]| == n
  }

  /** `env_states.clone(will_clone, compas_ix, ignore)`: every attribute not
      named in the ignore set is cloned with the same mapping. */
  function CloneEnv<O, S>(e: EnvStates<O, S>, will: seq<bool>, compas: seq<nat>, ignore: set<EnvField>): (c: EnvStates<O, S>)
    requires EnvSized(e, |will|) && ValidCompanions(compas, |will|)
    ensures EnvSized(c, |will|)
  {
    EnvStates(
      if Observs in ignore then e.observs else CloneBy(e.observs, will, compas),
      if States in ignore then e.states else CloneBy(e.states, will, compas),
      if Rewards in ignore then e.rewards else CloneBy(e.rewards, will, compas),
      if Ends in ignore then e.ends else CloneBy(e.ends, will, compas))
  }

  /** `model_states.clone(will_clone, compas_ix, ignore)`. */
  function CloneModel<M>(m: map<string, seq<M>>, will: seq<bool>, compas: seq<nat>, ignore: set<string>): (c: map<string, seq<M>>)
    requires ModelSized(m, |will|) && ValidCompanions(compas, |will|)
    ensures c.Keys == m.Keys && ModelSized(c, |will|)
  {
    map k | k in m :: if k in ignore then m[k] else CloneBy(m[k], will, compas)
  }

  /** Ignored attributes are never cloned, and a walker that does not clone
      keeps every attribute of both containers. */
  lemma CloneContainersSpec<O, S, M>(e: EnvStates<O, S>, m: map<string, seq<M>>, will: seq<bool>, compas: seq<nat>,
                                      ignoreEnv: set<EnvField>, ignoreModel: set<string>, i: nat)
    requires EnvSized(e, |will|) && ModelSized(m, |will|) && ValidCompanions(compas, |will|) && i < |will|
    ensures var ce := CloneEnv(e, will, compas, ignoreEnv);
      && (Observs in ignoreEnv ==> ce.observs == e.observs)
      && (States in ignoreEnv ==> ce.states == e.states)
      && (Rewards in ignoreEnv ==> ce.rewards == e.rewards)
      && (Ends in ignoreEnv ==> ce.ends == e.ends)
      && (!will[i] ==> ce.observs[i] == e.observs[i] && ce.states[i] == e.states[i]
                       && ce.rewards[i] == e.rewards[i] && ce.ends[i] == e.ends[i])
    ensures var ce := CloneEnv(e, will, compas, ignoreEnv);
      && (will[i] && Observs !in ignoreEnv ==> ce.observs[i] == e.observs[compas[i]])
      && (will[i] && States !in ignoreEnv ==> ce.states[i] == e.states[compas[i]])
      && (will[i] && Rewards !in ignoreEnv ==> ce.rewards[i] == e.rewards[compas[i]])
      && (will[i] && Ends !in ignoreEnv ==> ce.ends[i] == e.ends[compas[i]])
    ensures var cm := CloneModel(m, will, compas, ignoreModel);
      forall k :: k in m ==>
        && (k in ignoreModel ==> cm[k] == m[k])
        && (!will[i] ==> cm[k][i] == m[k][i])
        && (k !in ignoreModel && will[i] ==> cm[k][i] == m[k][compas[i]])
  {
  }

  // ---------------------------------------------------------------------------
  // Reward accumulation
  // ---------------------------------------------------------------------------

  /** `_accumulate_and_update_rewards`: add the new rewards to the cumulative
      ones, or keep only the new rewards. */
  function Accumulate(accumulate: bool, cum: seq<ExtReal>, rewards: seq<real>): (r: seq<ExtReal>)
    requires |cum| == |rewards|
    ensures |r| == |rewards|
  {
    if accumulate then seq(|cum|, i requires 0 <= i < |cum| => AddReal(cum[i], rewards[i]))
    else seq(|rewards|, i requires 0 <= i < |rewards| => Fin(rewards[i]))
  }

  predicate SameWidth(updates: seq<seq<real>>, n: nat)
  {
    forall k :: 0 <= k < |updates| ==> |updates[k]| == n
  }

  /** A run of reward updates applied one after another, first one first. */
  function AccumulateAll(accumulate: bool, cum: seq<ExtReal>, updates: seq<seq<real>>): (r: seq<ExtReal>)
    requires SameWidth(updates, |cum|)
    ensures |r| == |cum|
    decreases |updates|
  {
    if updates == [] then cum
    else AccumulateAll(accumulate, Accumulate(accumulate, cum, updates[0]), updates[1..])
  }

  /** The sum, over a run of updates, of the rewards of walker i. */
  function SumAt(updates: seq<seq<real>>, i: nat): real
    requires forall k :: 0 <= k < |updates| ==> i < |updates[k]|
  {
    if updates == [] then 0.0 else updates[0][i] + SumAt(updates[1..], i)
  }

  /** Accumulating: a walker's cumulative reward is its starting reward plus
      the sum of every reward it received. */
  lemma {:induction false} AccumulatedIsSum(cum: seq<ExtReal>, updates: seq<seq<real>>, i: nat)
    requires SameWidth(updates, |cum|) && i < |cum| && cum[i].Fin?
    ensures AccumulateAll(true, cum, updates)[i] == Fin(cum[i].value + SumAt(updates, i))
    decreases |updates|
  {
    if updates != [] {
      var next := Accumulate(true, cum, updates[0]);
      assert next[i] == Fin(cum[i].value + updates[0][i]);
      AccumulatedIsSum(next, updates[1..], i);
    }
  }

  /** Not accumulating: a walker's cumulative reward is the last reward it received. */
  lemma {:induction false} UnaccumulatedIsLast(cum: seq<ExtReal>, updates: seq<seq<real>>, i: nat)
    requires SameWidth(updates, |cum|) && i < |cum| && |updates| > 0
    ensures AccumulateAll(false, cum, updates)[i] == Fin(updates[|updates| - 1][i])
    decreases |updates|
  {
    var next := Accumulate(false, cum, updates[0]);
    if |updates| > 1 {
      UnaccumulatedIsLast(next, updates[1..], i);
    }
  }

  /** Rewards 1, 2 and 3 in turn, from zero: 6 when accumulating, 3 otherwise. */
  lemma AccumulationExample()
    ensures AccumulateAll(true, Zeros(1), [[1.0], [2.0], [3.0]]) == [Fin(6.0)]
    ensures AccumulateAll(false, Zeros(1), [[1.0], [2.0], [3.0]]) == [Fin(3.0)]
  {
    var updates := [[1.0], [2.0], [3.0]];
    AccumulatedIsSum(Zeros(1), updates, 0);
    assert SumAt(updates, 0) == 6.0 by {
      assert updates[1..] == [[2.0], [3.0]];
      assert updates[1..][1..] == [[3.0]];
    }
    UnaccumulatedIsLast(Zeros(1), updates, 0);
  }
}

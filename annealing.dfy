/** The simulated-annealing search over substitution keys (main.cpp):
    the per-run state and its per-iteration update, one whole run, and the
    multi-start selection of the best run.

    The random draws an iteration consumes are a `Draw` value; the Metropolis
    test is its `acceptWorse` flag; the n-gram scorer is the function
    `scoreText`, of which nothing is assumed except that it is deterministic
    and defined on every text.
    The update of one iteration is specified by pure functions on a
    `RunState` value (`AfterMove`, `AfterRestart`, `AfterCool`, `Next`); the
    invariants of the search are lemmas about those functions; the class
    `Annealer` performs the update in place, as the source's loop does. */
module Annealing {
  import opened Swaps
  import opened KeyMapper

  const INITIAL_TEMPERATURE: real := 30.0
  const INITIAL_COOLING_RATE: real := 0.9995
  const MIN_COOLING_RATE: real := 0.995
  const MAX_COOLING_RATE: real := 0.9999
  const MAX_NO_IMPROVEMENT: int := 5000
  const ADAPT_PERIOD: int := 5000
  const RESTART_SWAPS: nat := 16
  const START_SWAPS: nat := 5

  function Min(x: real, y: real): real { if x < y then x else y }
  function Max(x: real, y: real): real { if x < y then y else x }

  /** What one run searches with: the ciphertext, the key the decryption
      maps onto, the scorer and the run's starting key. */
  datatype Search = Search(ciphertext: string, targetKey: string, scoreText: string -> real, initialKey: string)

  /** The score the search gives a key: that of the text decrypted with it. */
  function KeyScore(ctx: Search, key: string): real {
    ctx.scoreText(Applied(ctx.ciphertext, key, ctx.targetKey))
  }

  /** The variables of `simulated_annealing` that its loop updates.
      `lastBestScore` is the best score when progress was last printed;
      `windowBestScore` is the best score at the previous cooling-rate
      adaptation; `iter` is the index of the next iteration. */
  datatype RunState = RunState(
    currentKey: string, currentScore: real,
    bestKey: string, bestScore: real,
    noImprovementCount: int, lastBestScore: real, windowBestScore: real,
    temperature: real, coolingRate: real, iter: int)

  /** The random values one iteration draws: the move selector `r`, up to
      four positions, the outcome of the Metropolis test for a move that is
      not better, and the 16 position pairs of a restart. */
  datatype Draw = Draw(r: real, p1: int, p2: int, p3: int, p4: int,
                       acceptWorse: bool, restartSwaps: seq<(int, int)>)

  /** `count` position pairs, each drawn from 0..25 (equal pairs allowed). */
  predicate IsSwapDraws(swaps: seq<(int, int)>, count: nat) {
    |swaps| == count &&
    forall i :: 0 <= i < |swaps| ==> IsPosition(swaps[i].0) && IsPosition(swaps[i].1)
  }

  /** Draws the search can produce: positions from 0..25, and the two
      positions of each swap move different (the source draws again until
      they differ). */
  predicate WellFormed(d: Draw) {
    && IsPosition(d.p1) && IsPosition(d.p2) && IsPosition(d.p3) && IsPosition(d.p4)
    && (d.r < 0.9 ==> d.p1 != d.p2)
    && (0.8 <= d.r < 0.9 ==> d.p3 != d.p4)
    && IsSwapDraws(d.restartSwaps, RESTART_SWAPS)
  }

  /** The invariant of a run with the stagnation counter at most `maxCount`:
      both keys rearrange the starting key, the scores are those of the keys,
      the best score is at least the starting key's, and the temperature and
      cooling rate are in their ranges. */
  predicate Consistent(ctx: Search, s: RunState, maxCount: int) {
    && 26 <= |ctx.initialKey|
    && IsPermutationOf(s.currentKey, ctx.initialKey)
    && IsPermutationOf(s.bestKey, ctx.initialKey)
    && s.currentScore == KeyScore(ctx, s.currentKey)
    && s.bestScore == KeyScore(ctx, s.bestKey)
    && KeyScore(ctx, ctx.initialKey) <= s.bestScore
    && s.lastBestScore <= s.bestScore <= s.lastBestScore + 10.0
    && s.windowBestScore <= s.bestScore
    && 0 <= s.noImprovementCount <= maxCount
    && 0.0 < s.temperature <= INITIAL_TEMPERATURE
    && MIN_COOLING_RATE <= s.coolingRate <= MAX_COOLING_RATE
    && 0 <= s.iter
  }

  /** The state before the first iteration (main.cpp:156-170). */
  function Start(ctx: Search): RunState {
    var score := KeyScore(ctx, ctx.initialKey);
    RunState(ctx.initialKey, score, ctx.initialKey, score, 0, score, score,
             INITIAL_TEMPERATURE, INITIAL_COOLING_RATE, 0)
  }

  /** The acceptance decision and best-so-far bookkeeping for a neighbour
      with the given score (main.cpp:217-251). */
  function AfterAccept(s: RunState, neighborKey: string, neighborScore: real, acceptWorse: bool): RunState {
    if neighborScore > s.currentScore || acceptWorse then
      if neighborScore > s.bestScore then
        s.(currentKey := neighborKey, currentScore := neighborScore,
           bestKey := neighborKey, bestScore := neighborScore, noImprovementCount := 0,
           lastBestScore := if neighborScore > s.lastBestScore + 10.0 || s.iter % 1000 == 0
                            then neighborScore else s.lastBestScore)
      else
        s.(currentKey := neighborKey, currentScore := neighborScore,
           noImprovementCount := s.noImprovementCount + 1)
    else
      s.(noImprovementCount := s.noImprovementCount + 1)
  }

  /** Neighbour generation, scoring and acceptance (main.cpp:177-251). */
  function AfterMove(ctx: Search, s: RunState, r: real, p1: int, p2: int, p3: int, p4: int, acceptWorse: bool): RunState {
    var neighbor := Neighbor(s.currentKey, r, p1, p2, p3, p4);
    AfterAccept(s, neighbor, KeyScore(ctx, neighbor), acceptWorse)
  }

  /** Restart from the best key mutated by the drawn swaps, and reheat to at
      most 30, after more than 5000 iterations without a strict improvement
      (main.cpp:254-273). */
  function AfterRestart(ctx: Search, s: RunState, swaps: seq<(int, int)>): RunState {
    if s.noImprovementCount > MAX_NO_IMPROVEMENT then
      var mutated := Mutated(s.bestKey, swaps);
      s.(currentKey := mutated, currentScore := KeyScore(ctx, mutated), noImprovementCount := 0,
         temperature := Min(3.0 * s.temperature, INITIAL_TEMPERATURE))
    else s
  }

  /** The cooling-rate adaptation: slower cooling (rate x 1.001, at most
      0.9999) when the best score exceeds `referenceScore` by more than 100,
      faster cooling (rate x 0.999, at least 0.995) otherwise. */
  function AdaptedCoolingRate(rate: real, bestScore: real, referenceScore: real): (r: real)
    ensures MIN_COOLING_RATE <= rate <= MAX_COOLING_RATE ==> MIN_COOLING_RATE <= r <= MAX_COOLING_RATE
    ensures MIN_COOLING_RATE <= rate <= MAX_COOLING_RATE && bestScore > referenceScore + 100.0 ==>
      r >= rate && (rate < MAX_COOLING_RATE ==> r > rate)
    ensures MIN_COOLING_RATE <= rate <= MAX_COOLING_RATE && bestScore <= referenceScore + 100.0 ==>
      r <= rate && (rate > MIN_COOLING_RATE ==> r < rate)
  {
    if bestScore > referenceScore + 100.0 then Min(rate * 1.001, MAX_COOLING_RATE)
    else Max(rate * 0.999, MIN_COOLING_RATE)
  }

  /** Whether iteration `iter` adapts the cooling rate. */
  predicate Adapting(iter: int) {
    iter % ADAPT_PERIOD == 0 && iter > 0
  }

  /** One cooling step: the temperature times the cooling rate. A rate from
      [0.995, 0.9999] keeps a temperature from (0, 30] positive and lowers
      it. */
  function Cooled(temperature: real, rate: real): (t: real)
    ensures 0.0 < temperature <= INITIAL_TEMPERATURE && MIN_COOLING_RATE <= rate <= MAX_COOLING_RATE ==>
      0.0 < t < temperature
  {
    temperature * rate
  }

  /** Cooling and the periodic cooling-rate adaptation, comparing with the
      best score at the previous adaptation, then the move to the next
      iteration (main.cpp:276-287, corrected). */
  function AfterCool(s: RunState): RunState {
    var adapting := Adapting(s.iter);
    s.(temperature := Cooled(s.temperature, s.coolingRate),
       coolingRate := if adapting then AdaptedCoolingRate(s.coolingRate, s.bestScore, s.windowBestScore)
                      else s.coolingRate,
       windowBestScore := if adapting then s.bestScore else s.windowBestScore,
       iter := s.iter + 1)
  }

  /** Cooling as main.cpp:276-287 write it: the adaptation compares with
      `last_best_score`. Only the temperature, the rate and the iteration
      index change. */
  function AfterCoolAsWritten(s: RunState): (t: RunState)
    ensures t.iter == s.iter + 1
    ensures t.currentKey == s.currentKey && t.currentScore == s.currentScore
    ensures t.bestKey == s.bestKey && t.bestScore == s.bestScore
    ensures t.noImprovementCount == s.noImprovementCount && t.lastBestScore == s.lastBestScore
    ensures t.windowBestScore == s.windowBestScore
    ensures 0.0 < s.temperature <= INITIAL_TEMPERATURE && MIN_COOLING_RATE <= s.coolingRate <= MAX_COOLING_RATE ==>
      0.0 < t.temperature < s.temperature && MIN_COOLING_RATE <= t.coolingRate <= MAX_COOLING_RATE
    ensures !Adapting(s.iter) ==> t.coolingRate == s.coolingRate
  {
    s.(temperature := Cooled(s.temperature, s.coolingRate),
       coolingRate := if Adapting(s.iter) then AdaptedCoolingRate(s.coolingRate, s.bestScore, s.lastBestScore)
                      else s.coolingRate,
       iter := s.iter + 1)
  }

  /** One iteration of the main loop (main.cpp:175-288), with the corrected
      cooling-rate adaptation. The best score never falls, the best key
      changes only when it strictly rises, and the iteration index advances. */
  function Next(ctx: Search, s: RunState, d: Draw): (t: RunState)
    ensures t.iter == s.iter + 1
    ensures t.bestScore >= s.bestScore
    ensures t.bestKey != s.bestKey ==> t.bestScore > s.bestScore
  {
    AfterCool(AfterRestart(ctx, AfterMove(ctx, s, d.r, d.p1, d.p2, d.p3, d.p4, d.acceptWorse), d.restartSwaps))
  }

  /** The state after the given iterations, taken in order: the iteration
      index advances by their number and the best score never falls. */
  function Run(ctx: Search, s: RunState, draws: seq<Draw>): (t: RunState)
    ensures t.bestScore >= s.bestScore
    decreases |draws|
  {
    if draws == [] then s else Next(ctx, Run(ctx, s, draws[..|draws| - 1]), draws[|draws| - 1])
  }

  // ---------------------------------------------------------------------
  // Invariants of the search
  // ---------------------------------------------------------------------

  /** The starting state satisfies the invariant. */
  lemma StartConsistent(ctx: Search)
    requires 26 <= |ctx.initialKey|
    ensures Consistent(ctx, Start(ctx), MAX_NO_IMPROVEMENT)
  {
  }

  /** Running one more iteration extends the run by `Next`. */
  lemma RunSnoc(ctx: Search, s: RunState, draws: seq<Draw>, i: int)
    requires 0 <= i < |draws|
    ensures Run(ctx, s, draws[..i + 1]) == Next(ctx, Run(ctx, s, draws[..i]), draws[i])
  {
    assert draws[..i + 1][..i] == draws[..i];
  }

  /** Accepting or rejecting a rearrangement of the starting key keeps the
      invariant, except that the counter may reach 5001; the best score never
      falls; the best key changes only on a strict improvement, which resets
      the counter; otherwise the counter grows by one. */
  lemma AcceptConsistent(ctx: Search, s: RunState, neighborKey: string, acceptWorse: bool)
    requires Consistent(ctx, s, MAX_NO_IMPROVEMENT)
    requires IsPermutationOf(neighborKey, ctx.initialKey)
    ensures var t := AfterAccept(s, neighborKey, KeyScore(ctx, neighborKey), acceptWorse);
      && Consistent(ctx, t, MAX_NO_IMPROVEMENT + 1)
      && t.bestScore >= s.bestScore
      && (t.bestKey != s.bestKey ==> t.bestScore > s.bestScore && t.noImprovementCount == 0)
      && (t.bestScore == s.bestScore ==> t.noImprovementCount == s.noImprovementCount + 1)
      && t.temperature == s.temperature && t.coolingRate == s.coolingRate && t.iter == s.iter
  {
  }

  /** Every neighbour move keeps the invariant (the counter up to 5001), and
      the best key changes only on a strict improvement. */
  lemma MoveConsistent(ctx: Search, s: RunState, r: real, p1: int, p2: int, p3: int, p4: int, acceptWorse: bool)
    requires Consistent(ctx, s, MAX_NO_IMPROVEMENT)
    ensures var t := AfterMove(ctx, s, r, p1, p2, p3, p4, acceptWorse);
      && Consistent(ctx, t, MAX_NO_IMPROVEMENT + 1)
      && t.bestScore >= s.bestScore
      && (t.bestKey != s.bestKey ==> t.bestScore > s.bestScore && t.noImprovementCount == 0)
      && t.temperature == s.temperature && t.coolingRate == s.coolingRate && t.iter == s.iter
  {
    NeighborPermutes(s.currentKey, r, p1, p2, p3, p4);
    AcceptConsistent(ctx, s, Neighbor(s.currentKey, r, p1, p2, p3, p4), acceptWorse);
  }

  /** The restart brings the counter back to at most 5000, keeps the current
      key a rearrangement of the starting key (any swaps do), keeps the best
      key, and keeps the temperature in (0, 30]. */
  lemma RestartConsistent(ctx: Search, s: RunState, swaps: seq<(int, int)>)
    requires Consistent(ctx, s, MAX_NO_IMPROVEMENT + 1)
    ensures var t := AfterRestart(ctx, s, swaps);
      && Consistent(ctx, t, MAX_NO_IMPROVEMENT)
      && t.bestKey == s.bestKey && t.bestScore == s.bestScore && t.iter == s.iter
      && (s.noImprovementCount > MAX_NO_IMPROVEMENT ==> t.noImprovementCount == 0 && t.temperature >= s.temperature)
  {
    MutatedPermutes(s.bestKey, swaps);
  }

  /** Cooling lowers the temperature but keeps it positive, and the
      adaptation keeps the rate in [0.995, 0.9999]. */
  lemma CoolConsistent(ctx: Search, s: RunState)
    requires Consistent(ctx, s, MAX_NO_IMPROVEMENT)
    ensures var t := AfterCool(s);
      && Consistent(ctx, t, MAX_NO_IMPROVEMENT)
      && 0.0 < t.temperature < s.temperature
      && t.bestKey == s.bestKey && t.bestScore == s.bestScore && t.iter == s.iter + 1
  {
  }

  /** One iteration keeps the invariant with the counter at most 5000; the
      best score never falls, and the best key changes only when the best
      score strictly rises. */
  lemma NextConsistent(ctx: Search, s: RunState, d: Draw)
    requires Consistent(ctx, s, MAX_NO_IMPROVEMENT)
    ensures var t := Next(ctx, s, d);
      && Consistent(ctx, t, MAX_NO_IMPROVEMENT)
      && t.bestScore >= s.bestScore
      && (t.bestKey != s.bestKey ==> t.bestScore > s.bestScore)
      && t.iter == s.iter + 1
  {
    var moved := AfterMove(ctx, s, d.r, d.p1, d.p2, d.p3, d.p4, d.acceptWorse);
    MoveConsistent(ctx, s, d.r, d.p1, d.p2, d.p3, d.p4, d.acceptWorse);
    RestartConsistent(ctx, moved, d.restartSwaps);
    CoolConsistent(ctx, AfterRestart(ctx, moved, d.restartSwaps));
  }

  /** Over any number of iterations the invariant holds, the best score
      never falls and the iteration index advances by the number of
      iterations. */
  lemma {:induction false} RunConsistent(ctx: Search, s: RunState, draws: seq<Draw>)
    requires Consistent(ctx, s, MAX_NO_IMPROVEMENT)
    ensures Consistent(ctx, Run(ctx, s, draws), MAX_NO_IMPROVEMENT)
    ensures Run(ctx, s, draws).bestScore >= s.bestScore
    ensures Run(ctx, s, draws).iter == s.iter + |draws|
    decreases |draws|
  {
    if draws != [] {
      RunConsistent(ctx, s, draws[..|draws| - 1]);
      NextConsistent(ctx, Run(ctx, s, draws[..|draws| - 1]), draws[|draws| - 1]);
    }
  }

  // ---------------------------------------------------------------------
  // The cooling-rate adaptation as written
  // ---------------------------------------------------------------------

  /** As written, the adaptation compares with `last_best_score`, which the
      search refreshes whenever the best score gains more than 10, so it never
      lags the best score by more than 10: in every state the invariant allows,
      the slower-cooling branch is never taken and the rate never rises. */
  lemma AsWrittenNeverSlowsCooling(ctx: Search, s: RunState)
    requires Consistent(ctx, s, MAX_NO_IMPROVEMENT)
    ensures Adapting(s.iter) ==>
      AfterCoolAsWritten(s).coolingRate == Max(s.coolingRate * 0.999, MIN_COOLING_RATE)
    ensures AfterCoolAsWritten(s).coolingRate <= s.coolingRate
  {
  }

  /** At iteration 5000, with the best score 200 above the best score of the
      previous adaptation but only 10 above the last printed one, the corrected
      adaptation slows the cooling and the one as written speeds it up. */
  lemma AsWrittenDiffers()
    ensures var s := RunState("", 0.0, "", 200.0, 0, 190.0, 0.0, 1.0, INITIAL_COOLING_RATE, 5000);
      && AfterCool(s).coolingRate > s.coolingRate
      && AfterCoolAsWritten(s).coolingRate < s.coolingRate
  {
    assert Adapting(5000);
  }

  /** The corrected adaptation follows progress: it slows the cooling when the
      best score gained more than 100 since the previous adaptation, speeds it
      up otherwise (each within the bounds), and starts a new window. */
  lemma CorrectedCoolingFollowsProgress(ctx: Search, s: RunState)
    requires Consistent(ctx, s, MAX_NO_IMPROVEMENT)
    requires Adapting(s.iter)
    ensures s.bestScore > s.windowBestScore + 100.0 ==>
      AfterCool(s).coolingRate >= s.coolingRate &&
      (s.coolingRate < MAX_COOLING_RATE ==> AfterCool(s).coolingRate > s.coolingRate)
    ensures s.bestScore <= s.windowBestScore + 100.0 ==>
      AfterCool(s).coolingRate <= s.coolingRate &&
      (s.coolingRate > MIN_COOLING_RATE ==> AfterCool(s).coolingRate < s.coolingRate)
    ensures AfterCool(s).windowBestScore == s.bestScore
  {
  }

  /** One iteration as main.cpp:175-288 write it, cooling included. The best
      score never falls, the best key changes only when it strictly rises,
      and the iteration index advances. */
  function NextAsWritten(ctx: Search, s: RunState, d: Draw): (t: RunState)
    ensures t.iter == s.iter + 1
    ensures t.bestScore >= s.bestScore
    ensures t.bestKey != s.bestKey ==> t.bestScore > s.bestScore
  {
    AfterCoolAsWritten(AfterRestart(ctx, AfterMove(ctx, s, d.r, d.p1, d.p2, d.p3, d.p4, d.acceptWorse), d.restartSwaps))
  }

  /** The state after the given iterations as written, taken in order: the
      best score never falls. */
  function RunAsWritten(ctx: Search, s: RunState, draws: seq<Draw>): (t: RunState)
    ensures t.bestScore >= s.bestScore
    decreases |draws|
  {
    if draws == [] then s else NextAsWritten(ctx, RunAsWritten(ctx, s, draws[..|draws| - 1]), draws[|draws| - 1])
  }

  /** One iteration as written keeps the run invariant, and its cooling rate
      never rises. */
  lemma NextAsWrittenConsistent(ctx: Search, s: RunState, d: Draw)
    requires Consistent(ctx, s, MAX_NO_IMPROVEMENT)
    ensures var t := NextAsWritten(ctx, s, d);
      && Consistent(ctx, t, MAX_NO_IMPROVEMENT)
      && t.bestScore >= s.bestScore
      && t.coolingRate <= s.coolingRate
  {
    var moved := AfterMove(ctx, s, d.r, d.p1, d.p2, d.p3, d.p4, d.acceptWorse);
    MoveConsistent(ctx, s, d.r, d.p1, d.p2, d.p3, d.p4, d.acceptWorse);
    RestartConsistent(ctx, moved, d.restartSwaps);
    AsWrittenNeverSlowsCooling(ctx, AfterRestart(ctx, moved, d.restartSwaps));
  }

  /** Over any number of iterations as written the invariant holds, and the
      cooling rate never rises: the slower-cooling branch is dead code. */
  lemma {:induction false} RunAsWrittenConsistent(ctx: Search, s: RunState, draws: seq<Draw>)
    requires Consistent(ctx, s, MAX_NO_IMPROVEMENT)
    ensures Consistent(ctx, RunAsWritten(ctx, s, draws), MAX_NO_IMPROVEMENT)
    ensures RunAsWritten(ctx, s, draws).bestScore >= s.bestScore
    ensures RunAsWritten(ctx, s, draws).coolingRate <= s.coolingRate
    decreases |draws|
  {
    if draws != [] {
      RunAsWrittenConsistent(ctx, s, draws[..|draws| - 1]);
      NextAsWrittenConsistent(ctx, RunAsWritten(ctx, s, draws[..|draws| - 1]), draws[|draws| - 1]);
    }
  }

  /** From the start of a run as written, the cooling rate never exceeds
      its initial 0.9995. */
  lemma AsWrittenRateNeverRises(ctx: Search, draws: seq<Draw>)
    requires 26 <= |ctx.initialKey|
    ensures RunAsWritten(ctx, Start(ctx), draws).coolingRate <= INITIAL_COOLING_RATE
  {
    StartConsistent(ctx);
    RunAsWrittenConsistent(ctx, Start(ctx), draws);
  }

  /** Two states that agree on everything except the temperature, the
      cooling rate and the adaptation window. */
  predicate SameSearch(s: RunState, t: RunState) {
    && s.currentKey == t.currentKey && s.currentScore == t.currentScore
    && s.bestKey == t.bestKey && s.bestScore == t.bestScore
    && s.noImprovementCount == t.noImprovementCount && s.lastBestScore == t.lastBestScore
    && s.iter == t.iter
  }

  /** The corrected iteration and the one as written make the same moves on
      the same draws: the cooling schedule reaches keys and scores only
      through the outcome of the Metropolis test, which is a draw. */
  lemma NextAgrees(ctx: Search, s: RunState, t: RunState, d: Draw)
    requires SameSearch(s, t)
    ensures SameSearch(Next(ctx, s, d), NextAsWritten(ctx, t, d))
  {
  }

  /** Over any draws, the corrected run and the run as written agree on the
      keys, the scores and the counters. */
  lemma {:induction false} RunAgrees(ctx: Search, s: RunState, t: RunState, draws: seq<Draw>)
    requires SameSearch(s, t)
    ensures SameSearch(Run(ctx, s, draws), RunAsWritten(ctx, t, draws))
    decreases |draws|
  {
    if draws != [] {
      RunAgrees(ctx, s, t, draws[..|draws| - 1]);
      NextAgrees(ctx, Run(ctx, s, draws[..|draws| - 1]), RunAsWritten(ctx, t, draws[..|draws| - 1]), draws[|draws| - 1]);
    }
  }

  // ---------------------------------------------------------------------
  // The search state, updated in place
  // ---------------------------------------------------------------------

  /** The state of one annealing run. */
  class Annealer {
    const ciphertext: string
    const targetKey: string
    const scoreText: string -> real
    const initialKey: string

    var currentKey: string
    var currentScore: real
    var bestKey: string
    var bestScore: real
    var noImprovementCount: int
    var lastBestScore: real
    var windowBestScore: real
    var temperature: real
    var coolingRate: real
    var iter: int

    function Ctx(): Search {
      Search(ciphertext, targetKey, scoreText, initialKey)
    }

    /** The fields as a value. */
    ghost function State(): RunState
      reads this
    {
      RunState(currentKey, currentScore, bestKey, bestScore, noImprovementCount,
               lastBestScore, windowBestScore, temperature, coolingRate, iter)
    }

    ghost predicate Valid()
      reads this
    {
      Consistent(Ctx(), State(), MAX_NO_IMPROVEMENT)
    }

    /** The start of `simulated_annealing` (main.cpp:156-170). */
    constructor (ciphertext: string, initialKey: string, targetKey: string, scoreText: string -> real)
      requires 26 <= |initialKey|
      ensures Ctx() == Search(ciphertext, targetKey, scoreText, initialKey)
      ensures State() == Start(Ctx())
      ensures Valid()
    {
      this.ciphertext := ciphertext;
      this.targetKey := targetKey;
      this.scoreText := scoreText;
      this.initialKey := initialKey;
      var currentDecryption := ApplyKey(ciphertext, initialKey, targetKey);
      var initialScore := scoreText(currentDecryption);
      temperature := INITIAL_TEMPERATURE;
      coolingRate := INITIAL_COOLING_RATE;
      currentKey := initialKey;
      bestKey := initialKey;
      currentScore := initialScore;
      bestScore := initialScore;
      noImprovementCount := 0;
      lastBestScore := initialScore;
      windowBestScore := initialScore;
      iter := 0;
      new;
      StartConsistent(Ctx());
    }

    /** One iteration of the main loop (main.cpp:175-288). */
    method Step(d: Draw)
      requires Valid() && WellFormed(d)
      modifies this
      ensures State() == Next(Ctx(), old(State()), d)
      ensures Valid()
      ensures bestScore >= old(bestScore)
      ensures bestKey != old(bestKey) ==> bestScore > old(bestScore)
    {
      NextConsistent(Ctx(), State(), d);
      Move(d.r, d.p1, d.p2, d.p3, d.p4, d.acceptWorse);
      RestartIfStuck(d.restartSwaps);
      Cool();
    }

    /** Neighbour generation and scoring, then acceptance (main.cpp:177-251). */
    method Move(r: real, p1: int, p2: int, p3: int, p4: int, acceptWorse: bool)
      requires 26 <= |currentKey|
      requires IsPosition(p1) && IsPosition(p2) && IsPosition(p3) && IsPosition(p4)
      requires r < 0.9 ==> p1 != p2
      requires 0.8 <= r < 0.9 ==> p3 != p4
      modifies this
      ensures State() == AfterMove(Ctx(), old(State()), r, p1, p2, p3, p4, acceptWorse)
    {
      var neighborKey := NeighborKey(currentKey, r, p1, p2, p3, p4);
      var neighborDecryption := ApplyKey(ciphertext, neighborKey, targetKey);
      var neighborScore := scoreText(neighborDecryption);
      Accept(neighborKey, neighborScore, acceptWorse);
    }

    /** The acceptance decision and the best-so-far bookkeeping for a scored
        neighbour (main.cpp:217-251). */
    method Accept(neighborKey: string, neighborScore: real, acceptWorse: bool)
      modifies this
      ensures State() == AfterAccept(old(State()), neighborKey, neighborScore, acceptWorse)
    {
      var accept := false;
      if neighborScore > currentScore {
        accept := true;
      } else {
        accept := acceptWorse;
      }

      if accept {
        currentKey := neighborKey;
        currentScore := neighborScore;
        if currentScore > bestScore {
          bestScore := currentScore;
          bestKey := currentKey;
          noImprovementCount := 0;
          if bestScore > lastBestScore + 10.0 || iter % 1000 == 0 {
            lastBestScore := bestScore;
          }
        } else {
          noImprovementCount := noImprovementCount + 1;
        }
      } else {
        noImprovementCount := noImprovementCount + 1;
      }
    }

    /** Restart and reheat after more than 5000 iterations without a strict
        improvement (main.cpp:254-273). */
    method RestartIfStuck(restartSwaps: seq<(int, int)>)
      modifies this
      ensures State() == AfterRestart(Ctx(), old(State()), restartSwaps)
    {
      if noImprovementCount > MAX_NO_IMPROVEMENT {
        var mutatedKey := MutateKey(bestKey, restartSwaps);
        currentKey := mutatedKey;
        var currentDecryption := ApplyKey(ciphertext, currentKey, targetKey);
        currentScore := scoreText(currentDecryption);
        noImprovementCount := 0;
        temperature := temperature * 3.0;
        if temperature > INITIAL_TEMPERATURE {
          temperature := INITIAL_TEMPERATURE;
        }
      }
    }

    /** Cooling and the periodic cooling-rate adaptation (main.cpp:276-287,
        corrected), then the move to the next iteration. */
    method Cool()
      modifies this
      ensures State() == AfterCool(old(State()))
    {
      temperature := temperature * coolingRate;
      if iter % ADAPT_PERIOD == 0 && iter > 0 {
        coolingRate := AdaptedCoolingRate(coolingRate, bestScore, windowBestScore);
        windowBestScore := bestScore;
      }
      iter := iter + 1;
    }
  }

  /** The number of iterations `for (iter = 0; iter < iterations; iter++)`
      performs. */
  function IterationCount(iterations: int): nat {
    if iterations < 0 then 0 else iterations
  }

  /** `simulated_annealing`: `iterations` steps from `initialKey`, returning
      the best key found. */
  method SimulatedAnnealing(ciphertext: string, initialKey: string, targetKey: string,
                            scoreText: string -> real, iterations: int, draws: seq<Draw>)
    returns (bestKey: string)
    requires 26 <= |initialKey|
    requires iterations <= |draws|
    requires forall i :: 0 <= i < |draws| ==> WellFormed(draws[i])
    ensures var ctx := Search(ciphertext, targetKey, scoreText, initialKey);
      bestKey == Run(ctx, Start(ctx), draws[..IterationCount(iterations)]).bestKey
    ensures var ctx := Search(ciphertext, targetKey, scoreText, initialKey);
      bestKey == RunAsWritten(ctx, Start(ctx), draws[..IterationCount(iterations)]).bestKey
    ensures IsPermutationOf(bestKey, initialKey)
    ensures var ctx := Search(ciphertext, targetKey, scoreText, initialKey);
      KeyScore(ctx, bestKey) >= KeyScore(ctx, initialKey)
  {
    var annealer := new Annealer(ciphertext, initialKey, targetKey, scoreText);
    ghost var ctx := annealer.Ctx();
    var iter := 0;
    while iter < iterations
      invariant 0 <= iter <= IterationCount(iterations)
      invariant annealer.Valid()
      invariant annealer.Ctx() == ctx
      invariant annealer.State() == Run(ctx, Start(ctx), draws[..iter])
    {
      RunSnoc(ctx, Start(ctx), draws, iter);
      annealer.Step(draws[iter]);
      iter := iter + 1;
    }
    assert iter == IterationCount(iterations);
    assert annealer.bestKey == annealer.State().bestKey;
    RunAgrees(ctx, Start(ctx), Start(ctx), draws[..iter]);
    bestKey := annealer.bestKey;
  }

  /** The selection loop of `multi_start_annealing` (main.cpp:359-364): the
      first index of a maximal score, 0 when there is none. */
  method SelectBest(scores: seq<real>) returns (bestIdx: nat)
    ensures |scores| == 0 ==> bestIdx == 0
    ensures |scores| > 0 ==> bestIdx < |scores|
    ensures |scores| > 0 ==> forall j :: 0 <= j < |scores| ==> scores[j] <= scores[bestIdx]
    ensures |scores| > 0 ==> forall j :: 0 <= j < bestIdx ==> scores[j] < scores[bestIdx]
  {
    bestIdx := 0;
    var i := 1;
    while i < |scores|
      invariant |scores| > 0 ==> bestIdx < i <= |scores|
      invariant |scores| == 0 ==> bestIdx == 0
      invariant forall j :: 0 <= j < i && j < |scores| ==> scores[j] <= scores[bestIdx]
      invariant forall j :: 0 <= j < bestIdx ==> scores[j] < scores[bestIdx]
    {
      if scores[i] > scores[bestIdx] {
        bestIdx := i;
      }
      i := i + 1;
    }
  }

  /** The result of one start of the multi-start search: the best key of
      the run from the initial key mutated by the start's swaps. */
  function RunResult(ciphertext: string, initialKey: string, targetKey: string, scoreText: string -> real,
                     iterations: int, startSwaps: seq<(int, int)>, draws: seq<Draw>): string
    requires IterationCount(iterations) <= |draws|
  {
    var run := Search(ciphertext, targetKey, scoreText, Mutated(initialKey, startSwaps));
    Run(run, Start(run), draws[..IterationCount(iterations)]).bestKey
  }

  /** The result of a start rearranges the initial key and scores at least
      as well as the start's own key. */
  lemma RunResultProperties(ciphertext: string, initialKey: string, targetKey: string, scoreText: string -> real,
                            iterations: int, startSwaps: seq<(int, int)>, draws: seq<Draw>)
    requires 26 <= |initialKey|
    requires IterationCount(iterations) <= |draws|
    ensures var ctx := Search(ciphertext, targetKey, scoreText, initialKey);
      var result := RunResult(ciphertext, initialKey, targetKey, scoreText, iterations, startSwaps, draws);
      && IsPermutationOf(result, initialKey)
      && KeyScore(ctx, result) >= KeyScore(ctx, Mutated(initialKey, startSwaps))
  {
    var startKey := Mutated(initialKey, startSwaps);
    MutatedPermutes(initialKey, startSwaps);
    var run := Search(ciphertext, targetKey, scoreText, startKey);
    StartConsistent(run);
    RunConsistent(run, Start(run), draws[..IterationCount(iterations)]);
  }

  /** One start of `multi_start_annealing` (main.cpp:314-347): the run from
      the initial key mutated by the start's swaps, and the score of its
      result. */
  method AnnealFromMutated(ciphertext: string, initialKey: string, targetKey: string,
                           scoreText: string -> real, iterations: int,
                           startSwaps: seq<(int, int)>, draws: seq<Draw>)
    returns (resultKey: string, score: real)
    requires 26 <= |initialKey|
    requires iterations <= |draws|
    requires forall j :: 0 <= j < |draws| ==> WellFormed(draws[j])
    ensures resultKey == RunResult(ciphertext, initialKey, targetKey, scoreText, iterations, startSwaps, draws)
    ensures score == KeyScore(Search(ciphertext, targetKey, scoreText, initialKey), resultKey)
  {
    var startKey := MutateKey(initialKey, startSwaps);
    resultKey := SimulatedAnnealing(ciphertext, startKey, targetKey, scoreText, iterations, draws);
    var decrypted := ApplyKey(ciphertext, resultKey, targetKey);
    score := scoreText(decrypted);
  }

  /** The results of the first `n` starts, in run order. */
  function RunResults(ciphertext: string, initialKey: string, targetKey: string, scoreText: string -> real,
                      iterations: int, startSwaps: seq<seq<(int, int)>>, runDraws: seq<seq<Draw>>, n: nat): (rs: seq<string>)
    requires n <= |startSwaps| && n <= |runDraws|
    requires forall i :: 0 <= i < n ==> IterationCount(iterations) <= |runDraws[i]|
    ensures |rs| == n
    decreases n
  {
    if n == 0 then []
    else RunResults(ciphertext, initialKey, targetKey, scoreText, iterations, startSwaps, runDraws, n - 1)
         + [RunResult(ciphertext, initialKey, targetKey, scoreText, iterations, startSwaps[n - 1], runDraws[n - 1])]
  }

  /** Entry `i` of the results is the result of start `i`. */
  lemma {:induction false} RunResultsAt(ciphertext: string, initialKey: string, targetKey: string, scoreText: string -> real,
                                        iterations: int, startSwaps: seq<seq<(int, int)>>, runDraws: seq<seq<Draw>>,
                                        n: nat, i: int)
    requires n <= |startSwaps| && n <= |runDraws|
    requires forall k :: 0 <= k < n ==> IterationCount(iterations) <= |runDraws[k]|
    requires 0 <= i < n
    ensures RunResults(ciphertext, initialKey, targetKey, scoreText, iterations, startSwaps, runDraws, n)[i]
         == RunResult(ciphertext, initialKey, targetKey, scoreText, iterations, startSwaps[i], runDraws[i])
    decreases n
  {
    if i < n - 1 {
      RunResultsAt(ciphertext, initialKey, targetKey, scoreText, iterations, startSwaps, runDraws, n - 1, i);
    }
  }

  /** Every result of the first `n` starts rearranges the initial key and
      scores at least as well as its start's key. */
  lemma RunResultsProperties(ciphertext: string, initialKey: string, targetKey: string, scoreText: string -> real,
                             iterations: int, startSwaps: seq<seq<(int, int)>>, runDraws: seq<seq<Draw>>, n: nat)
    requires 26 <= |initialKey|
    requires n <= |startSwaps| && n <= |runDraws|
    requires forall k :: 0 <= k < n ==> IterationCount(iterations) <= |runDraws[k]|
    ensures var ctx := Search(ciphertext, targetKey, scoreText, initialKey);
      var rs := RunResults(ciphertext, initialKey, targetKey, scoreText, iterations, startSwaps, runDraws, n);
      forall i :: 0 <= i < n ==>
        IsPermutationOf(rs[i], initialKey) && KeyScore(ctx, rs[i]) >= KeyScore(ctx, Mutated(initialKey, startSwaps[i]))
  {
    var rs := RunResults(ciphertext, initialKey, targetKey, scoreText, iterations, startSwaps, runDraws, n);
    forall i | 0 <= i < n
      ensures IsPermutationOf(rs[i], initialKey)
      ensures KeyScore(Search(ciphertext, targetKey, scoreText, initialKey), rs[i])
           >= KeyScore(Search(ciphertext, targetKey, scoreText, initialKey), Mutated(initialKey, startSwaps[i]))
    {
      RunResultsAt(ciphertext, initialKey, targetKey, scoreText, iterations, startSwaps, runDraws, n, i);
      RunResultProperties(ciphertext, initialKey, targetKey, scoreText, iterations, startSwaps[i], runDraws[i]);
    }
  }

  /** The scores of the given keys, in order. */
  function KeyScores(ctx: Search, keys: seq<string>): (scores: seq<real>)
    ensures |scores| == |keys|
    decreases |keys|
  {
    if keys == [] then [] else KeyScores(ctx, keys[..|keys| - 1]) + [KeyScore(ctx, keys[|keys| - 1])]
  }

  /** Entry `i` of the scores is the score of key `i`. */
  lemma {:induction false} KeyScoresAt(ctx: Search, keys: seq<string>, i: int)
    requires 0 <= i < |keys|
    ensures KeyScores(ctx, keys)[i] == KeyScore(ctx, keys[i])
    decreases |keys|
  {
    if i < |keys| - 1 {
      KeyScoresAt(ctx, keys[..|keys| - 1], i);
    }
  }

  /** The starts of `multi_start_annealing` (main.cpp:313-351), taken one
      after another in run order: the result key of each run and its score. */
  method RunStarts(ciphertext: string, initialKey: string, targetKey: string,
                   scoreText: string -> real, numStarts: nat, iterationsPerStart: int,
                   startSwaps: seq<seq<(int, int)>>, runDraws: seq<seq<Draw>>)
    returns (resultKeys: seq<string>, scores: seq<real>)
    requires 26 <= |initialKey|
    requires numStarts <= |startSwaps| && numStarts <= |runDraws|
    requires forall i :: 0 <= i < numStarts ==> iterationsPerStart <= |runDraws[i]|
    requires forall i, j :: 0 <= i < numStarts && 0 <= j < |runDraws[i]| ==> WellFormed(runDraws[i][j])
    ensures resultKeys == RunResults(ciphertext, initialKey, targetKey, scoreText, iterationsPerStart,
                                     startSwaps, runDraws, numStarts)
    ensures scores == KeyScores(Search(ciphertext, targetKey, scoreText, initialKey), resultKeys)
  {
    resultKeys, scores := [], [];
    ghost var ctx := Search(ciphertext, targetKey, scoreText, initialKey);
    for i := 0 to numStarts
      invariant resultKeys == RunResults(ciphertext, initialKey, targetKey, scoreText, iterationsPerStart,
                                         startSwaps, runDraws, i)
      invariant scores == KeyScores(ctx, resultKeys)
    {
      var resultKey, score := AnnealFromMutated(ciphertext, initialKey, targetKey, scoreText,
                                                iterationsPerStart, startSwaps[i], runDraws[i]);
      assert (resultKeys + [resultKey])[..i] == resultKeys;
      resultKeys := resultKeys + [resultKey];
      scores := scores + [score];
    }
  }

  /** `multi_start_annealing` (main.cpp:298-367): the key of the first best
      score among the starts, the runs taken one after another in run order.
      `results` are the keys the runs returned, in run order. */
  method MultiStartAnnealing(ciphertext: string, initialKey: string, targetKey: string,
                             scoreText: string -> real, numStarts: int, iterationsPerStart: int,
                             startSwaps: seq<seq<(int, int)>>, runDraws: seq<seq<Draw>>)
    returns (bestKey: string, ghost results: seq<string>)
    requires 26 <= |initialKey|
    requires 1 <= numStarts <= |startSwaps| && numStarts <= |runDraws|
    requires forall i :: 0 <= i < numStarts ==> IsSwapDraws(startSwaps[i], START_SWAPS)
    requires forall i :: 0 <= i < numStarts ==> iterationsPerStart <= |runDraws[i]|
    requires forall i, j :: 0 <= i < numStarts && 0 <= j < |runDraws[i]| ==> WellFormed(runDraws[i][j])
    ensures results == RunResults(ciphertext, initialKey, targetKey, scoreText, iterationsPerStart,
                                  startSwaps, runDraws, numStarts)
    ensures bestKey in results && IsPermutationOf(bestKey, initialKey)
    ensures forall i :: 0 <= i < numStarts ==>
      KeyScore(Search(ciphertext, targetKey, scoreText, initialKey), bestKey) >=
      KeyScore(Search(ciphertext, targetKey, scoreText, initialKey), results[i])
    ensures var ctx := Search(ciphertext, targetKey, scoreText, initialKey);
      exists idx :: 0 <= idx < numStarts && results[idx] == bestKey && (forall i :: 0 <= i < idx ==> KeyScore(ctx, results[i]) < KeyScore(ctx, bestKey))
  {
    var bestKeys, bestScores := RunStarts(ciphertext, initialKey, targetKey, scoreText, numStarts,
                                          iterationsPerStart, startSwaps, runDraws);
    ghost var ctx := Search(ciphertext, targetKey, scoreText, initialKey);
    var bestIdx;
    bestKey, bestIdx := PickBest(ctx, bestKeys, bestScores);
    results := bestKeys;
    assert results[bestIdx] == bestKey;
    assert IsPermutationOf(bestKey, initialKey) by {
      RunResultsAt(ciphertext, initialKey, targetKey, scoreText, iterationsPerStart,
                   startSwaps, runDraws, numStarts, bestIdx);
      RunResultProperties(ciphertext, initialKey, targetKey, scoreText, iterationsPerStart,
                          startSwaps[bestIdx], runDraws[bestIdx]);
    }
  }

  /** The key of the first best score (main.cpp:359-366). */
  method PickBest(ghost ctx: Search, keys: seq<string>, scores: seq<real>) returns (bestKey: string, bestIdx: nat)
    requires 1 <= |keys| && scores == KeyScores(ctx, keys)
    ensures bestIdx < |keys| && bestKey == keys[bestIdx]
    ensures forall i :: 0 <= i < |keys| ==> KeyScore(ctx, bestKey) >= KeyScore(ctx, keys[i])
    ensures forall i :: 0 <= i < bestIdx ==> KeyScore(ctx, keys[i]) < KeyScore(ctx, bestKey)
  {
    bestIdx := SelectBest(scores);
    bestKey := keys[bestIdx];
    KeyScoresAt(ctx, keys, bestIdx);
    forall i | 0 <= i < |keys|
      ensures scores[i] == KeyScore(ctx, keys[i])
    {
      KeyScoresAt(ctx, keys, i);
    }
  }
}

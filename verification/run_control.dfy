/**
 * The bookkeeping of one hill-climbing worker (the body of
 * hillClimbingThreadFunc): at most MaxIter rounds, each of which samples a
 * start tree at temperature T, climbs from it, scores the result and
 * records it in the decoder's shared best-so-far state. What one round
 * samples and climbs to is an oracle here: it yields either a failed
 * sampler or the round's final score with the state worth remembering.
 */
module RunControl {
  import opened Wrappers
  import opened Argmax

  /** Rounds per worker. */
  const MaxIter: nat := 100

  /** Temperature of the first sampler call. */
  const StartTemp: real := 0.25

  /** -DBL_MAX, the best score before any round is recorded. */
  const Lowest: real := -179769313486231570814527423731704356798070567525844996598917476803157260780028538760589558632766878171540458953514382464234321326889464182768467546703537516986049910576551282076245490090389328944075868508455133942304583236903222948165808559332123348274797826204144723168738177180919299881250404026184124858368.0

  /** The decoder fields the workers update under updateMutex; best is a snapshot of any type. */
  datatype Shared<S> = Shared(bestScore: real, best: S, unChangeIter: nat)

  /** convergeIter, earlyStop, and the gold tree's model score when training (None when decoding). */
  datatype Limits = Limits(convergeIter: int, earlyStopIter: int, goldScore: Option<real>)

  /** What startTask resets before the workers begin. */
  function Start<S>(snap: S): Shared<S> {
    Shared(Lowest, snap, 0)
  }

  /**
   * A worker stops after this round: no improvement for convergeIter rounds,
   * or (training) for earlyStopIter rounds while the best already reaches the
   * gold score.
   */
  predicate Converged<S>(lim: Limits, sh: Shared<S>) {
    || sh.unChangeIter >= lim.convergeIter
    || (lim.goldScore.Some? && sh.unChangeIter >= lim.earlyStopIter && sh.bestScore >= lim.goldScore.value - Eps)
  }

  /** A round's score beats the best by more than Eps. */
  predicate Improves<S>(sh: Shared<S>, score: real) {
    score > sh.bestScore + Eps
  }

  datatype Recorded<S> = Recorded(shared: Shared<S>, done: bool)

  /**
   * The critical section after a scored round: the stop test reads the
   * state before the round is recorded; an improving round replaces best
   * and resets the counter unless the worker is stopping, any other round
   * bumps the counter.
   */
  function Record<S>(lim: Limits, sh: Shared<S>, score: real, snap: S): (r: Recorded<S>)
    ensures r.done == Converged(lim, sh)
    ensures sh.bestScore <= r.shared.bestScore
    ensures score <= r.shared.bestScore + Eps
    ensures Improves(sh, score) <==> r.shared.bestScore != sh.bestScore
    ensures Improves(sh, score) ==> r.shared.bestScore == score && r.shared.best == snap
    ensures !Improves(sh, score) ==> r.shared.best == sh.best && r.shared.unChangeIter == sh.unChangeIter + 1
    ensures r.shared.unChangeIter < sh.unChangeIter ==> Improves(sh, score) && !r.done
  {
    var done := Converged(lim, sh);
    if score > sh.bestScore + Eps then
      Recorded(Shared(score, snap, if done then sh.unChangeIter else 0), done)
    else
      Recorded(sh.(unChangeIter := sh.unChangeIter + 1), done)
  }

  /** A worker that has converged stays converged whatever the next round scores. */
  lemma ConvergedStable<S>(lim: Limits, sh: Shared<S>, score: real, snap: S)
    requires Converged(lim, sh)
    ensures Converged(lim, Record(lim, sh, score, snap).shared)
  {
  }

  /** One round's result, as the oracle reports it. */
  datatype Attempt<S> = Failed | Scored(score: real, snap: S)

  /** The round oracle, given the round number and the temperature. */
  type Oracle<S> = (nat, real) -> Attempt<S>

  /** A worker's loop variables (iter, T, done) and the shared state it writes. */
  datatype Worker<S> = Worker(shared: Shared<S>, temp: real, iter: nat, done: bool)

  /** One round: a failed sampler halves T and skips the rest of the round. */
  function Round<S>(lim: Limits, a: Attempt<S>, w: Worker<S>): (r: Worker<S>)
    ensures r.iter == w.iter + 1
  {
    match a
    case Failed => w.(temp := w.temp * 0.5, iter := w.iter + 1)
    case Scored(score, snap) =>
      var rec := Record(lim, w.shared, score, snap);
      Worker(rec.shared, w.temp, w.iter + 1, rec.done)
  }

  /** The worker's for-loop: rounds until MaxIter rounds have run or done is set. */
  function Run<S>(lim: Limits, attempt: Oracle<S>, w: Worker<S>): Worker<S>
    decreases MaxIter - w.iter
  {
    if w.iter >= MaxIter || w.done then w
    else Run(lim, attempt, Round(lim, attempt(w.iter, w.temp), w))
  }

  /** The rounds Run goes through, in order. */
  function Trace<S>(lim: Limits, attempt: Oracle<S>, w: Worker<S>): seq<Attempt<S>>
    decreases MaxIter - w.iter
  {
    if w.iter >= MaxIter || w.done then []
    else var a := attempt(w.iter, w.temp); [a] + Trace(lim, attempt, Round(lim, a, w))
  }

  /** A whole worker run after startTask. */
  function Work<S>(lim: Limits, attempt: Oracle<S>, snap: S): Worker<S> {
    Run(lim, attempt, Worker(Start(snap), StartTemp, 0, false))
  }

  function Failures<S>(t: seq<Attempt<S>>): nat {
    if t == [] then 0 else (if t[0].Failed? then 1 else 0) + Failures(t[1..])
  }

  function Scoreds<S>(t: seq<Attempt<S>>): nat {
    if t == [] then 0 else (if t[0].Scored? then 1 else 0) + Scoreds(t[1..])
  }

  /** x halved n times. */
  function Halved(x: real, n: nat): real {
    if n == 0 then x else Halved(x, n - 1) * 0.5
  }

  lemma HalvedStep(x: real, n: nat)
    ensures Halved(x * 0.5, n) == Halved(x, n + 1)
  {
    if n > 0 {
      HalvedStep(x, n - 1);
    }
  }

  /** Run stops after at most MaxIter rounds, and before that only once done is set. */
  lemma {:induction false} RunBounded<S>(lim: Limits, attempt: Oracle<S>, w: Worker<S>)
    requires w.iter <= MaxIter
    ensures var r := Run(lim, attempt, w);
      && r.iter == w.iter + |Trace(lim, attempt, w)| <= MaxIter
      && (r.iter == MaxIter || r.done)
      && (w.done ==> r == w)
    decreases MaxIter - w.iter
  {
    if w.iter < MaxIter && !w.done {
      RunBounded(lim, attempt, Round(lim, attempt(w.iter, w.temp), w));
    }
  }

  /** T is the starting temperature halved once per failed sampler call. */
  lemma {:induction false} RunTemp<S>(lim: Limits, attempt: Oracle<S>, w: Worker<S>)
    ensures Run(lim, attempt, w).temp == Halved(w.temp, Failures(Trace(lim, attempt, w)))
    decreases MaxIter - w.iter
  {
    if w.iter < MaxIter && !w.done {
      var a := attempt(w.iter, w.temp);
      var w1 := Round(lim, a, w);
      var t1 := Trace(lim, attempt, w1);
      RunTemp(lim, attempt, w1);
      assert ([a] + t1)[1..] == t1;
      if a.Failed? {
        HalvedStep(w.temp, Failures(t1));
      }
    }
  }

  /** The best score never drops, and ends within Eps of every score recorded. */
  lemma {:induction false} RunBest<S>(lim: Limits, attempt: Oracle<S>, w: Worker<S>)
    ensures w.shared.bestScore <= Run(lim, attempt, w).shared.bestScore
    ensures forall j :: 0 <= j < |Trace(lim, attempt, w)| && Trace(lim, attempt, w)[j].Scored? ==>
      Trace(lim, attempt, w)[j].score <= Run(lim, attempt, w).shared.bestScore + Eps
    decreases MaxIter - w.iter
  {
    if w.iter < MaxIter && !w.done {
      var a := attempt(w.iter, w.temp);
      var w1 := Round(lim, a, w);
      RunBest(lim, attempt, w1);
      var r := Run(lim, attempt, w1);
      var t1 := Trace(lim, attempt, w1);
      var t := [a] + t1;
      assert Trace(lim, attempt, w) == t;
      forall j | 0 <= j < |t| && t[j].Scored?
        ensures t[j].score <= r.shared.bestScore + Eps
      {
        if j > 0 {
          assert t[j] == t1[j - 1];
        } else {
          assert w1.shared == Record(lim, w.shared, a.score, a.snap).shared;
        }
      }
    }
  }

  /** The best score and snapshot are the initial pair or those of one recorded round. */
  lemma {:induction false} RunSnapshot<S>(lim: Limits, attempt: Oracle<S>, w: Worker<S>)
    ensures var r := Run(lim, attempt, w); var t := Trace(lim, attempt, w);
      || (r.shared.bestScore == w.shared.bestScore && r.shared.best == w.shared.best)
      || exists j :: 0 <= j < |t| && t[j] == Scored(r.shared.bestScore, r.shared.best)
    decreases MaxIter - w.iter
  {
    if w.iter < MaxIter && !w.done {
      var a := attempt(w.iter, w.temp);
      var w1 := Round(lim, a, w);
      RunSnapshot(lim, attempt, w1);
      var r := Run(lim, attempt, w1);
      var t1 := Trace(lim, attempt, w1);
      var t := [a] + t1;
      assert Trace(lim, attempt, w) == t;
      if r.shared.bestScore == w1.shared.bestScore && r.shared.best == w1.shared.best {
        if !(r.shared.bestScore == w.shared.bestScore && r.shared.best == w.shared.best) {
          assert a.Scored?;
          assert t[0] == Scored(r.shared.bestScore, r.shared.best);
        }
      } else {
        var j :| 0 <= j < |t1| && t1[j] == Scored(r.shared.bestScore, r.shared.best);
        assert t[j + 1] == t1[j];
      }
    }
  }

  /** A worker that stops early has converged. */
  lemma {:induction false} RunDoneConverged<S>(lim: Limits, attempt: Oracle<S>, w: Worker<S>)
    ensures var r := Run(lim, attempt, w); r.done ==> w.done || Converged(lim, r.shared)
    decreases MaxIter - w.iter
  {
    if w.iter < MaxIter && !w.done {
      var a := attempt(w.iter, w.temp);
      var w1 := Round(lim, a, w);
      if a.Scored? && w1.done {
        ConvergedStable(lim, w.shared, a.score, a.snap);
      }
      RunDoneConverged(lim, attempt, w1);
    }
  }

  /** A converged worker records at most one more round, and stops right after it. */
  lemma {:induction false} RunConvergedStops<S>(lim: Limits, attempt: Oracle<S>, w: Worker<S>)
    requires !w.done && Converged(lim, w.shared)
    ensures var r := Run(lim, attempt, w); var t := Trace(lim, attempt, w);
      && Scoreds(t) <= 1
      && (Scoreds(t) == 1 ==> t[|t| - 1].Scored? && r.done)
    decreases MaxIter - w.iter
  {
    if w.iter < MaxIter {
      var a := attempt(w.iter, w.temp);
      var w1 := Round(lim, a, w);
      var t1 := Trace(lim, attempt, w1);
      assert ([a] + t1)[1..] == t1;
      if a.Failed? {
        RunConvergedStops(lim, attempt, w1);
      } else {
        assert t1 == [];
      }
    }
  }

  /** With the best score unchanged, the counter rose once per scored round. */
  lemma {:induction false} RunCounterStale<S>(lim: Limits, attempt: Oracle<S>, w: Worker<S>)
    ensures var r := Run(lim, attempt, w);
      r.shared.bestScore == w.shared.bestScore ==>
        r.shared.unChangeIter == w.shared.unChangeIter + Scoreds(Trace(lim, attempt, w))
    decreases MaxIter - w.iter
  {
    if w.iter < MaxIter && !w.done {
      var a := attempt(w.iter, w.temp);
      var w1 := Round(lim, a, w);
      var t1 := Trace(lim, attempt, w1);
      assert ([a] + t1)[1..] == t1;
      RunCounterStale(lim, attempt, w1);
      RunBest(lim, attempt, w1);
    }
  }

  /**
   * With the best score improved and the worker still running, the counter
   * was reset: it counts fewer rounds than were scored.
   */
  lemma {:induction false} RunCounterReset<S>(lim: Limits, attempt: Oracle<S>, w: Worker<S>)
    requires w.iter <= MaxIter
    ensures var r := Run(lim, attempt, w);
      !r.done && r.shared.bestScore != w.shared.bestScore ==>
        r.shared.unChangeIter < Scoreds(Trace(lim, attempt, w))
    decreases MaxIter - w.iter
  {
    if w.iter < MaxIter && !w.done {
      var a := attempt(w.iter, w.temp);
      var w1 := Round(lim, a, w);
      var t1 := Trace(lim, attempt, w1);
      assert ([a] + t1)[1..] == t1;
      RunCounterReset(lim, attempt, w1);
      RunCounterStale(lim, attempt, w1);
      RunBounded(lim, attempt, w1);
    }
  }

  /**
   * A whole worker run: at most MaxIter rounds, T is 0.25 halved once per
   * failed sampler, and the best score starts at -DBL_MAX and stays within
   * Eps of every recorded round.
   */
  lemma WorkFacts<S>(lim: Limits, attempt: Oracle<S>, snap: S)
    ensures var r := Work(lim, attempt, snap); var t := Trace(lim, attempt, Worker(Start(snap), StartTemp, 0, false));
      && r.iter == |t| <= MaxIter
      && r.temp == Halved(StartTemp, Failures(t))
      && Lowest <= r.shared.bestScore
      && (forall j :: 0 <= j < |t| && t[j].Scored? ==> t[j].score <= r.shared.bestScore + Eps)
  {
    var w := Worker(Start(snap), StartTemp, 0, false);
    RunBounded(lim, attempt, w);
    RunTemp(lim, attempt, w);
    RunBest(lim, attempt, w);
  }
}

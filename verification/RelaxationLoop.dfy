/** The bound relaxation loop around the simplex call in solve_LP (lp_mipbb.c).  A failed
    run is tried again on a private copy of the bounds, perturbed; an optimum of perturbed
    bounds is not the answer, the bounds are taken back one copy at a time. */
module RelaxationLoop {

  datatype Status = RUNNING | OPTIMAL | INFEASIBLE | UNBOUNDED | LOSTFEAS | NUMFAILURE | DEGENERATE | OTHER

  const DEF_MAXRELAX := 7

  /** When a failed run may be relaxed: at the root level or with ANTIDEGEN_DURINGBB, for
      the failures the anti-degeneracy mode lists. */
  datatype Config = Config(level: nat, duringBB: bool, lostfeas: bool, infeasible: bool, numfailure: bool,
    stalling: bool)

  predicate Recoverable(c: Config, status: Status) {
    && (c.level <= 1 || c.duringBB)
    && (|| (status == LOSTFEAS && c.lostfeas)
        || (status == INFEASIBLE && c.infeasible)
        || (status == NUMFAILURE && c.numfailure)
        || (status == DEGENERATE && c.stalling))
  }

  /** `copies` are the private bounds above those of the node, `imposed` the bounds the next
      run works with, `last` those of the last run. */
  datatype State<B> = State(status: Status, tilted: int, restored: int, copies: seq<B>, imposed: B, last: B,
    perturbed: nat)

  function Start<B>(own: B): State<B> {
    State(RUNNING, 0, 0, [], own, own, 0)
  }

  /** One turn of the loop, given how the simplex run ends; the k-th perturbation of bounds
      is some function of them. */
  function Step<B>(c: Config, own: B, perturb: (B, nat) -> B, s: State<B>, outcome: Status): (t: State<B>)
  {
    var ran := s.(status := outcome, last := s.imposed);
    if outcome == OPTIMAL && s.tilted > 0 then
      var copies := if s.copies == [] then [] else s.copies[..|s.copies| - 1];
      ran.(status := RUNNING, tilted := s.tilted - 1, restored := s.restored + 1, copies := copies,
           imposed := if copies == [] then own else copies[|copies| - 1])
    else if Recoverable(c, outcome) then
      if s.tilted <= DEF_MAXRELAX && !(s.tilted == 0 && s.restored > DEF_MAXRELAX) then
        var copy := perturb(if s.copies == [] then own else s.copies[|s.copies| - 1], s.perturbed);
        ran.(status := RUNNING, tilted := s.tilted + 1, copies := s.copies + [copy], imposed := copy,
          perturbed := s.perturbed + 1)
      else ran.(copies := [])
    else ran
  }

  /** The loop over a given sequence of outcomes; nothing more happens once it has ended. */
  function Run<B>(c: Config, own: B, perturb: (B, nat) -> B, trace: seq<Status>): (s: State<B>)
  {
    if trace == [] then Start(own)
    else
      var s := Run(c, own, perturb, trace[..|trace| - 1]);
      if s.status == RUNNING then Step(c, own, perturb, s, trace[|trace| - 1]) else s
  }

  /** The loop of solve_LP. */
  method SolveLoop<B>(c: Config, own: B, perturb: (B, nat) -> B, trace: seq<Status>) returns (status: Status, last: B)
    requires RUNNING !in trace
    ensures status == Run(c, own, perturb, trace).status && last == Run(c, own, perturb, trace).last
    ensures status == OPTIMAL ==> last == own
    ensures trace != [] && (forall failure :: !Recoverable(c, failure)) ==> status == trace[0] && last == own
  {
    status := RUNNING;
    var tilted, restored, perturbed := 0, 0, 0;
    var copies, imposed := [], own;
    last := own;
    var k := 0;
    assert trace[..0] == [];
    RunSnoc(c, own, perturb, [], RUNNING);
    hide *;
    while status == RUNNING && k < |trace|
      invariant 0 <= k <= |trace| && perturbed >= 0
      invariant State(status, tilted, restored, copies, imposed, last, perturbed) == Run(c, own, perturb, trace[..k])
      decreases |trace| - k
    {
      assert trace[..k] + [trace[k]] == trace[..k + 1];
      RunSnoc(c, own, perturb, trace[..k], trace[k]);
      ghost var s := State(status, tilted, restored, copies, imposed, last, perturbed);
      last := imposed;
      status, tilted, restored, copies, imposed, perturbed :=
        Turn(c, own, perturb, trace[k], tilted, restored, copies, imposed, perturbed, s.last);
      k := k + 1;
    }
    if k < |trace| {
      RunEnded(c, own, perturb, trace, k);
    }
    assert trace[..|trace|] == trace;
    LoopResult(c, own, perturb, trace);
  }

  /** What the loop does with one outcome. */
  method Turn<B>(c: Config, own: B, perturb: (B, nat) -> B, outcome: Status, tilted0: int, restored0: int,
                 copies0: seq<B>, imposed0: B, perturbed0: nat, ghost last: B)
    returns (status: Status, tilted: int, restored: int, copies: seq<B>, imposed: B, perturbed: nat)
    ensures State(status, tilted, restored, copies, imposed, imposed0, perturbed)
         == Step(c, own, perturb, State(RUNNING, tilted0, restored0, copies0, imposed0, last, perturbed0), outcome)
  {
    status, tilted, restored, copies, imposed, perturbed := outcome, tilted0, restored0, copies0, imposed0, perturbed0;
    if status == OPTIMAL && tilted > 0 {
      if copies != [] {
        copies := copies[..|copies| - 1];
      }
      imposed := if copies == [] then own else copies[|copies| - 1];
      status := RUNNING;
      tilted, restored := tilted - 1, restored + 1;
    } else if Recoverable(c, status) {
      if tilted <= DEF_MAXRELAX && !(tilted == 0 && restored > DEF_MAXRELAX) {
        var copy := perturb(if copies == [] then own else copies[|copies| - 1], perturbed);
        copies := copies + [copy];
        imposed := copy;
        status := RUNNING;
        tilted, perturbed := tilted + 1, perturbed + 1;
      } else {
        copies := [];
      }
    }
  }

  lemma LoopResult<B>(c: Config, own: B, perturb: (B, nat) -> B, trace: seq<Status>)
    requires RUNNING !in trace
    ensures Run(c, own, perturb, trace).status == OPTIMAL ==> Run(c, own, perturb, trace).last == own
    ensures trace != [] && (forall failure :: !Recoverable(c, failure)) ==>
              Run(c, own, perturb, trace).status == trace[0] && Run(c, own, perturb, trace).last == own
  {
    RunKeepsInvariant(c, own, perturb, trace);
    if trace != [] && forall failure :: !Recoverable(c, failure) {
      RunSnoc(c, own, perturb, [], trace[0]);
      assert [] + [trace[0]] == trace[..1];
      RunEnded(c, own, perturb, trace, 1);
    }
  }

  lemma {:induction false} RunEnded<B>(c: Config, own: B, perturb: (B, nat) -> B, trace: seq<Status>, k: nat)
    requires k <= |trace| && Run(c, own, perturb, trace[..k]).status != RUNNING
    ensures Run(c, own, perturb, trace) == Run(c, own, perturb, trace[..k])
    decreases |trace|
  {
    if k < |trace| {
      assert trace[..|trace| - 1][..k] == trace[..k];
      RunEnded(c, own, perturb, trace[..|trace| - 1], k);
    } else {
      assert trace[..k] == trace;
    }
  }

  /** While the loop goes on, there is one private copy for each relaxation in force, never
      more than one beyond the limit, and the next run works with the topmost copy, or with
      the bounds of the node when there is none. */
  ghost predicate Invariant<B>(own: B, s: State<B>) {
    && 0 <= s.tilted <= DEF_MAXRELAX + 1 && s.restored >= 0
    && (s.status == RUNNING ==>
         && |s.copies| == s.tilted
         && s.imposed == if s.copies == [] then own else s.copies[|s.copies| - 1])
    && (s.status == OPTIMAL ==> s.tilted == 0 && s.copies == [] && s.last == own)
  }

  lemma {:induction false} RunKeepsInvariant<B>(c: Config, own: B, perturb: (B, nat) -> B, trace: seq<Status>)
    requires RUNNING !in trace
    ensures Invariant(own, Run(c, own, perturb, trace))
  {
    if trace != [] {
      RunKeepsInvariant(c, own, perturb, trace[..|trace| - 1]);
    }
  }

  /** A relaxed optimum is never reported: if the loop ends with OPTIMAL, no relaxation is
      in force and the last run used the bounds of the node. */
  lemma NoRelaxedOptimum<B>(c: Config, own: B, perturb: (B, nat) -> B, trace: seq<Status>)
    requires RUNNING !in trace && Run(c, own, perturb, trace).status == OPTIMAL
    ensures Run(c, own, perturb, trace).tilted == 0 && Run(c, own, perturb, trace).copies == []
    ensures Run(c, own, perturb, trace).last == own
  {
    RunKeepsInvariant(c, own, perturb, trace);
  }

  /** The copies are freed unless the loop ends on an outcome it cannot recover from while
      relaxations are in force. */
  lemma CopiesLeftIff<B>(c: Config, own: B, perturb: (B, nat) -> B, trace: seq<Status>)
    requires RUNNING !in trace && trace != []
    requires Run(c, own, perturb, trace[..|trace| - 1]).status == RUNNING != Run(c, own, perturb, trace).status
    ensures Run(c, own, perturb, trace).copies != [] <==>
            Run(c, own, perturb, trace[..|trace| - 1]).tilted > 0 && trace[|trace| - 1] != OPTIMAL
              && !Recoverable(c, trace[|trace| - 1])
  {
    RunKeepsInvariant(c, own, perturb, trace[..|trace| - 1]);
  }

  /** Without an optimum in between, the loop ends: every further failure uses up one of the
      relaxations that are left. */
  lemma {:induction false} FailuresEnd<B>(c: Config, own: B, perturb: (B, nat) -> B, trace: seq<Status>,
                                          failures: seq<Status>)
    requires RUNNING !in trace && RUNNING !in failures && OPTIMAL !in failures
    requires |failures| > DEF_MAXRELAX + 1 - Run(c, own, perturb, trace).tilted
    ensures Run(c, own, perturb, trace + failures).status != RUNNING
    decreases |failures|
  {
    RunKeepsInvariant(c, own, perturb, trace);
    var s := Run(c, own, perturb, trace);
    var longer := trace + failures[..1];
    assert longer[..|longer| - 1] == trace && longer + failures[1..] == trace + failures;
    if Run(c, own, perturb, longer).status == RUNNING {
      FailuresEnd(c, own, perturb, longer, failures[1..]);
    } else {
      assert (trace + failures)[..|longer|] == longer;
      RunEnded(c, own, perturb, trace + failures, |longer|);
    }
  }

  /** Two failures, then n times an optimum and another failure. */
  function Alternating(failure: Status, n: nat): (trace: seq<Status>)
    ensures |trace| == 2 * n + 2 && forall k :: 0 <= k < |trace| ==> trace[k] == failure || trace[k] == OPTIMAL
  {
    if n == 0 then [failure, failure] else Alternating(failure, n - 1) + [OPTIMAL, failure]
  }

  /** Failures and optima in turn keep the loop going for ever: the limit on restored bounds
      only counts when no relaxation is in force, and here one always is. */
  lemma {:induction false} NeedNotEnd<B>(c: Config, own: B, perturb: (B, nat) -> B, failure: Status, n: nat)
    requires Recoverable(c, failure)
    ensures var s := Run(c, own, perturb, Alternating(failure, n));
            s.status == RUNNING && s.tilted == 2 == |s.copies| && s.restored == n
  {
    hide Run, Alternating;
    AlternatingIs(failure, n);
    if n == 0 {
      RunSnoc(c, own, perturb, [], failure);
      RunSnoc(c, own, perturb, [failure], failure);
      assert [] + [failure] == [failure] && [failure] + [failure] == [failure, failure];
    } else {
      NeedNotEnd(c, own, perturb, failure, n - 1);
      var before := Alternating(failure, n - 1);
      RunSnoc(c, own, perturb, before, OPTIMAL);
      RunSnoc(c, own, perturb, before + [OPTIMAL], failure);
      assert before + [OPTIMAL] + [failure] == before + [OPTIMAL, failure];
    }
  }

  lemma AlternatingIs(failure: Status, n: nat)
    ensures Alternating(failure, n) == if n == 0 then [failure, failure]
              else Alternating(failure, n - 1) + [OPTIMAL, failure]
  {
  }

  /** No run of the simplex method more than n times. */
  ghost predicate EndsWithin<B(!new)>(c: Config, own: B, perturb: (B, nat) -> B, n: nat) {
    forall trace :: RUNNING !in trace && |trace| > n ==> Run(c, own, perturb, trace).status != RUNNING
  }

  /** Exactly when the loop is bounded: when the configuration recovers from no failure.  Then
      the simplex method runs once. */
  lemma BoundedIff<B(!new)>(c: Config, own: B, perturb: (B, nat) -> B)
    ensures (exists n: nat :: EndsWithin(c, own, perturb, n)) <==> (forall failure :: !Recoverable(c, failure))
    ensures (forall failure :: !Recoverable(c, failure)) ==> EndsWithin(c, own, perturb, 0)
  {
    if failure :| Recoverable(c, failure) {
      forall n: nat
        ensures !EndsWithin(c, own, perturb, n)
      {
        NeedNotEnd(c, own, perturb, failure, n);
        assert RUNNING !in Alternating(failure, n);
      }
    } else {
      forall trace | RUNNING !in trace && |trace| > 0
        ensures Run(c, own, perturb, trace).status != RUNNING
      {
        RunSnoc(c, own, perturb, [], trace[0]);
        assert [] + [trace[0]] == trace[..1];
        RunEnded(c, own, perturb, trace, 1);
      }
      assert EndsWithin(c, own, perturb, 0);
    }
  }

  /** Private copies can be left behind: a failure that is relaxed, then an outcome that is
      neither optimal nor recoverable. */
  lemma CopyLeft<B>(c: Config, own: B, perturb: (B, nat) -> B, failure: Status, outcome: Status)
    requires Recoverable(c, failure) && outcome != OPTIMAL && outcome != RUNNING && !Recoverable(c, outcome)
    ensures var s := Run(c, own, perturb, [failure, outcome]); s.status == outcome && s.copies == [perturb(own, 0)]
  {
    RunSnoc(c, own, perturb, [], failure);
    RunSnoc(c, own, perturb, [failure], outcome);
    assert [] + [failure] == [failure] && [failure] + [outcome] == [failure, outcome];
  }

  /** Whether a configuration can leave copies behind at all: exactly when it recovers from
      some failure, since it never recovers from an unbounded model. */
  lemma CopiesCanBeLeftIff<B(!new)>(c: Config, own: B, perturb: (B, nat) -> B)
    ensures (exists trace :: RUNNING !in trace && LeavesCopies(c, own, perturb, trace))
       <==> (exists failure :: Recoverable(c, failure))
  {
    if failure :| Recoverable(c, failure) {
      CopyLeft(c, own, perturb, failure, UNBOUNDED);
      assert RUNNING !in [failure, UNBOUNDED] && LeavesCopies(c, own, perturb, [failure, UNBOUNDED]);
    } else {
      forall trace | RUNNING !in trace
        ensures Run(c, own, perturb, trace).copies == []
      {
        NoCopies(c, own, perturb, trace);
      }
    }
  }

  ghost predicate LeavesCopies<B>(c: Config, own: B, perturb: (B, nat) -> B, trace: seq<Status>) {
    var s := Run(c, own, perturb, trace); s.status != RUNNING && s.copies != []
  }

  lemma {:induction false} NoCopies<B>(c: Config, own: B, perturb: (B, nat) -> B, trace: seq<Status>)
    requires forall failure :: !Recoverable(c, failure)
    ensures Run(c, own, perturb, trace).copies == []
  {
    if trace != [] {
      NoCopies(c, own, perturb, trace[..|trace| - 1]);
    }
  }

  // ----- which failures are tried again, and how often -----

  /** A failure followed by two optima ends well exactly when the mode lists that failure,
      at the root or where branch and bound is included; otherwise the loop reports it. */
  lemma RetriedIff<B>(c: Config, own: B, perturb: (B, nat) -> B, failure: Status)
    requires failure != OPTIMAL && failure != RUNNING
    ensures Run(c, own, perturb, [failure, OPTIMAL, OPTIMAL]).status ==
              if (c.level <= 1 || c.duringBB)
                 && (|| (failure == LOSTFEAS && c.lostfeas) || (failure == INFEASIBLE && c.infeasible)
                     || (failure == NUMFAILURE && c.numfailure) || (failure == DEGENERATE && c.stalling))
              then OPTIMAL else failure
  {
    RunSnoc(c, own, perturb, [], failure);
    RunSnoc(c, own, perturb, [failure], OPTIMAL);
    RunSnoc(c, own, perturb, [failure, OPTIMAL], OPTIMAL);
    assert [] + [failure] == [failure] && [failure] + [OPTIMAL] == [failure, OPTIMAL];
    assert [failure, OPTIMAL] + [OPTIMAL] == [failure, OPTIMAL, OPTIMAL];
  }

  /** The bounds after n relaxations in a row, each a perturbation of the last ones. */
  function Relaxed<B>(own: B, perturb: (B, nat) -> B, n: nat): B {
    if n == 0 then own else perturb(Relaxed(own, perturb, n - 1), n - 1)
  }

  function Failures(failure: Status, n: nat): (trace: seq<Status>)
    ensures |trace| == n
  {
    if n == 0 then [] else Failures(failure, n - 1) + [failure]
  }

  /** Of failures in a row exactly eight are relaxed, each on top of the one before; the
      ninth ends the loop and frees the copies. */
  lemma {:induction false} FailuresInARow<B>(c: Config, own: B, perturb: (B, nat) -> B, failure: Status, n: nat)
    requires Recoverable(c, failure) && n <= 9
    ensures var s := Run(c, own, perturb, Failures(failure, n));
            && (s.status == RUNNING <==> n <= 8)
            && (n <= 8 ==> |s.copies| == s.tilted == s.perturbed == n && s.imposed == Relaxed(own, perturb, n)
                           && forall k :: 0 <= k < n ==> s.copies[k] == Relaxed(own, perturb, k + 1))
            && (n == 9 ==> s.status == failure && s.copies == [] && s.last == Relaxed(own, perturb, 8))
  {
    hide Run, Failures, Relaxed;
    RunSnoc(c, own, perturb, [], failure);
    FailuresIs(own, perturb, failure, n);
    if n > 0 {
      FailuresInARow(c, own, perturb, failure, n - 1);
      RunSnoc(c, own, perturb, Failures(failure, n - 1), failure);
    }
  }

  lemma FailuresIs<B>(own: B, perturb: (B, nat) -> B, failure: Status, n: nat)
    ensures Failures(failure, n) == if n == 0 then [] else Failures(failure, n - 1) + [failure]
    ensures Relaxed(own, perturb, n) == if n == 0 then own else perturb(Relaxed(own, perturb, n - 1), n - 1)
  {
  }

  lemma CyclesIs(failure: Status, n: nat)
    ensures Cycles(failure, n) == if n == 0 then [] else Cycles(failure, n - 1) + [failure] + [OPTIMAL]
  {
  }

  function Cycles(failure: Status, n: nat): (trace: seq<Status>) {
    if n == 0 then [] else Cycles(failure, n - 1) + [failure] + [OPTIMAL]
  }

  /** A failure and an optimum in turn: every optimum takes the bounds of the node back, and
      the ninth failure from there is not relaxed any more. */
  lemma {:induction false} CyclesInARow<B>(c: Config, own: B, perturb: (B, nat) -> B, failure: Status, n: nat)
    requires Recoverable(c, failure) && n <= 8
    ensures var s := Run(c, own, perturb, Cycles(failure, n));
            s.status == RUNNING && s.tilted == 0 && s.restored == n && s.copies == [] && s.imposed == own
    ensures Run(c, own, perturb, Cycles(failure, n) + [failure]).status == if n <= 7 then RUNNING else failure
  {
    hide Run, Cycles;
    RunSnoc(c, own, perturb, [], failure);
    CyclesIs(failure, n);
    if n > 0 {
      CyclesInARow(c, own, perturb, failure, n - 1);
      RunSnoc(c, own, perturb, Cycles(failure, n - 1), failure);
      RunSnoc(c, own, perturb, Cycles(failure, n - 1) + [failure], OPTIMAL);
    }
    RunSnoc(c, own, perturb, Cycles(failure, n), failure);
  }

  lemma RunSnoc<B>(c: Config, own: B, perturb: (B, nat) -> B, trace: seq<Status>, outcome: Status)
    ensures Run(c, own, perturb, []) == Start(own)
    ensures var s := Run(c, own, perturb, trace);
            Run(c, own, perturb, trace + [outcome]) == if s.status == RUNNING then Step(c, own, perturb, s, outcome)
              else s
  {
    assert (trace + [outcome])[..|trace|] == trace;
  }
}

/**
 * The processor chain as a value: one StageView per stage, head first.
 * Submit, Step and Shutdown here are what the stage methods do to the whole chain;
 * Ordered is the chain-order invariant they keep.
 */
module ChainModel {
  import opened Requests

  /**
   * Where a stage's worker is in its loop: about to read the flag at the loop head, past that
   * check and waiting in take (which never reads the flag), or out of the loop for good.
   */
  datatype Phase = AtCheck | InTake | Exited

  /** What one stage holds: pending requests, requests it has logged, its shutdown flag, and its worker's phase. */
  datatype StageView = StageView(inbox: seq<Request>, log: seq<Request>, finished: bool, phase: Phase)

  type Chain = seq<StageView>

  /** A request submitted to the head lands at the tail of the head's inbox; nothing else changes. */
  function Submit(c: Chain, r: Request): (c': Chain)
    requires |c| > 0
    ensures |c'| == |c|
    ensures c'[0].inbox == c[0].inbox + [r]
    ensures c'[0].log == c[0].log && c'[0].finished == c[0].finished && c'[0].phase == c[0].phase
    ensures forall j :: 0 < j < |c| ==> c'[j] == c[j]
  {
    c[0 := c[0].(inbox := c[0].inbox + [r])]
  }

  /** Stage k's worker is at its loop head, about to read the flag. */
  predicate CanCheck(c: Chain, k: nat)
  {
    k < |c| && c[k].phase == AtCheck
  }

  /** The loop-head test of stage k: a set flag ends the loop, a clear one leads into take. */
  function CheckFlag(c: Chain, k: nat): (c': Chain)
    requires CanCheck(c, k)
    ensures |c'| == |c|
    ensures c'[k].phase == Exited <==> c[k].finished
    ensures c'[k].phase == InTake <==> !c[k].finished
    ensures c'[k].inbox == c[k].inbox && c'[k].log == c[k].log && c'[k].finished == c[k].finished
    ensures forall j :: 0 <= j < |c| && j != k ==> c'[j] == c[j]
  {
    c[k := c[k].(phase := if c[k].finished then Exited else InTake)]
  }

  /**
   * Stage k's worker can take a request: it is past the flag check and its inbox is non-empty.
   * The flag plays no part here: a worker already in take completes it after a shutdown.
   */
  predicate Enabled(c: Chain, k: nat)
  {
    k < |c| && c[k].phase == InTake && c[k].inbox != []
  }

  /**
   * The rest of one iteration of stage k's loop: take the head of its inbox, log it, and hand
   * the same request to the next stage, if there is one; the worker is back at its loop head.
   */
  function Step(c: Chain, k: nat): (c': Chain)
    requires Enabled(c, k)
    ensures |c'| == |c|
    ensures c'[k].inbox == c[k].inbox[1..]
    ensures c'[k].log == c[k].log + [c[k].inbox[0]]
    ensures c'[k].log + c'[k].inbox == c[k].log + c[k].inbox
    ensures k + 1 < |c| ==> c'[k + 1].inbox == c[k + 1].inbox + [c[k].inbox[0]]
    ensures k + 1 < |c| ==> c'[k + 1].log == c[k + 1].log
    ensures c'[k].phase == AtCheck
    ensures k + 1 < |c| ==> c'[k + 1].phase == c[k + 1].phase
    ensures forall j :: 0 <= j < |c| ==> c'[j].finished == c[j].finished
    ensures forall j :: 0 <= j < |c| && j != k && j != k + 1 ==> c'[j] == c[j]
  {
    var r := c[k].inbox[0];
    var c1 := c[k := StageView(c[k].inbox[1..], c[k].log + [r], c[k].finished, AtCheck)];
    assert c1[k].log + c1[k].inbox == c[k].log + c[k].inbox by {
      assert c[k].inbox == [r] + c[k].inbox[1..];
    }
    if k + 1 < |c| then c1[k + 1 := c1[k + 1].(inbox := c1[k + 1].inbox + [r])] else c1
  }

  /**
   * Shutdown called on stage k: the flag of k and of every stage after it is set; no inbox or
   * log moves, and no worker is woken from take.
   */
  function Shutdown(c: Chain, k: nat): (c': Chain)
    requires k < |c|
    ensures |c'| == |c|
    ensures forall j :: k <= j < |c| ==> c'[j].finished
    ensures forall j :: 0 <= j < k ==> c'[j] == c[j]
    ensures forall j :: 0 <= j < |c| ==> c'[j].inbox == c[j].inbox && c'[j].log == c[j].log
    ensures forall j :: 0 <= j < |c| ==> c'[j].phase == c[j].phase
    decreases |c| - k
  {
    var c1 := c[k := c[k].(finished := true)];
    if k + 1 < |c| then Shutdown(c1, k + 1) else c1
  }

  /**
   * Chain order: the head's log followed by its inbox is everything submitted, and every
   * later stage's log followed by its inbox is its predecessor's log.
   */
  ghost predicate Ordered(c: Chain, submitted: seq<Request>)
  {
    |c| > 0 &&
    c[0].log + c[0].inbox == submitted &&
    forall j :: 0 < j < |c| ==> c[j].log + c[j].inbox == c[j - 1].log
  }

  lemma SubmitPreservesOrder(c: Chain, submitted: seq<Request>, r: Request)
    requires Ordered(c, submitted)
    ensures Ordered(Submit(c, r), submitted + [r])
  {
    var c' := Submit(c, r);
    assert c'[0].log + c'[0].inbox == (c[0].log + c[0].inbox) + [r];
    assert forall j :: 0 < j < |c| ==> c'[j].log + c'[j].inbox == c'[j - 1].log by {
      forall j | 0 < j < |c| ensures c'[j].log + c'[j].inbox == c'[j - 1].log {
        assert c'[j - 1].log == c[j - 1].log;
      }
    }
  }

  lemma StepPreservesOrder(c: Chain, submitted: seq<Request>, k: nat)
    requires Ordered(c, submitted) && Enabled(c, k)
    ensures Ordered(Step(c, k), submitted)
  {
    var c' := Step(c, k);
    forall j | 0 < j < |c| ensures c'[j].log + c'[j].inbox == c'[j - 1].log {
      if j == k + 1 {
        calc {
          c'[j].log + c'[j].inbox;
          c[j].log + (c[j].inbox + [c[k].inbox[0]]);
          (c[j].log + c[j].inbox) + [c[k].inbox[0]];
          c[k].log + [c[k].inbox[0]];
        }
      } else if j == k {
        assert c'[j].log + c'[j].inbox == c[j].log + c[j].inbox;
        assert c'[j - 1] == c[j - 1];
      } else {
        assert c'[j] == c[j] && c'[j - 1].log == c[j - 1].log;
      }
    }
    if k != 0 {
      assert c'[0] == c[0];
    }
  }

  lemma ShutdownPreservesOrder(c: Chain, submitted: seq<Request>, k: nat)
    requires Ordered(c, submitted) && k < |c|
    ensures Ordered(Shutdown(c, k), submitted)
  {
    var c' := Shutdown(c, k);
    assert c'[0].log == c[0].log && c'[0].inbox == c[0].inbox;
    forall j | 0 < j < |c| ensures c'[j].log + c'[j].inbox == c'[j - 1].log {
      assert c'[j].log == c[j].log && c'[j].inbox == c[j].inbox && c'[j - 1].log == c[j - 1].log;
    }
  }

  lemma CheckPreservesOrder(c: Chain, submitted: seq<Request>, k: nat)
    requires Ordered(c, submitted) && CanCheck(c, k)
    ensures Ordered(CheckFlag(c, k), submitted)
  {
    var c' := CheckFlag(c, k);
    forall j | 0 <= j < |c| ensures c'[j].log == c[j].log && c'[j].inbox == c[j].inbox {
      if j != k {
        assert c'[j] == c[j];
      }
    }
  }

  /** After shutdown at k, a worker at or after k that reaches its loop head leaves the loop. */
  lemma ShutdownEndsLoops(c: Chain, k: nat, j: nat)
    requires k <= j < |c| && CanCheck(Shutdown(c, k), j)
    ensures CheckFlag(Shutdown(c, k), j)[j].phase == Exited
    ensures !CanCheck(CheckFlag(Shutdown(c, k), j), j) && !Enabled(CheckFlag(Shutdown(c, k), j), j)
  {
  }

  /** The flag write of shutdown at one stage alone. */
  function SetFlag(c: Chain, i: nat): (c': Chain)
    requires i < |c|
    ensures |c'| == |c| && c'[i].finished
    ensures c'[i].inbox == c[i].inbox && c'[i].log == c[i].log && c'[i].phase == c[i].phase
    ensures forall j :: 0 <= j < |c| && j != i ==> c'[j] == c[j]
  {
    c[i := c[i].(finished := true)]
  }

  /**
   * Takes by neighbouring workers commute: stage k's take removes from the head of its inbox
   * while stage k + 1's take appends at the tail of k + 1's, and each stays possible after the other.
   */
  lemma StepsCommute(c: Chain, k: nat)
    requires Enabled(c, k) && Enabled(c, k + 1)
    ensures Enabled(Step(c, k), k + 1) && Enabled(Step(c, k + 1), k)
    ensures Step(Step(c, k), k + 1) == Step(Step(c, k + 1), k)
  {
    var a := Step(Step(c, k), k + 1);
    var b := Step(Step(c, k + 1), k);
    assert c[k + 1].inbox == [c[k + 1].inbox[0]] + c[k + 1].inbox[1..];
    assert (c[k + 1].inbox + [c[k].inbox[0]])[1..] == c[k + 1].inbox[1..] + [c[k].inbox[0]];
    assert a[k + 1] == b[k + 1];
    forall j | 0 <= j < |c| ensures a[j] == b[j] {
    }
  }

  /** A submission at the head commutes with a take by any worker. */
  lemma SubmitStepCommute(c: Chain, r: Request, k: nat)
    requires Enabled(c, k)
    ensures Enabled(Submit(c, r), k)
    ensures Step(Submit(c, r), k) == Submit(Step(c, k), r)
  {
    var a := Step(Submit(c, r), k);
    var b := Submit(Step(c, k), r);
    if k == 0 {
      assert (c[0].inbox + [r])[1..] == c[0].inbox[1..] + [r];
    }
    forall j | 0 <= j < |c| ensures a[j] == b[j] {
    }
  }

  /** Setting stage i's flag commutes with a take by any worker. */
  lemma SetFlagStepCommute(c: Chain, i: nat, k: nat)
    requires i < |c| && Enabled(c, k)
    ensures Enabled(SetFlag(c, i), k)
    ensures Step(SetFlag(c, i), k) == SetFlag(Step(c, k), i)
  {
    var a := Step(SetFlag(c, i), k);
    var b := SetFlag(Step(c, k), i);
    forall j | 0 <= j < |c| ensures a[j] == b[j] {
    }
  }

  /** Setting stage i's flag commutes with the flag test of every other stage. */
  lemma SetFlagCheckCommute(c: Chain, i: nat, k: nat)
    requires i < |c| && k != i && CanCheck(c, k)
    ensures CanCheck(SetFlag(c, i), k)
    ensures CheckFlag(SetFlag(c, i), k) == SetFlag(CheckFlag(c, k), i)
  {
    var a := CheckFlag(SetFlag(c, i), k);
    var b := SetFlag(CheckFlag(c, k), i);
    forall j | 0 <= j < |c| ensures a[j] == b[j] {
    }
  }

  /**
   * Every stage's log is a prefix of its predecessor's, and the head's of what was submitted:
   * a request logged by some stage was logged by every earlier stage, in submission order.
   */
  lemma {:induction false} LogsArePrefixes(c: Chain, submitted: seq<Request>, i: nat, j: nat)
    requires Ordered(c, submitted) && i <= j < |c|
    ensures c[j].log <= c[i].log
    ensures c[j].log <= submitted
    decreases j
  {
    if j == 0 {
      assert submitted == c[0].log + c[0].inbox;
    } else {
      assert c[j].log <= c[j - 1].log by {
        assert c[j - 1].log == c[j].log + c[j].inbox;
      }
      LogsArePrefixes(c, submitted, if i == j then j - 1 else i, j - 1);
    }
  }

  /** When every inbox is empty, every stage has logged exactly what was submitted. */
  lemma {:induction false} QuiescentLogsEqualSubmitted(c: Chain, submitted: seq<Request>, j: nat)
    requires Ordered(c, submitted) && j < |c|
    requires forall i :: 0 <= i < |c| ==> c[i].inbox == []
    ensures c[j].log == submitted
    decreases j
  {
    if j == 0 {
      assert c[0].log + c[0].inbox == c[0].log;
    } else {
      QuiescentLogsEqualSubmitted(c, submitted, j - 1);
      assert c[j].log + c[j].inbox == c[j].log;
    }
  }

  /** An interleaving of the operations a caller and the workers can perform. */
  datatype Event = Put(r: Request) | Check(k: nat) | Take(k: nat) | Stop

  /**
   * A worker event that cannot happen now is a no-op: a worker in take with an empty inbox
   * stays blocked, and one not at its loop head does not read the flag.
   */
  function Apply(c: Chain, e: Event): (c': Chain)
    requires |c| > 0
    ensures |c'| == |c|
  {
    match e
    case Put(r) => Submit(c, r)
    case Check(k) => if CanCheck(c, k) then CheckFlag(c, k) else c
    case Take(k) => if Enabled(c, k) then Step(c, k) else c
    case Stop => Shutdown(c, 0)
  }

  function Run(c: Chain, es: seq<Event>): (c': Chain)
    requires |c| > 0
    ensures |c'| == |c|
    decreases |es|
  {
    if es == [] then c else Run(Apply(c, es[0]), es[1..])
  }

  /** The request an event submits, if any. */
  function PutOf(e: Event): seq<Request>
  {
    if e.Put? then [e.r] else []
  }

  /** The requests a trace submits, in order. */
  function Puts(es: seq<Event>): (rs: seq<Request>)
    ensures |rs| <= |es|
  {
    if es == [] then [] else PutOf(es[0]) + Puts(es[1..])
  }

  /** How many more requests a finished stage's worker can still take: one if it is already in take. */
  function Pending(s: StageView): (n: nat)
    ensures n <= 1
  {
    if s.phase == InTake then 1 else 0
  }

  lemma ApplyPreservesOrder(c: Chain, submitted: seq<Request>, e: Event)
    requires Ordered(c, submitted)
    ensures Ordered(Apply(c, e), submitted + PutOf(e))
  {
    match e {
      case Put(r) => SubmitPreservesOrder(c, submitted, r);
      case Check(k) =>
        if CanCheck(c, k) { CheckPreservesOrder(c, submitted, k); }
        assert submitted + PutOf(e) == submitted;
      case Take(k) =>
        if Enabled(c, k) { StepPreservesOrder(c, submitted, k); }
        assert submitted + PutOf(e) == submitted;
      case Stop =>
        ShutdownPreservesOrder(c, submitted, 0);
        assert submitted + PutOf(e) == submitted;
    }
  }

  /**
   * When every stage is finished, one event keeps every flag set, only extends logs, and
   * never adds to what a stage's log plus its pending take can reach.
   */
  lemma ApplyAfterShutdown(c: Chain, e: Event)
    requires |c| > 0
    requires forall j :: 0 <= j < |c| ==> c[j].finished
    ensures forall j :: 0 <= j < |c| ==> Apply(c, e)[j].finished
    ensures forall j :: 0 <= j < |c| ==> c[j].log <= Apply(c, e)[j].log
    ensures forall j :: 0 <= j < |c| ==>
      |Apply(c, e)[j].log| + Pending(Apply(c, e)[j]) <= |c[j].log| + Pending(c[j])
  {
    var c' := Apply(c, e);
    forall j | 0 <= j < |c|
      ensures c'[j].finished && c[j].log <= c'[j].log
      ensures |c'[j].log| + Pending(c'[j]) <= |c[j].log| + Pending(c[j])
    {
      match e {
        case Put(r) =>
        case Check(k) =>
        case Take(k) =>
          if Enabled(c, k) && j == k {
            assert c'[k].log == c[k].log + [c[k].inbox[0]];
          }
        case Stop =>
      }
    }
  }

  lemma {:induction false} RunPreservesOrder(c: Chain, submitted: seq<Request>, es: seq<Event>)
    requires Ordered(c, submitted)
    ensures Ordered(Run(c, es), submitted + Puts(es))
    decreases |es|
  {
    if es == [] {
      assert submitted + Puts(es) == submitted;
    } else {
      var c1 := Apply(c, es[0]);
      ApplyPreservesOrder(c, submitted, es[0]);
      RunPreservesOrder(c1, submitted + PutOf(es[0]), es[1..]);
      assert Run(c, es) == Run(c1, es[1..]);
      assert Puts(es) == PutOf(es[0]) + Puts(es[1..]);
      assert submitted + PutOf(es[0]) + Puts(es[1..]) == submitted + Puts(es);
    }
  }

  /** A set flag stays set through any interleaving. */
  lemma {:induction false} RunKeepsFinished(c: Chain, es: seq<Event>, j: nat)
    requires |c| > 0 && j < |c| && c[j].finished
    ensures Run(c, es)[j].finished
    decreases |es|
  {
    if es != [] {
      RunKeepsFinished(Apply(c, es[0]), es[1..], j);
    }
  }

  lemma {:induction false} RunAfterShutdownAt(c: Chain, es: seq<Event>, j: nat)
    requires |c| > 0 && j < |c|
    requires forall i :: 0 <= i < |c| ==> c[i].finished
    ensures forall i :: 0 <= i < |c| ==> Run(c, es)[i].finished
    ensures c[j].log <= Run(c, es)[j].log
    ensures |Run(c, es)[j].log| + Pending(Run(c, es)[j]) <= |c[j].log| + Pending(c[j])
    decreases |es|
  {
    if es != [] {
      var c1 := Apply(c, es[0]);
      ApplyAfterShutdown(c, es[0]);
      RunAfterShutdownAt(c1, es[1..], j);
      assert Run(c, es) == Run(c1, es[1..]);
      assert c1[j].log <= Run(c, es)[j].log;
    }
  }

  /**
   * Once every stage is finished each worker takes at most one more request, and only if it
   * was already in take: a log grows by at most one entry, and not at all for a worker at its
   * loop head or out of its loop.
   */
  lemma RunAfterShutdown(c: Chain, es: seq<Event>)
    requires |c| > 0
    requires forall j :: 0 <= j < |c| ==> c[j].finished
    ensures forall j :: 0 <= j < |c| ==> Run(c, es)[j].finished
    ensures forall j :: 0 <= j < |c| ==> c[j].log <= Run(c, es)[j].log
    ensures forall j :: 0 <= j < |c| ==> |Run(c, es)[j].log| <= |c[j].log| + Pending(c[j])
    ensures forall j :: 0 <= j < |c| && c[j].phase != InTake ==> Run(c, es)[j].log == c[j].log
  {
    forall j | 0 <= j < |c|
      ensures Run(c, es)[j].finished && c[j].log <= Run(c, es)[j].log
      ensures |Run(c, es)[j].log| <= |c[j].log| + Pending(c[j])
    {
      RunAfterShutdownAt(c, es, j);
    }
  }

  /**
   * A chain shut down before anything was logged, holding the one request r: whatever the
   * workers do afterwards, each stage logs nothing or just r, a stage logs it only if its worker
   * was in take at the start, and only after every earlier stage has logged it.
   */
  lemma OneRequestAfterShutdown(c: Chain, r: Request, es: seq<Event>)
    requires Ordered(c, [r]) && Puts(es) == []
    requires forall j :: 0 <= j < |c| ==> c[j].finished && c[j].log == []
    ensures forall j :: 0 <= j < |c| ==> Run(c, es)[j].log == [] || Run(c, es)[j].log == [r]
    ensures forall j :: 0 <= j < |c| && Run(c, es)[j].log != [] ==> c[j].phase == InTake
    ensures forall i, j :: 0 <= i <= j < |c| && Run(c, es)[j].log != [] ==> Run(c, es)[i].log == [r]
  {
    var c' := Run(c, es);
    RunPreservesOrder(c, [r], es);
    assert [r] + Puts(es) == [r];
    RunAfterShutdown(c, es);
    forall j | 0 <= j < |c| ensures c'[j].log == [] || c'[j].log == [r] {
      LogsArePrefixes(c', [r], j, j);
    }
    forall i, j | 0 <= i <= j < |c| && c'[j].log != [] ensures c'[i].log == [r] {
      LogsArePrefixes(c', [r], i, j);
    }
  }

  /** No stage's worker has left its loop. */
  predicate Running(c: Chain)
  {
    forall j :: 0 <= j < |c| ==> !c[j].finished && c[j].phase != Exited
  }

  /**
   * While no stage is finished, the workers from stage k on can be scheduled so that all
   * the inboxes empty; the schedule only has worker events.
   */
  lemma {:induction false} DrainFrom(c: Chain, submitted: seq<Request>, k: nat) returns (es: seq<Event>)
    requires Ordered(c, submitted) && k <= |c| && Running(c)
    requires forall j :: 0 <= j < k ==> c[j].inbox == []
    ensures forall i :: 0 <= i < |es| ==> es[i].Check? || es[i].Take?
    ensures forall j :: 0 <= j < |c| ==> Run(c, es)[j].inbox == []
    decreases |c| - k, if k < |c| then |c[k].inbox| else 0, if k < |c| && c[k].phase == AtCheck then 1 else 0
  {
    if k == |c| {
      es := [];
    } else if c[k].inbox == [] {
      es := DrainFrom(c, submitted, k + 1);
    } else if c[k].phase == AtCheck {
      var c1 := CheckFlag(c, k);
      CheckPreservesOrder(c, submitted, k);
      var rest := DrainFrom(c1, submitted, k);
      es := [Check(k)] + rest;
      assert es[0] == Check(k) && es[1..] == rest;
      assert Apply(c, es[0]) == c1;
    } else {
      var c1 := Step(c, k);
      StepPreservesOrder(c, submitted, k);
      var rest := DrainFrom(c1, submitted, k);
      es := [Take(k)] + rest;
      assert es[0] == Take(k) && es[1..] == rest;
      assert Apply(c, es[0]) == c1;
    }
  }

  /**
   * Forwarding completeness: with no stage shut down there is a schedule of worker events
   * after which every stage has logged every submitted request, in submission order.
   */
  lemma EventuallyAllLogged(c: Chain, submitted: seq<Request>) returns (es: seq<Event>)
    requires Ordered(c, submitted) && Running(c)
    ensures Puts(es) == []
    ensures forall j :: 0 <= j < |c| ==> Run(c, es)[j].log == submitted
  {
    es := DrainFrom(c, submitted, 0);
    NoPuts(es);
    RunPreservesOrder(c, submitted, es);
    assert submitted + Puts(es) == submitted;
    forall j | 0 <= j < |c| ensures Run(c, es)[j].log == submitted {
      QuiescentLogsEqualSubmitted(Run(c, es), submitted, j);
    }
  }

  lemma {:induction false} NoPuts(es: seq<Event>)
    requires forall i :: 0 <= i < |es| ==> !es[i].Put?
    ensures Puts(es) == []
    decreases |es|
  {
    if es != [] {
      NoPuts(es[1..]);
    }
  }
}

/**
 * One stage of the processor chain. PrintProcessor and SaveProcessor (and PreProcessor, which
 * App builds the same way) share this shape: a FIFO inbox, an optional successor and a
 * shutdown flag. The worker thread's println is recorded in `log`, and where that thread is in
 * its loop in `phase`.
 */
module Processor {
  import opened Requests
  import ChainModel

  class Stage {
    /** Requests waiting for this stage's worker, oldest first. */
    var inbox: seq<Request>
    /** The successor; fixed once the stage is built. */
    const next: Stage?
    /** Set by Shutdown and never cleared. */
    var finished: bool
    /** What the worker has printed, one request per line, in order. */
    var log: seq<Request>
    /** Where the worker is in its loop: at the flag test, in take, or gone. */
    var phase: ChainModel.Phase
    /** This stage and every stage reachable through `next`. */
    ghost const Repr: set<Stage>

    /** The successor links form an acyclic path that ends at a stage without successor. */
    ghost predicate Valid()
      decreases Repr
    {
      this in Repr &&
      (next == null ==> Repr == {this}) &&
      (next != null ==> next in Repr && this !in next.Repr && Repr == {this} + next.Repr && next.Valid())
    }

    function View(): (v: ChainModel.StageView)
      reads this
      ensures v.inbox == inbox && v.log == log && v.finished == finished && v.phase == phase
    {
      ChainModel.StageView(inbox, log, finished, phase)
    }

    /** A stage built without successor: empty inbox, flag clear, worker not yet at its flag test. */
    constructor ()
      ensures Valid() && Repr == {this}
      ensures next == null && inbox == [] && log == [] && !finished && phase == ChainModel.AtCheck
    {
      inbox, log, finished, phase := [], [], false, ChainModel.AtCheck;
      next := null;
      Repr := {this};
    }

    /** A stage built in front of `n`. */
    constructor WithNext(n: Stage?)
      requires n != null ==> n.Valid()
      ensures Valid()
      ensures next == n && inbox == [] && log == [] && !finished && phase == ChainModel.AtCheck
      ensures Repr == if n == null then {this} else {this} + n.Repr
    {
      inbox, log, finished, phase := [], [], false, ChainModel.AtCheck;
      next := n;
      Repr := if n == null then {this} else {this} + n.Repr;
    }

    /** Submission appends at the tail of the inbox, whether or not the stage is finished. */
    method Submit(r: Request)
      modifies this
      ensures inbox == old(inbox) + [r]
      ensures log == old(log) && finished == old(finished) && phase == old(phase)
    {
      inbox := inbox + [r];
    }

    /** The loop-head test of the worker: a set flag ends the loop, a clear one leads into take. */
    method CheckFlag()
      requires phase == ChainModel.AtCheck
      modifies this
      ensures phase == if finished then ChainModel.Exited else ChainModel.InTake
      ensures inbox == old(inbox) && log == old(log) && finished == old(finished)
    {
      phase := if finished then ChainModel.Exited else ChainModel.InTake;
    }

    /**
     * The rest of one iteration of the worker loop, enabled once the worker is past the flag
     * test and a request is waiting, whatever the flag says by now: take the head of the inbox,
     * log it, and submit the same request to the successor, finished or not.
     */
    method Step()
      requires Valid()
      requires phase == ChainModel.InTake && inbox != []
      modifies this, next
      ensures inbox == old(inbox)[1..]
      ensures log == old(log) + [old(inbox)[0]]
      ensures log + inbox == old(log) + old(inbox)
      ensures finished == old(finished) && phase == ChainModel.AtCheck
      ensures next != null ==> next.inbox == old(next.inbox) + [old(inbox)[0]]
      ensures next != null ==> next.log == old(next.log) && next.finished == old(next.finished)
      ensures next != null ==> next.phase == old(next.phase)
    {
      var request := inbox[0];
      inbox := inbox[1..];
      log := log + [request];
      phase := ChainModel.AtCheck;
      assert log + inbox == old(log) + old(inbox) by {
        assert old(inbox) == [request] + inbox;
      }
      if next != null {
        next.Submit(request);
      }
    }

    /**
     * Sets the flag here and, recursively, on every later stage; no inbox or log changes, and a
     * worker waiting in take stays there.
     */
    method Shutdown()
      requires Valid()
      modifies Repr
      ensures forall s :: s in Repr ==> s.finished
      ensures forall s :: s in Repr ==> s.inbox == old(s.inbox) && s.log == old(s.log)
      ensures forall s :: s in Repr ==> s.phase == old(s.phase)
      decreases Repr
    {
      finished := true;
      if next != null {
        next.Shutdown();
      }
    }
  }
}

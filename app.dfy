/**
 * The application: a chain Pre -> Print -> Save assembled from the tail forward, whose head is
 * the entry point for requests and for shutdown.
 */
module Application {
  import opened Requests
  import opened Processor
  import ChainModel

  class App {
    const saveStage: Stage
    const printStage: Stage
    const preStage: Stage
    /** The entry point of the chain. */
    const requestProcessor: Stage
    /** Every request submitted to the entry point so far, in order. */
    ghost var submitted: seq<Request>

    /** The whole chain as a value, head first. */
    function View(): (c: ChainModel.Chain)
      reads preStage, printStage, saveStage
      ensures |c| == 3
    {
      [preStage.View(), printStage.View(), saveStage.View()]
    }

    /** The wiring is Pre -> Print -> Save -> none, and the chain order holds. */
    ghost predicate Valid()
      reads this, preStage, printStage, saveStage
    {
      requestProcessor == preStage &&
      preStage.next == printStage && printStage.next == saveStage && saveStage.next == null &&
      preStage.Valid() && preStage.Repr == {preStage, printStage, saveStage} &&
      preStage != printStage && printStage != saveStage && preStage != saveStage &&
      ChainModel.Ordered(View(), submitted)
    }

    /** Builds Save, then Print in front of it, then Pre in front of that; Pre is the entry point. */
    constructor ()
      ensures Valid() && fresh(preStage) && fresh(printStage) && fresh(saveStage)
      ensures requestProcessor == preStage && preStage.next == printStage && printStage.next == saveStage && saveStage.next == null
      ensures submitted == []
      ensures forall j :: 0 <= j < 3 ==> View()[j] == ChainModel.StageView([], [], false, ChainModel.AtCheck)
    {
      var s := new Stage();
      var p := new Stage.WithNext(s);
      var h := new Stage.WithNext(p);
      saveStage, printStage, preStage := s, p, h;
      requestProcessor := h;
      submitted := [];
    }

    /** A request handed to the entry point; nothing checks whether the chain was shut down. */
    method Process(r: Request)
      requires Valid()
      modifies this, preStage
      ensures Valid()
      ensures submitted == old(submitted) + [r]
      ensures View() == ChainModel.Submit(old(View()), r)
    {
      ChainModel.SubmitPreservesOrder(View(), submitted, r);
      requestProcessor.Submit(r);
      submitted := submitted + [r];
      assert View() == ChainModel.Submit(old(View()), r);
    }

    /** Shutdown initiated at the entry point reaches every stage. */
    method Shutdown()
      requires Valid()
      modifies preStage, printStage, saveStage
      ensures Valid()
      ensures View() == ChainModel.Shutdown(old(View()), 0)
      ensures preStage.finished && printStage.finished && saveStage.finished
    {
      ChainModel.ShutdownPreservesOrder(View(), submitted, 0);
      requestProcessor.Shutdown();
      assert View() == ChainModel.Shutdown(old(View()), 0);
    }

    /** The loop-head flag test of stage k's worker (0 is Pre, 1 Print, 2 Save). */
    method Check(k: nat)
      requires Valid() && ChainModel.CanCheck(View(), k)
      modifies preStage, printStage, saveStage
      ensures Valid()
      ensures View() == ChainModel.CheckFlag(old(View()), k)
    {
      ChainModel.CheckPreservesOrder(View(), submitted, k);
      if k == 0 {
        preStage.CheckFlag();
      } else if k == 1 {
        printStage.CheckFlag();
      } else {
        saveStage.CheckFlag();
      }
      assert View() == ChainModel.CheckFlag(old(View()), k);
    }

    /** The rest of one iteration of the worker loop of stage k, past its flag test. */
    method Work(k: nat)
      requires Valid() && ChainModel.Enabled(View(), k)
      modifies preStage, printStage, saveStage
      ensures Valid()
      ensures View() == ChainModel.Step(old(View()), k)
    {
      ChainModel.StepPreservesOrder(View(), submitted, k);
      assert printStage.Valid() && saveStage.Valid();
      if k == 0 {
        preStage.Step();
      } else if k == 1 {
        printStage.Step();
      } else {
        saveStage.Step();
      }
      assert View() == ChainModel.Step(old(View()), k);
    }
  }

  /** Where a worker is when main runs: already waiting in take, or not yet at its first flag test. */
  function PhaseAtMain(blocked: bool): ChainModel.Phase
  {
    if blocked then ChainModel.InTake else ChainModel.AtCheck
  }

  /** The workers left waiting in take before main runs have each passed their first flag test. */
  method StartWorkers(app: App, blocked: seq<bool>)
    requires |blocked| == 3 && app.Valid() && app.submitted == []
    requires forall j :: 0 <= j < 3 ==> app.View()[j] == ChainModel.StageView([], [], false, ChainModel.AtCheck)
    modifies app.preStage, app.printStage, app.saveStage
    ensures app.Valid() && app.submitted == []
    ensures forall j :: 0 <= j < 3 ==> app.View()[j] == ChainModel.StageView([], [], false, PhaseAtMain(blocked[j]))
  {
    if blocked[0] {
      app.Check(0);
    }
    if blocked[1] {
      app.Check(1);
    }
    if blocked[2] {
      app.Check(2);
    }
  }

  /**
   * The chain as main leaves it: every flag set, r waiting in Pre's inbox, nothing logged, and
   * worker k in take exactly when blocked[k].
   */
  function AfterMain(blocked: seq<bool>, r: Request): (c: ChainModel.Chain)
    requires |blocked| == 3
    ensures |c| == 3 && ChainModel.Ordered(c, [r])
    ensures forall j :: 0 <= j < 3 ==> c[j].finished
    ensures forall j :: 0 <= j < 3 ==> ChainModel.Pending(c[j]) == if blocked[j] then 1 else 0
  {
    var c := [ChainModel.StageView([r], [], true, PhaseAtMain(blocked[0])),
              ChainModel.StageView([], [], true, PhaseAtMain(blocked[1])),
              ChainModel.StageView([], [], true, PhaseAtMain(blocked[2]))];
    assert c[0].log + c[0].inbox == [r];
    c
  }

  /**
   * The program's main. The workers were started by the static initializer, so by the time main
   * runs each may already be past its first flag test and waiting in take; blocked[k] says which.
   * The chain is shut down and then given one request, which is accepted into Pre's inbox.
   */
  method ShutdownThenProcess(blocked: seq<bool>) returns (app: App)
    requires |blocked| == 3
    ensures app.Valid() && fresh(app.preStage) && fresh(app.printStage) && fresh(app.saveStage)
    ensures app.submitted == [Request("佳欢")]
    ensures app.View() == AfterMain(blocked, Request("佳欢"))
  {
    var request := NewRequest("佳欢");
    app := new App();
    StartWorkers(app, blocked);
    app.Shutdown();
    app.Process(request);
    assert app.View() == AfterMain(blocked, request);
  }

  /**
   * Whatever the workers do after main, with no further submission: each stage has logged
   * nothing or just r; a stage has logged it only if its worker was in take when main ran, and
   * then every earlier stage has logged it too.
   */
  lemma MainOutcome(blocked: seq<bool>, r: Request, es: seq<ChainModel.Event>)
    requires |blocked| == 3 && ChainModel.Puts(es) == []
    ensures forall j :: 0 <= j < 3 ==>
      ChainModel.Run(AfterMain(blocked, r), es)[j].log == [] || ChainModel.Run(AfterMain(blocked, r), es)[j].log == [r]
    ensures forall j :: 0 <= j < 3 && ChainModel.Run(AfterMain(blocked, r), es)[j].log != [] ==> blocked[j]
    ensures forall i, j :: 0 <= i <= j < 3 && ChainModel.Run(AfterMain(blocked, r), es)[j].log != [] ==>
      ChainModel.Run(AfterMain(blocked, r), es)[i].log == [r]
  {
    var c := AfterMain(blocked, r);
    ChainModel.OneRequestAfterShutdown(c, r, es);
    forall j | 0 <= j < 3 && ChainModel.Run(c, es)[j].log != [] ensures blocked[j] {
      assert ChainModel.Pending(c[j]) == 1;
    }
  }

  /**
   * Conversely, when the first m workers were in take when main ran, the schedule in which each
   * of them completes its take in chain order leaves r logged by exactly the first m stages.
   */
  lemma BlockedPrefixLogs(blocked: seq<bool>, r: Request, m: nat) returns (es: seq<ChainModel.Event>)
    requires |blocked| == 3 && m <= 3
    requires forall k :: 0 <= k < m ==> blocked[k]
    ensures ChainModel.Puts(es) == []
    ensures forall j :: 0 <= j < 3 ==> ChainModel.Run(AfterMain(blocked, r), es)[j].log == if j < m then [r] else []
  {
    var c0 := AfterMain(blocked, r);
    if m == 0 {
      es := [];
    } else {
      var c1 := ChainModel.Step(c0, 0);
      if m == 1 {
        es := [ChainModel.Take(0)];
        assert ChainModel.Run(c0, es) == ChainModel.Run(c1, []);
      } else {
        var c2 := ChainModel.Step(c1, 1);
        if m == 2 {
          es := [ChainModel.Take(0), ChainModel.Take(1)];
          assert es[1..] == [ChainModel.Take(1)];
          assert ChainModel.Run(c0, es) == ChainModel.Run(c1, [ChainModel.Take(1)]) == ChainModel.Run(c2, []);
        } else {
          var c3 := ChainModel.Step(c2, 2);
          es := [ChainModel.Take(0), ChainModel.Take(1), ChainModel.Take(2)];
          assert es[1..] == [ChainModel.Take(1), ChainModel.Take(2)];
          assert ChainModel.Run(c0, es) == ChainModel.Run(c1, es[1..]);
          assert ChainModel.Run(c1, es[1..]) == ChainModel.Run(c2, [ChainModel.Take(2)]) == ChainModel.Run(c3, []);
        }
      }
      ChainModel.NoPuts(es);
    }
  }
}

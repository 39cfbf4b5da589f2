/** The concurrent script validator (blockchain/scriptval.go) as a transition system: one goroutine
    runs Validate and the others run the validation handler; all channels are unbuffered, so sending
    and receiving happen in one step. */
module ScriptValidators {

  /** Where a worker is: in its select, checking an item, or in the select that sends its result. */
  datatype Worker = Idle | Working(item: nat) | Sending(item: nat) | Done

  /** Where Validate is: in its loop, past it with the quit channel still open, or returned. */
  datatype Main = Looping | Closing(ok: bool) | Returned(ok: bool)

  /** `received` are the items whose results Validate has received. */
  datatype State = State(
    main: Main,
    currentItem: nat,
    processedItems: nat,
    quit: bool,
    workers: seq<Worker>,
    ghost received: set<nat>)

  datatype Action = Give(w: nat) | Finish(w: nat) | Receive(w: nat) | Close | QuitIdle(w: nat) | QuitSending(w: nat)

  /** Validate has just started its workers; without items it starts none and returns at once. */
  ghost predicate Init(valid: seq<bool>, s: State) {
    && s.currentItem == 0 && s.processedItems == 0 && !s.quit && s.received == {}
    && (forall w :: 0 <= w < |s.workers| ==> s.workers[w] == Idle)
    && (if |valid| == 0 then s.main == Returned(true) && s.workers == []
       else s.main == Looping && 0 < |s.workers| <= |valid|)
  }

  /** A worker that has delivered a result goes on with the next item, unless the item was invalid. */
  function AfterResult(valid: seq<bool>, item: nat): Worker {
    if item < |valid| && valid[item] then Idle else Done
  }

  ghost predicate Enabled(valid: seq<bool>, s: State, a: Action) {
    match a
    case Give(w) => s.main == Looping && s.currentItem < |valid| && w < |s.workers| && s.workers[w] == Idle
    case Finish(w) => w < |s.workers| && s.workers[w].Working?
    case Receive(w) => s.main == Looping && w < |s.workers| && s.workers[w].Sending?
    case Close => s.main.Closing?
    case QuitIdle(w) => s.quit && w < |s.workers| && s.workers[w] == Idle
    case QuitSending(w) => s.quit && w < |s.workers| && s.workers[w].Sending?
  }

  ghost function Next(valid: seq<bool>, s: State, a: Action): State
    requires Enabled(valid, s, a)
  {
    match a
    case Give(w) => s.(currentItem := s.currentItem + 1, workers := s.workers[w := Working(s.currentItem)])
    case Finish(w) => s.(workers := s.workers[w := Sending(s.workers[w].item)])
    case Receive(w) =>
      var item := s.workers[w].item;
      s.(processedItems := s.processedItems + 1, received := s.received + {item},
         workers := s.workers[w := AfterResult(valid, item)],
         main := if AfterResult(valid, item) == Done then Closing(false)
                 else if s.processedItems + 1 < |valid| then Looping else Closing(true))
    case Close => s.(main := Returned(s.main.ok), quit := true)
    case QuitIdle(w) => s.(workers := s.workers[w := Done])
    case QuitSending(w) => s.(workers := s.workers[w := AfterResult(valid, s.workers[w].item)])
  }

  /** A run from the start: each state follows from the one before. */
  ghost predicate IsRun(valid: seq<bool>, run: seq<State>) {
    && run != [] && Init(valid, run[0])
    && forall i :: 0 <= i < |run| - 1 ==> exists a :: Enabled(valid, run[i], a) && run[i + 1] == Next(valid, run[i], a)
  }

  // The invariant.

  predicate Holds(w: Worker, item: nat) {
    (w.Working? || w.Sending?) && w.item == item
  }

  predicate Busy(w: Worker) {
    w.Working? || w.Sending?
  }

  function CountBusy(workers: seq<Worker>): nat {
    if workers == [] then 0
    else CountBusy(workers[..|workers| - 1]) + (if Busy(workers[|workers| - 1]) then 1 else 0)
  }

  lemma {:induction false} CountBusyUpdate(workers: seq<Worker>, w: nat, x: Worker)
    requires w < |workers|
    ensures CountBusy(workers[w := x]) ==
      CountBusy(workers) - (if Busy(workers[w]) then 1 else 0) + (if Busy(x) then 1 else 0)
  {
    var init := workers[..|workers| - 1];
    if w == |init| {
      assert workers[w := x][..|init|] == init;
    } else {
      CountBusyUpdate(init, w, x);
      assert workers[w := x][..|init|] == init[w := x];
    }
  }

  lemma {:induction false} BusyWorker(workers: seq<Worker>) returns (w: nat)
    requires CountBusy(workers) > 0
    ensures w < |workers| && Busy(workers[w])
  {
    if Busy(workers[|workers| - 1]) {
      w := |workers| - 1;
    } else {
      w := BusyWorker(workers[..|workers| - 1]);
    }
  }

  ghost predicate AllReceivedValid(valid: seq<bool>, s: State) {
    forall i :: i in s.received ==> i < |valid| && valid[i]
  }

  ghost predicate Inv(valid: seq<bool>, s: State) {
    // Every item that was handed out is with one worker or its result has been received.
    && s.currentItem <= |valid| && s.processedItems == |s.received|
    && (forall i :: i in s.received ==> i < s.currentItem)
    && (forall w :: 0 <= w < |s.workers| && Busy(s.workers[w]) ==>
          s.workers[w].item < s.currentItem && s.workers[w].item !in s.received)
    && (forall v, w :: 0 <= v < w < |s.workers| && Busy(s.workers[v]) && Busy(s.workers[w]) ==>
          s.workers[v].item != s.workers[w].item)
    // As long as Validate is in its loop nothing has failed, nobody has left and nothing is lost.
    && (s.main == Looping ==>
          && AllReceivedValid(valid, s) && s.processedItems < |valid| && !s.quit && |s.workers| > 0
          && s.currentItem == s.processedItems + CountBusy(s.workers)
          && forall w :: 0 <= w < |s.workers| ==> s.workers[w] != Done)
    && (s.main.Closing? ==> !s.quit)
    && (s.main.Returned? ==> s.quit || s.workers == [])
    // The result is right.
    && (!s.main.Looping? && s.main.ok ==> AllReceivedValid(valid, s) && s.processedItems == |valid|)
    && (!s.main.Looping? && !s.main.ok ==> !AllReceivedValid(valid, s))
  }

  lemma InitInv(valid: seq<bool>, s: State)
    requires Init(valid, s)
    ensures Inv(valid, s)
  {
    NoneBusy(s.workers);
  }

  lemma {:induction false} NoneBusy(workers: seq<Worker>)
    requires forall w :: 0 <= w < |workers| ==> workers[w] == Idle
    ensures CountBusy(workers) == 0
  {
    if workers != [] {
      NoneBusy(workers[..|workers| - 1]);
    }
  }

  lemma GiveInv(valid: seq<bool>, s: State, w: nat)
    requires Inv(valid, s) && Enabled(valid, s, Give(w))
    ensures Inv(valid, Next(valid, s, Give(w)))
  {
    hide CountBusy;
    CountBusyUpdate(s.workers, w, Working(s.currentItem));
  }

  lemma FinishInv(valid: seq<bool>, s: State, w: nat)
    requires Inv(valid, s) && Enabled(valid, s, Finish(w))
    ensures Inv(valid, Next(valid, s, Finish(w)))
  {
    hide CountBusy;
    CountBusyUpdate(s.workers, w, Sending(s.workers[w].item));
  }

  lemma ReceiveInv(valid: seq<bool>, s: State, w: nat)
    requires Inv(valid, s) && Enabled(valid, s, Receive(w))
    ensures Inv(valid, Next(valid, s, Receive(w)))
  {
    hide CountBusy;
    CountBusyUpdate(s.workers, w, AfterResult(valid, s.workers[w].item));
  }

  lemma QuitInv(valid: seq<bool>, s: State, a: Action)
    requires Inv(valid, s) && Enabled(valid, s, a) && (a.Close? || a.QuitIdle? || a.QuitSending?)
    ensures Inv(valid, Next(valid, s, a))
  {
    hide CountBusy;
  }

  lemma StepInv(valid: seq<bool>, s: State, a: Action)
    requires Inv(valid, s) && Enabled(valid, s, a)
    ensures Inv(valid, Next(valid, s, a))
  {
    hide Inv, Next, CountBusy;
    match a {
      case Give(w) => GiveInv(valid, s, w);
      case Finish(w) => FinishInv(valid, s, w);
      case Receive(w) => ReceiveInv(valid, s, w);
      case Close => QuitInv(valid, s, a);
      case QuitIdle(w) => QuitInv(valid, s, a);
      case QuitSending(w) => QuitInv(valid, s, a);
    }
  }

  /** In every interleaving the invariant holds throughout. */
  lemma {:induction false} RunInv(valid: seq<bool>, run: seq<State>, i: nat)
    requires IsRun(valid, run) && i < |run|
    ensures Inv(valid, run[i])
  {
    hide Inv, IsRun, Enabled, Next, Init;
    RunStarts(valid, run);
    if i == 0 {
      InitInv(valid, run[0]);
    } else {
      RunInv(valid, run, i - 1);
      var a := StepTaken(valid, run, i - 1);
      StepInv(valid, run[i - 1], a);
    }
  }

  lemma {:induction false} SmallSet(s: set<nat>, n: nat)
    requires forall i :: i in s ==> i < n
    ensures |s| <= n && (|s| == n ==> forall i: nat :: i < n ==> i in s)
  {
    if n > 0 {
      SmallSet(s - {n - 1}, n - 1);
    } else {
      assert s == {};
    }
  }

  /** Validate returns nil exactly when all items are valid, all of them processed; it returns an error
      only when the result of an invalid item was received. */
  lemma ResultIsRight(valid: seq<bool>, run: seq<State>, i: nat)
    requires IsRun(valid, run) && i < |run| && run[i].main.Returned?
    ensures run[i].main.ok <==> forall k :: 0 <= k < |valid| ==> valid[k]
    ensures run[i].main.ok ==> run[i].processedItems == |valid| && forall k :: 0 <= k < |valid| ==> k in run[i].received
    ensures !run[i].main.ok ==> exists k :: k in run[i].received && 0 <= k < |valid| && !valid[k]
  {
    RunInv(valid, run, i);
    SmallSet(run[i].received, |valid|);
  }

  /** Each item is handed out once: what one worker holds no other worker holds, and nothing is handed
      out again after its result was received. */
  lemma HandedOutOnce(valid: seq<bool>, run: seq<State>, i: nat, w: nat)
    requires IsRun(valid, run) && i < |run| && Enabled(valid, run[i], Give(w))
    ensures var item := run[i].currentItem;
            && item !in run[i].received && (forall v :: 0 <= v < |run[i].workers| ==> !Holds(run[i].workers[v], item))
            && Holds(Next(valid, run[i], Give(w)).workers[w], item)
            && Next(valid, run[i], Give(w)).currentItem > item
  {
    RunInv(valid, run, i);
  }

  lemma {:induction false} CounterMonotone(valid: seq<bool>, run: seq<State>, i: nat, j: nat)
    requires IsRun(valid, run) && i <= j < |run|
    ensures run[i].currentItem <= run[j].currentItem
  {
    hide IsRun, Enabled, Next;
    if i < j {
      CounterMonotone(valid, run, i, j - 1);
      var a := StepTaken(valid, run, j - 1);
      CounterStep(valid, run[j - 1], a);
    }
  }

  lemma RunStarts(valid: seq<bool>, run: seq<State>)
    requires IsRun(valid, run)
    ensures run != [] && Init(valid, run[0])
  {}

  /** The action between two states of a run. */
  lemma StepTaken(valid: seq<bool>, run: seq<State>, i: nat) returns (a: Action)
    requires IsRun(valid, run) && i < |run| - 1
    ensures Enabled(valid, run[i], a) && run[i + 1] == Next(valid, run[i], a)
  {
    hide Init, Enabled, Next;
    a :| Enabled(valid, run[i], a) && run[i + 1] == Next(valid, run[i], a);
  }

  lemma CounterStep(valid: seq<bool>, s: State, a: Action)
    requires Enabled(valid, s, a)
    ensures Next(valid, s, a).currentItem == s.currentItem + if a.Give? then 1 else 0
  {}

  /** The step from s to t hands the item to worker w. */
  ghost predicate HandsOut(valid: seq<bool>, s: State, t: State, w: nat, item: nat) {
    && Enabled(valid, s, Give(w)) && t == Next(valid, s, Give(w))
    && w < |t.workers| && t.workers[w] == Working(item)
  }

  lemma HandsOutNext(valid: seq<bool>, s: State, t: State, w: nat, item: nat)
    requires HandsOut(valid, s, t, w, item)
    ensures item == s.currentItem < |valid| && t.currentItem == item + 1
  {}

  /** Two different steps of a run never hand out the same item, whoever the workers are. */
  lemma NeverHandedOutAgain(valid: seq<bool>, run: seq<State>, i: nat, j: nat, v: nat, w: nat, x: nat, y: nat)
    requires IsRun(valid, run) && i < |run| - 1 && j < |run| - 1 && i != j
    requires HandsOut(valid, run[i], run[i + 1], v, x) && HandsOut(valid, run[j], run[j + 1], w, y)
    ensures x != y
  {
    hide HandsOut, IsRun;
    HandsOutNext(valid, run[i], run[i + 1], v, x);
    HandsOutNext(valid, run[j], run[j + 1], w, y);
    if i < j {
      CounterMonotone(valid, run, i + 1, j);
    } else {
      CounterMonotone(valid, run, j + 1, i);
    }
  }

  /** Before Validate returns something can always happen. */
  lemma NoDeadlock(valid: seq<bool>, run: seq<State>, i: nat)
    requires IsRun(valid, run) && i < |run| && !run[i].main.Returned?
    ensures exists a :: Enabled(valid, run[i], a)
  {
    hide CountBusy;
    RunInv(valid, run, i);
    var s := run[i];
    if s.main.Closing? {
      assert Enabled(valid, s, Close);
    } else if CountBusy(s.workers) > 0 {
      var w := BusyWorker(s.workers);
      assert Enabled(valid, s, if s.workers[w].Working? then Finish(w) else Receive(w));
    } else {
      AllIdle(s.workers);
      assert Enabled(valid, s, Give(0));
    }
  }

  lemma {:induction false} AllIdle(workers: seq<Worker>)
    requires CountBusy(workers) == 0
    ensures forall w :: 0 <= w < |workers| ==> !Busy(workers[w])
  {
    if workers != [] {
      AllIdle(workers[..|workers| - 1]);
    }
  }

  /** When nothing can happen any more, Validate has returned and every worker has exited. */
  lemma NoLeak(valid: seq<bool>, run: seq<State>, i: nat)
    requires IsRun(valid, run) && i < |run| && forall a :: !Enabled(valid, run[i], a)
    ensures run[i].main.Returned? && forall w :: 0 <= w < |run[i].workers| ==> run[i].workers[w] == Done
  {
    var s := run[i];
    if !s.main.Returned? {
      NoDeadlock(valid, run, i);
    }
    RunInv(valid, run, i);
    forall w | 0 <= w < |s.workers| ensures s.workers[w] == Done {
      assert !Enabled(valid, s, Finish(w)) && !Enabled(valid, s, QuitIdle(w)) && !Enabled(valid, s, QuitSending(w));
    }
  }

  // Every run is finite.

  function Weight(w: Worker): nat {
    match w
    case Done => 0
    case Idle => 1
    case Sending(_) => 3
    case Working(_) => 4
  }

  function Weights(workers: seq<Worker>): nat {
    if workers == [] then 0 else Weights(workers[..|workers| - 1]) + Weight(workers[|workers| - 1])
  }

  lemma {:induction false} WeightsUpdate(workers: seq<Worker>, w: nat, x: Worker)
    requires w < |workers|
    ensures Weights(workers[w := x]) == Weights(workers) - Weight(workers[w]) + Weight(x)
  {
    var init := workers[..|workers| - 1];
    if w == |init| {
      assert workers[w := x][..|init|] == init;
    } else {
      WeightsUpdate(init, w, x);
      assert workers[w := x][..|init|] == init[w := x];
    }
  }

  function Remaining(valid: seq<bool>, s: State): int {
    4 * (|valid| - s.currentItem) + Weights(s.workers) + (if s.main.Looping? then 2 else if s.main.Closing? then 1
      else 0)
  }

  /** Every step, of whatever goroutine, brings the end closer. */
  lemma StepProgress(valid: seq<bool>, s: State, a: Action)
    requires Inv(valid, s) && Enabled(valid, s, a)
    ensures 0 <= Remaining(valid, Next(valid, s, a)) < Remaining(valid, s)
  {
    hide Weights, CountBusy;
    StepInv(valid, s, a);
    match a {
      case Give(w) => WeightsUpdate(s.workers, w, Working(s.currentItem));
      case Finish(w) => WeightsUpdate(s.workers, w, Sending(s.workers[w].item));
      case Receive(w) => WeightsUpdate(s.workers, w, AfterResult(valid, s.workers[w].item));
      case Close =>
      case QuitIdle(w) => WeightsUpdate(s.workers, w, Done);
      case QuitSending(w) => WeightsUpdate(s.workers, w, AfterResult(valid, s.workers[w].item));
    }
  }

  lemma {:induction false} InitWeights(workers: seq<Worker>)
    requires forall w :: 0 <= w < |workers| ==> workers[w] == Idle
    ensures Weights(workers) == |workers|
  {
    if workers != [] {
      InitWeights(workers[..|workers| - 1]);
    }
  }

  /** No schedule keeps the goroutines busy for more than five steps per item and two more. */
  lemma {:induction false} RunsAreFinite(valid: seq<bool>, run: seq<State>, i: nat)
    requires IsRun(valid, run) && i < |run|
    ensures 0 <= Remaining(valid, run[i]) <= 5 * |valid| + 2 - i
  {
    hide Remaining, Inv, IsRun, Enabled, Next, Init;
    RunStarts(valid, run);
    RunInv(valid, run, i);
    if i == 0 {
      StartRemaining(valid, run[0]);
    } else {
      RunsAreFinite(valid, run, i - 1);
      RunInv(valid, run, i - 1);
      var a := StepTaken(valid, run, i - 1);
      StepProgress(valid, run[i - 1], a);
    }
  }

  lemma StartRemaining(valid: seq<bool>, s: State)
    requires Init(valid, s)
    ensures 0 <= Remaining(valid, s) <= 5 * |valid| + 2
  {
    InitWeights(s.workers);
  }
}

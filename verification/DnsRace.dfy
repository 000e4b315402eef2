/** The race of several DNS servers for one domain: a pool of workers takes URL indices
    from an unbuffered channel and puts outcomes into a buffered one; the caller returns
    the first success.  Every interleaving of the goroutines is a run of the steps below. */
module DnsRace {
  import opened GoStrings

  /** What the resolver answers for one URL. */
  datatype Answer = Resolved(ips: seq<string>) | Failed(message: string)

  /** A worker waits for an index, runs the resolver, is about to send, or has ended. */
  datatype Worker = Waiting | Running(idx: nat) | Sending(idx: nat) | Ended

  datatype Outcome = Success(idx: nat, ips: seq<string>) | Errors(errs: seq<(nat, string)>) | NoAnswers

  datatype Caller = Dispatching | Collecting | Returned(outcome: Outcome)

  /** `next` indices have been dispatched; `called` lists the resolver calls that ended,
      `buffer` the outcomes in outCh, `received` those the caller took out. */
  datatype State = State(
    workers: seq<Worker>, next: nat, caller: Caller, tasksClosed: bool,
    buffer: seq<nat>, outClosed: bool, received: seq<nat>, errs: seq<(nat, string)>, called: seq<nat>)

  /** The size of the pool. */
  function PoolSize(concurrency: int, n: nat): (w: nat)
    requires n > 0
    ensures 1 <= w <= n
  {
    var w := if concurrency > n then n else concurrency;
    if w < 1 then 1 else w
  }

  function Start(concurrency: int, n: nat): State
    requires n > 0
  {
    State(seq(PoolSize(concurrency, n), i => Waiting), 0, Dispatching, false, [], false, [], [], [])
  }

  datatype Step =
    | Dispatch(w: nat)   // taskCh <- idx meets a waiting worker
    | CloseTasks
    | Finish(w: nat)     // the resolver call of worker w ends
    | Send(w: nat)
    | Exit(w: nat)       // the worker sees the closed task channel
    | CloseOut           // all workers ended: the closer closes outCh
    | Receive
    | ReceiveClosed

  predicate Enabled(a: seq<Answer>, s: State, step: Step) {
    match step
    case Dispatch(w) => s.caller.Dispatching? && s.next < |a| && w < |s.workers| && s.workers[w].Waiting?
    case CloseTasks => s.caller.Dispatching? && s.next == |a|
    case Finish(w) => w < |s.workers| && s.workers[w].Running?
    case Send(w) => w < |s.workers| && s.workers[w].Sending? && |s.buffer| < |a|
    case Exit(w) => w < |s.workers| && s.workers[w].Waiting? && s.tasksClosed
    case CloseOut => s.tasksClosed && !s.outClosed && forall w :: 0 <= w < |s.workers| ==> s.workers[w].Ended?
    case Receive => s.caller.Collecting? && s.buffer != [] && s.buffer[0] < |a|
    case ReceiveClosed => s.caller.Collecting? && s.buffer == [] && s.outClosed
  }

  function Apply(a: seq<Answer>, s: State, step: Step): State
    requires Enabled(a, s, step)
  {
    match step
    case Dispatch(w) => s.(workers := s.workers[w := Running(s.next)], next := s.next + 1)
    case CloseTasks => s.(tasksClosed := true, caller := Collecting)
    case Finish(w) => s.(workers := s.workers[w := Sending(s.workers[w].idx)], called := s.called + [s.workers[w].idx])
    case Send(w) => s.(workers := s.workers[w := Waiting], buffer := s.buffer + [s.workers[w].idx])
    case Exit(w) => s.(workers := s.workers[w := Ended])
    case CloseOut => s.(outClosed := true)
    case Receive =>
      var idx := s.buffer[0];
      var t := s.(buffer := s.buffer[1..], received := s.received + [idx]);
      (match a[idx]
       case Resolved(ips) => t.(caller := Returned(Success(idx, ips)))
       case Failed(message) =>
         var errs := s.errs + [(idx, message)];
         if |s.received| + 1 == |a| then t.(errs := errs, caller := Returned(Errors(errs)))
         else t.(errs := errs))
    case ReceiveClosed => s.(caller := Returned(if |s.errs| > 0 then Errors(s.errs) else NoAnswers))
  }

  // ---- counting ----

  /** The index a worker holds while it runs, or while it waits to send. */
  function One(w: Worker, running: bool): multiset<nat> {
    if running && w.Running? then multiset{w.idx}
    else if !running && w.Sending? then multiset{w.idx}
    else multiset{}
  }

  function HeldIn(ws: seq<Worker>, running: bool): multiset<nat> {
    if ws == [] then multiset{} else One(ws[0], running) + HeldIn(ws[1..], running)
  }

  function RunningIn(ws: seq<Worker>): multiset<nat> { HeldIn(ws, true) }

  function SendingIn(ws: seq<Worker>): multiset<nat> { HeldIn(ws, false) }

  /** The indices below `n`, once each. */
  function Indices(n: nat): multiset<nat> {
    if n == 0 then multiset{} else Indices(n - 1) + multiset{n - 1}
  }

  lemma {:induction false} IndicesAre(n: nat, i: nat)
    ensures Indices(n)[i] == if i < n then 1 else 0
    ensures |Indices(n)| == n
    decreases n
  {
    if n > 0 {
      IndicesAre(n - 1, i);
    }
  }

  lemma AddFront(o: multiset<nat>, a: multiset<nat>, c: multiset<nat>, b: multiset<nat>, d: multiset<nat>)
    requires a + c == b + d
    ensures (o + a) + c == (o + b) + d
  {
    assert (o + a) + c == o + (a + c);
    assert (o + b) + d == o + (b + d);
  }

  lemma {:induction false} SetHeld(ws: seq<Worker>, w: nat, x: Worker, running: bool)
    requires w < |ws|
    ensures HeldIn(ws[w := x], running) + One(ws[w], running) == HeldIn(ws, running) + One(x, running)
    decreases |ws|
  {
    hide One;
    var vs := ws[w := x];
    if w > 0 {
      assert vs[1..] == ws[1..][w - 1 := x];
      SetHeld(ws[1..], w - 1, x, running);
      AddFront(One(ws[0], running), HeldIn(vs[1..], running), One(ws[w], running), HeldIn(ws[1..], running), One(x, running));
    } else {
      assert vs[1..] == ws[1..];
    }
  }

  lemma SameWithNothing(x: multiset<nat>, y: multiset<nat>)
    requires x + multiset{} == y + multiset{}
    ensures x == y
  {
    assert x + multiset{} == x && y + multiset{} == y;
  }

  lemma StartsRunning(ws: seq<Worker>, w: nat, i: nat)
    requires w < |ws| && ws[w].Waiting?
    ensures RunningIn(ws[w := Running(i)]) == RunningIn(ws) + multiset{i}
    ensures SendingIn(ws[w := Running(i)]) == SendingIn(ws)
  {
    hide HeldIn;
    SetHeld(ws, w, Running(i), true);
    SetHeld(ws, w, Running(i), false);
    SameWithNothing(SendingIn(ws[w := Running(i)]), SendingIn(ws));
  }

  lemma StartsSending(ws: seq<Worker>, w: nat)
    requires w < |ws| && ws[w].Running?
    ensures RunningIn(ws) == RunningIn(ws[w := Sending(ws[w].idx)]) + multiset{ws[w].idx}
    ensures SendingIn(ws[w := Sending(ws[w].idx)]) == SendingIn(ws) + multiset{ws[w].idx}
  {
    hide HeldIn;
    SetHeld(ws, w, Sending(ws[w].idx), true);
    SetHeld(ws, w, Sending(ws[w].idx), false);
  }

  lemma StopsSending(ws: seq<Worker>, w: nat)
    requires w < |ws| && ws[w].Sending?
    ensures RunningIn(ws[w := Waiting]) == RunningIn(ws)
    ensures SendingIn(ws) == SendingIn(ws[w := Waiting]) + multiset{ws[w].idx}
  {
    hide HeldIn;
    SetHeld(ws, w, Waiting, true);
    SetHeld(ws, w, Waiting, false);
    SameWithNothing(RunningIn(ws[w := Waiting]), RunningIn(ws));
  }

  lemma Ends(ws: seq<Worker>, w: nat)
    requires w < |ws| && ws[w].Waiting?
    ensures RunningIn(ws[w := Ended]) == RunningIn(ws) && SendingIn(ws[w := Ended]) == SendingIn(ws)
  {
    hide HeldIn;
    SetHeld(ws, w, Ended, true);
    SetHeld(ws, w, Ended, false);
    SameWithNothing(RunningIn(ws[w := Ended]), RunningIn(ws));
    SameWithNothing(SendingIn(ws[w := Ended]), SendingIn(ws));
  }

  lemma {:induction false} NoneHeld(ws: seq<Worker>, running: bool)
    requires forall w :: 0 <= w < |ws| ==> One(ws[w], running) == multiset{}
    ensures HeldIn(ws, running) == multiset{}
    decreases |ws|
  {
    if ws != [] {
      NoneHeld(ws[1..], running);
    }
  }

  lemma {:induction false} Held(ws: seq<Worker>, w: nat, running: bool)
    requires w < |ws|
    ensures One(ws[w], running) <= HeldIn(ws, running)
    decreases |ws|
  {
    if w > 0 {
      Held(ws[1..], w - 1, running);
    }
  }

  // ---- the invariant of every run ----

  /** Every dispatched index is held by one running worker or has been called; every
      called one is held by one sending worker, in the buffer, or received: once. */
  predicate Counted(s: State) {
    && RunningIn(s.workers) + multiset(s.called) == Indices(s.next)
    && SendingIn(s.workers) + multiset(s.buffer) + multiset(s.received) == multiset(s.called)
  }

  predicate Inv(a: seq<Answer>, s: State) {
    && Counted(s)
    && s.next <= |a| && |a| > 0 && |s.workers| > 0
    && s.tasksClosed == !s.caller.Dispatching?
    && (s.tasksClosed ==> s.next == |a|)
    && (!s.tasksClosed ==> s.received == [] && !s.outClosed && forall w :: 0 <= w < |s.workers| ==> !s.workers[w].Ended?)
    && (s.outClosed ==> forall w :: 0 <= w < |s.workers| ==> s.workers[w].Ended?)
    && (s.caller.Collecting? ==> |s.received| < |a| && ErrorsMatch(a, s.received, s.errs))
    && (s.caller.Returned? ==> GoodOutcome(a, s.caller.outcome))
    && (s.caller.Dispatching? ==> s.errs == [])
  }

  /** The collected errors are those of the received indices, in order. */
  predicate ErrorsMatch(a: seq<Answer>, received: seq<nat>, errs: seq<(nat, string)>) {
    |errs| == |received| && forall k :: 0 <= k < |received| ==>
      received[k] < |a| && a[received[k]].Failed? && errs[k] == (received[k], a[received[k]].message)
  }

  function Named(errs: seq<(nat, string)>): (r: seq<nat>)
    ensures |r| == |errs| && forall k :: 0 <= k < |errs| ==> r[k] == errs[k].0
  {
    seq(|errs|, k requires 0 <= k < |errs| => errs[k].0)
  }

  /** A success names a URL whose resolver succeeded, with its answer.  An error is
      returned only when every resolver failed, with one entry for each URL. */
  predicate GoodOutcome(a: seq<Answer>, o: Outcome) {
    match o
    case Success(idx, ips) => idx < |a| && a[idx] == Resolved(ips)
    case Errors(errs) =>
      && multiset(Named(errs)) == Indices(|a|)
      && (forall i :: 0 <= i < |a| ==> a[i].Failed?)
      && forall k :: 0 <= k < |errs| ==> errs[k].0 < |a| && a[errs[k].0].Failed? && errs[k].1 == a[errs[k].0].message
    case NoAnswers => false
  }

  lemma InvStart(a: seq<Answer>, concurrency: int)
    requires |a| > 0
    ensures Inv(a, Start(concurrency, |a|))
  {
    NoneHeld(Start(concurrency, |a|).workers, true);
    NoneHeld(Start(concurrency, |a|).workers, false);
  }

  /** Every index in the buffer or received was dispatched. */
  lemma CalledIsIndex(a: seq<Answer>, s: State, i: nat)
    requires Inv(a, s) && (i in s.buffer || i in s.received || i in s.called)
    ensures i < s.next
  {
    IndicesAre(s.next, i);
    assert multiset(s.called)[i] >= 1 by {
      assert i in s.buffer ==> i in multiset(s.buffer);
      assert i in s.received ==> i in multiset(s.received);
      assert i in s.called ==> i in multiset(s.called);
    }
  }

  /** The channel's capacity is never the obstacle: while a worker is about to send,
      there is room in outCh. */
  lemma RoomToSend(a: seq<Answer>, s: State, w: nat)
    requires Inv(a, s) && w < |s.workers| && s.workers[w].Sending?
    ensures |s.buffer| < |a| && Enabled(a, s, Send(w))
  {
    Held(s.workers, w, false);
    IndicesAre(s.next, 0);
    assert |multiset(s.called)| <= |Indices(s.next)|;
    assert s.workers[w].idx in SendingIn(s.workers);
  }

  lemma BufferFits(a: seq<Answer>, s: State)
    requires Inv(a, s)
    ensures |s.buffer| <= |a|
  {
    IndicesAre(s.next, 0);
    assert |multiset(s.called)| <= |Indices(s.next)|;
  }

  // ---- each kind of step keeps the invariant ----

  lemma DispatchKeeps(a: seq<Answer>, s: State, w: nat)
    requires Inv(a, s) && Enabled(a, s, Dispatch(w))
    ensures Inv(a, Apply(a, s, Dispatch(w)))
  {
    hide RunningIn, SendingIn, GoodOutcome, ErrorsMatch;
    StartsRunning(s.workers, w, s.next);
    assert Indices(s.next + 1) == Indices(s.next) + multiset{s.next};
  }

  lemma FinishKeeps(a: seq<Answer>, s: State, w: nat)
    requires Inv(a, s) && Enabled(a, s, Finish(w))
    ensures Inv(a, Apply(a, s, Finish(w)))
  {
    hide RunningIn, SendingIn, GoodOutcome, ErrorsMatch;
    var i := s.workers[w].idx;
    StartsSending(s.workers, w);
    assert multiset(s.called + [i]) == multiset(s.called) + multiset{i};
  }

  lemma SendKeeps(a: seq<Answer>, s: State, w: nat)
    requires Inv(a, s) && Enabled(a, s, Send(w))
    ensures Inv(a, Apply(a, s, Send(w)))
  {
    hide RunningIn, SendingIn, GoodOutcome, ErrorsMatch;
    var i := s.workers[w].idx;
    StopsSending(s.workers, w);
    assert multiset(s.buffer + [i]) == multiset(s.buffer) + multiset{i};
  }

  lemma ExitKeeps(a: seq<Answer>, s: State, w: nat)
    requires Inv(a, s) && Enabled(a, s, Exit(w))
    ensures Inv(a, Apply(a, s, Exit(w)))
  {
    hide RunningIn, SendingIn, GoodOutcome, ErrorsMatch;
    Ends(s.workers, w);
  }

  lemma ReceiveCounts(s: State, t: State)
    requires Counted(s) && s.buffer != []
    requires t.workers == s.workers && t.next == s.next && t.called == s.called
    requires t.buffer == s.buffer[1..] && t.received == s.received + [s.buffer[0]]
    ensures Counted(t)
  {
    hide RunningIn, SendingIn;
    var i := s.buffer[0];
    assert s.buffer == [i] + s.buffer[1..];
    assert multiset(s.buffer) == multiset{i} + multiset(s.buffer[1..]);
    assert multiset(s.received + [i]) == multiset(s.received) + multiset{i};
  }

  /** Once as many outcomes have been received as there are URLs, each came once. */
  lemma AllReceived(s: State, n: nat)
    requires Counted(s) && s.next == |s.received| == n
    ensures multiset(s.received) == Indices(n)
  {
    hide RunningIn, SendingIn;
    IndicesAre(n, 0);
    var rest := RunningIn(s.workers) + SendingIn(s.workers) + multiset(s.buffer);
    assert rest + multiset(s.received) == Indices(n);
    assert |rest| + |multiset(s.received)| == n;
    assert rest == multiset{};
  }

  lemma EverythingFailed(a: seq<Answer>, received: seq<nat>, errs: seq<(nat, string)>)
    requires multiset(received) == Indices(|a|) && ErrorsMatch(a, received, errs)
    ensures GoodOutcome(a, Errors(errs))
  {
    assert Named(errs) == received;
    forall i | 0 <= i < |a|
      ensures a[i].Failed?
    {
      IndicesAre(|a|, i);
      assert i in multiset(received);
      assert i in received;
    }
  }

  lemma ReceiveKeeps(a: seq<Answer>, s: State)
    requires Inv(a, s) && Enabled(a, s, Receive)
    ensures Inv(a, Apply(a, s, Receive))
  {
    hide Counted, GoodOutcome, Indices;
    var i := s.buffer[0];
    var t := Apply(a, s, Receive);
    ReceiveCounts(s, t);
    if a[i].Failed? {
      assert ErrorsMatch(a, t.received, t.errs);
      if |t.received| == |a| {
        AllReceived(t, |a|);
        EverythingFailed(a, t.received, t.errs);
      }
    } else {
      FirstSuccess(a, i);
    }
  }

  lemma FirstSuccess(a: seq<Answer>, i: nat)
    requires i < |a| && a[i].Resolved?
    ensures GoodOutcome(a, Success(i, a[i].ips))
  {
  }

  lemma ReceiveClosedCannot(a: seq<Answer>, s: State)
    requires Inv(a, s)
    ensures !Enabled(a, s, ReceiveClosed)
  {
    if Enabled(a, s, ReceiveClosed) {
      NoneHeld(s.workers, true);
      NoneHeld(s.workers, false);
      IndicesAre(|a|, 0);
      assert false;
    }
  }

  /** Every step of every interleaving keeps the invariant. */
  lemma StepKeeps(a: seq<Answer>, s: State, step: Step)
    requires Inv(a, s) && Enabled(a, s, step)
    ensures Inv(a, Apply(a, s, step))
  {
    match step
    case Dispatch(w) => DispatchKeeps(a, s, w);
    case CloseTasks =>
    case Finish(w) => FinishKeeps(a, s, w);
    case Send(w) => SendKeeps(a, s, w);
    case Exit(w) => ExitKeeps(a, s, w);
    case CloseOut =>
    case Receive => ReceiveKeeps(a, s);
    case ReceiveClosed => ReceiveClosedCannot(a, s);
  }

  // ---- whole runs ----

  predicate IsRun(a: seq<Answer>, s: State, steps: seq<Step>)
    decreases |steps|
  {
    steps == [] || (Enabled(a, s, steps[0]) && IsRun(a, Apply(a, s, steps[0]), steps[1..]))
  }

  function After(a: seq<Answer>, s: State, steps: seq<Step>): State
    requires IsRun(a, s, steps)
    decreases |steps|
  {
    if steps == [] then s else After(a, Apply(a, s, steps[0]), steps[1..])
  }

  /** Workers that have not ended. */
  function Alive(ws: seq<Worker>): nat {
    if ws == [] then 0 else (if ws[0].Ended? then 0 else 1) + Alive(ws[1..])
  }

  lemma {:induction false} AliveSet(ws: seq<Worker>, w: nat, x: Worker)
    requires w < |ws|
    ensures Alive(ws[w := x]) == Alive(ws) - (if ws[w].Ended? then 0 else 1) + (if x.Ended? then 0 else 1)
    ensures Alive(ws) <= |ws|
    decreases |ws|
  {
    assert ws[w := x][1..] == if w == 0 then ws[1..] else ws[1..][w - 1 := x];
    if w > 0 {
      AliveSet(ws[1..], w - 1, x);
    } else if |ws| > 1 {
      AliveSet(ws[1..], 0, ws[1]);
    }
  }

  /** Steps still to come, at most. */
  function Remaining(a: seq<Answer>, s: State): int {
    4 * (|a| - s.next) + 3 * |RunningIn(s.workers)| + 2 * |SendingIn(s.workers)| + |s.buffer| + Alive(s.workers)
    + (if s.tasksClosed then 0 else 1) + (if s.outClosed then 0 else 1) + (if s.caller.Returned? then 0 else 1)
  }

  lemma StepUsesOne(a: seq<Answer>, s: State, step: Step)
    requires Inv(a, s) && Enabled(a, s, step)
    ensures Remaining(a, Apply(a, s, step)) < Remaining(a, s)
  {
    hide RunningIn, SendingIn, Counted, GoodOutcome, ErrorsMatch, Alive;
    match step
    case Dispatch(w) =>
      StartsRunning(s.workers, w, s.next);
      AliveSet(s.workers, w, Running(s.next));
    case CloseTasks =>
    case Finish(w) =>
      StartsSending(s.workers, w);
      AliveSet(s.workers, w, Sending(s.workers[w].idx));
    case Send(w) =>
      StopsSending(s.workers, w);
      AliveSet(s.workers, w, Waiting);
    case Exit(w) =>
      Ends(s.workers, w);
      AliveSet(s.workers, w, Ended);
    case CloseOut =>
    case Receive =>
    case ReceiveClosed =>
  }

  /** Every interleaving keeps the invariant and is finite: each step uses up one of a
      fixed number. */
  lemma {:induction false} RunKeeps(a: seq<Answer>, s: State, steps: seq<Step>)
    requires Inv(a, s) && IsRun(a, s, steps)
    ensures Inv(a, After(a, s, steps))
    ensures |steps| + Remaining(a, After(a, s, steps)) <= Remaining(a, s)
    decreases |steps|
  {
    hide Inv, Remaining, Apply;
    if steps != [] {
      StepKeeps(a, s, steps[0]);
      StepUsesOne(a, s, steps[0]);
      RunKeeps(a, Apply(a, s, steps[0]), steps[1..]);
    }
  }

  ghost predicate Stuck(a: seq<Answer>, s: State) {
    forall step :: !Enabled(a, s, step)
  }

  /** No goroutine is left behind and no one waits for ever: a run that cannot go on has
      returned, every worker has ended, outCh is closed, and each URL was resolved once. */
  lemma StuckIsOver(a: seq<Answer>, s: State)
    requires Inv(a, s) && Stuck(a, s)
    ensures s.caller.Returned? && GoodOutcome(a, s.caller.outcome)
    ensures (forall w :: 0 <= w < |s.workers| ==> s.workers[w].Ended?) && s.outClosed
    ensures multiset(s.called) == Indices(|a|)
  {
    hide RunningIn, SendingIn, Counted, GoodOutcome, ErrorsMatch;
    assert !Enabled(a, s, CloseTasks) && !Enabled(a, s, CloseOut) && !Enabled(a, s, Receive) && !Enabled(a, s, ReceiveClosed);
    forall w: nat | w < |s.workers|
      ensures s.workers[w].Ended?
    {
      assert !Enabled(a, s, Dispatch(w)) && !Enabled(a, s, Finish(w)) && !Enabled(a, s, Send(w)) && !Enabled(a, s, Exit(w));
      if s.workers[w].Sending? {
        RoomToSend(a, s, w);
      }
    }
    assert s.workers[0].Ended?;
    assert s.tasksClosed && s.outClosed;
    if s.buffer != [] {
      CalledIsIndex(a, s, s.buffer[0]);
    }
    assert !s.caller.Collecting?;
    AllCalled(s);
  }

  lemma AllCalled(s: State)
    requires Counted(s) && forall w :: 0 <= w < |s.workers| ==> s.workers[w].Ended?
    ensures multiset(s.called) == Indices(s.next)
  {
    NoneHeld(s.workers, true);
    assert multiset{} + multiset(s.called) == multiset(s.called);
  }

  /** The race, over all interleavings: from the start every run is at most
      4 * URLs + workers + 3 steps long, never overfills outCh, and never returns anything
      but a good outcome. */
  lemma Race(a: seq<Answer>, concurrency: int, steps: seq<Step>)
    requires |a| > 0 && IsRun(a, Start(concurrency, |a|), steps)
    ensures var s := After(a, Start(concurrency, |a|), steps);
            && Inv(a, s) && |s.buffer| <= |a|
            && (s.caller.Returned? ==> GoodOutcome(a, s.caller.outcome))
            && (Stuck(a, s) ==> s.caller.Returned?)
    ensures |steps| <= 4 * |a| + PoolSize(concurrency, |a|) + 3
  {
    var s0 := Start(concurrency, |a|);
    InvStart(a, concurrency);
    RunKeeps(a, s0, steps);
    var s := After(a, s0, steps);
    BufferFits(a, s);
    NoneHeld(s0.workers, true);
    NoneHeld(s0.workers, false);
    AliveSet(s0.workers, 0, Waiting);
    assert Remaining(a, s0) <= 4 * |a| + PoolSize(concurrency, |a|) + 3;
    IndicesAre(s.next, 0);
    if Stuck(a, s) {
      StuckIsOver(a, s);
    }
  }

  // ---- how many resolver calls run at once ----

  /** `concurrency` workers, but at least one and no more than there are URLs. */
  function Allowed(concurrency: int, n: nat): int {
    if concurrency < 1 || n < 1 then 1 else if concurrency > n then n else concurrency
  }

  lemma {:induction false} HeldFits(ws: seq<Worker>, running: bool)
    ensures |HeldIn(ws, running)| <= |ws|
    decreases |ws|
  {
    if ws != [] {
      HeldFits(ws[1..], running);
    }
  }

  lemma {:induction false} PoolStays(a: seq<Answer>, s: State, steps: seq<Step>)
    requires IsRun(a, s, steps)
    ensures |After(a, s, steps).workers| == |s.workers|
    decreases |steps|
  {
    if steps != [] {
      PoolStays(a, Apply(a, s, steps[0]), steps[1..]);
    }
  }

  /** No reachable state runs more calls at once than allowed. */
  lemma ConcurrencyBound(a: seq<Answer>, concurrency: int, steps: seq<Step>)
    requires |a| > 0 && IsRun(a, Start(concurrency, |a|), steps)
    ensures |RunningIn(After(a, Start(concurrency, |a|), steps).workers)| <= Allowed(concurrency, |a|)
  {
    hide IsRun, After;
    PoolStays(a, Start(concurrency, |a|), steps);
    HeldFits(After(a, Start(concurrency, |a|), steps).workers, true);
  }

  /** The state with the first `k` URLs at the first `k` workers. */
  function Handed(concurrency: int, n: nat, k: nat): State
    requires n > 0 && k <= PoolSize(concurrency, n)
  {
    var s := Start(concurrency, n);
    s.(workers := seq(|s.workers|, i requires 0 <= i < |s.workers| => if i < k then Running(i) else Waiting), next := k)
  }

  function Dispatches(first: nat, count: nat): seq<Step>
    decreases count
  {
    if count == 0 then [] else [Dispatch(first)] + Dispatches(first + 1, count - 1)
  }

  lemma {:induction false} HandsOut(a: seq<Answer>, concurrency: int, k: nat)
    requires |a| > 0 && k <= PoolSize(concurrency, |a|)
    ensures var s, p := Handed(concurrency, |a|, k), PoolSize(concurrency, |a|);
            IsRun(a, s, Dispatches(k, p - k)) && After(a, s, Dispatches(k, p - k)) == Handed(concurrency, |a|, p)
    decreases PoolSize(concurrency, |a|) - k
  {
    var p := PoolSize(concurrency, |a|);
    if k < p {
      var s := Handed(concurrency, |a|, k);
      assert Apply(a, s, Dispatch(k)) == Handed(concurrency, |a|, k + 1);
      HandsOut(a, concurrency, k + 1);
      assert ([Dispatch(k)] + Dispatches(k + 1, p - k - 1))[1..] == Dispatches(k + 1, p - k - 1);
    }
  }

  /** And that many do run at once in some run. */
  lemma ConcurrencyReached(a: seq<Answer>, concurrency: int) returns (steps: seq<Step>)
    requires |a| > 0
    ensures IsRun(a, Start(concurrency, |a|), steps)
    ensures var ws := After(a, Start(concurrency, |a|), steps).workers;
            |ws| == Allowed(concurrency, |a|) && forall i :: 0 <= i < |ws| ==> ws[i] == Running(i)
  {
    var p := PoolSize(concurrency, |a|);
    steps := Dispatches(0, p);
    HandsOut(a, concurrency, 0);
    assert Handed(concurrency, |a|, 0) == Start(concurrency, |a|);
  }
}

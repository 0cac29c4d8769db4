/** `benchmark_crunch_for`: workers that call back until a shared flag is set, and a main
    thread that launches them, sets the flag and adds up their counts.

    Every read or write of the flag, and every callback entry and return, is one step; the
    schedule decides which thread makes the next one. */
module StopFlag {
  import opened CStrings

  /** Where a worker is: before the loop test, inside the callback, before the second test. */
  datatype Pc = NotLaunched | AtHead | InCallback | AtCheck | Finished

  datatype Worker = Worker(pc: Pc, count: nat)

  /** Where the main thread is: about to launch worker `next`, or, after setting the flag, to
      join the `next`-th thread of its list, which holds the last launched thread first. */
  datatype Main = Launching(next: nat) | Joining(next: nat)

  datatype State = State(main: Main, stop: bool, workers: seq<Worker>, result: nat)

  datatype Action = Work(i: nat) | MainStep

  function Init(n: nat): State {
    State(Launching(0), false, seq(n, _ => Worker(NotLaunched, 0)), 0)
  }

  /** One step of a worker, given what it reads from the flag. */
  function WorkerStep(w: Worker, stop: bool): Option<Worker> {
    match w.pc
    case AtHead => Some(w.(pc := if stop then Finished else InCallback))
    case InCallback => Some(w.(pc := AtCheck))
    case AtCheck => Some(Worker(AtHead, if stop then w.count else w.count + 1))
    case _ => None
  }

  function MainNext(s: State): Option<State> {
    var n := |s.workers|;
    match s.main
    case Launching(k) =>
      if k < n then Some(s.(main := Launching(k + 1), workers := s.workers[k := Worker(AtHead, 0)]))
      else Some(s.(main := Joining(0), stop := true))
    case Joining(k) =>
      if k < n && s.workers[n - 1 - k].pc.Finished? then
        Some(s.(main := Joining(k + 1), result := s.result + s.workers[n - 1 - k].count))
      else None
  }

  /** None if the thread cannot move. */
  function Step(s: State, a: Action): Option<State> {
    match a
    case MainStep => MainNext(s)
    case Work(i) =>
      if i >= |s.workers| then None
      else
        var w := WorkerStep(s.workers[i], s.stop);
        if w.None? then None else Some(s.(workers := s.workers[i := w.value]))
  }

  function Run(n: nat, schedule: seq<Action>): Option<State> {
    if schedule == [] then Some(Init(n))
    else
      var last := |schedule| - 1;
      var s := Run(n, schedule[..last]);
      if s.None? then None else Step(s.value, schedule[last])
  }

  // ----- what is observed of a run -----

  /** A callback is entered; it returns; it returns while the flag is not set; the test
      behind it still reads 0. */
  datatype Kind = Called | Returned | ReturnedInTime | TestedZero

  predicate Happens(kind: Kind, s: State, a: Action, i: nat) {
    a == Work(i) && i < |s.workers| &&
    var pc := s.workers[i].pc;
    match kind
    case Called => pc.AtHead? && !s.stop
    case Returned => pc.InCallback?
    case ReturnedInTime => pc.InCallback? && !s.stop
    case TestedZero => pc.AtCheck? && !s.stop
  }

  /** How often worker `i` did so. */
  function Seen(kind: Kind, n: nat, schedule: seq<Action>, i: nat): nat
    requires Run(n, schedule).Some?
  {
    if schedule == [] then 0
    else
      var last := |schedule| - 1;
      Seen(kind, n, schedule[..last], i)
      + if Happens(kind, Run(n, schedule[..last]).value, schedule[last], i) then 1 else 0
  }

  /** How often workers `from` and later did so. */
  function Total(kind: Kind, n: nat, schedule: seq<Action>, from: nat): nat
    requires Run(n, schedule).Some? && from <= n
    decreases n - from
  {
    if from == n then 0 else Seen(kind, n, schedule, from) + Total(kind, n, schedule, from + 1)
  }

  function CountFrom(workers: seq<Worker>, from: nat): nat
    requires from <= |workers|
    decreases |workers| - from
  {
    if from == |workers| then 0 else workers[from].count + CountFrom(workers, from + 1)
  }

  // ----- invariants -----

  function One(b: bool): nat { if b then 1 else 0 }

  /** A worker's counter against what it did: before the flag is set they agree, afterwards
      at most one callback is missing. */
  ghost predicate WorkerOk(s: State, n: nat, schedule: seq<Action>, i: nat)
    requires Run(n, schedule).Some? && i < |s.workers|
  {
    var w := s.workers[i];
    var called, returned := Seen(Called, n, schedule, i), Seen(Returned, n, schedule, i);
    var inTime := Seen(ReturnedInTime, n, schedule, i);
    && Seen(TestedZero, n, schedule, i) == w.count
    && called == returned + One(w.pc.InCallback?)
    && w.count <= inTime <= returned
    && (w.pc.NotLaunched? ==> called == 0)
    && if s.stop then called <= w.count + 1 && (w.pc.AtCheck? ==> returned == w.count + 1)
                      && (w.pc.InCallback? ==> returned == w.count)
       else inTime == returned == w.count + One(w.pc.AtCheck?)
  }

  /** The main thread's progress against the workers. */
  ghost predicate MainOk(s: State, n: nat) {
    && |s.workers| == n
    && match s.main
       case Launching(k) =>
         && k <= n && !s.stop && s.result == 0
         && forall i | 0 <= i < n :: s.workers[i].pc.NotLaunched? <==> k <= i
       case Joining(k) =>
         && k <= n && s.stop
         && (forall i | 0 <= i < n :: !s.workers[i].pc.NotLaunched?)
         && (forall i | n - k <= i < n :: s.workers[i].pc.Finished?)
         && s.result == CountFrom(s.workers, n - k)
  }

  lemma CountUnchanged(workers: seq<Worker>, i: nat, w: Worker, from: nat)
    requires i < from <= |workers|
    ensures CountFrom(workers[i := w], from) == CountFrom(workers, from)
    decreases |workers| - from
  {
    if from < |workers| {
      CountUnchanged(workers, i, w, from + 1);
    }
  }

  lemma {:induction false} MainInvariant(n: nat, schedule: seq<Action>)
    requires Run(n, schedule).Some?
    ensures MainOk(Run(n, schedule).value, n)
  {
    if schedule != [] {
      var last := |schedule| - 1;
      MainInvariant(n, schedule[..last]);
      MainKept(n, Run(n, schedule[..last]).value, schedule[last]);
    }
  }

  lemma MainKept(n: nat, s: State, a: Action)
    requires MainOk(s, n) && Step(s, a).Some?
    ensures MainOk(Step(s, a).value, n)
  {
    if a.Work? && s.main.Joining? {
      CountUnchanged(s.workers, a.i, WorkerStep(s.workers[a.i], s.stop).value, n - s.main.next);
    }
  }

  lemma {:induction false} WorkerInvariant(n: nat, schedule: seq<Action>, i: nat)
    requires Run(n, schedule).Some? && i < n
    ensures |Run(n, schedule).value.workers| == n && WorkerOk(Run(n, schedule).value, n, schedule, i)
  {
    MainInvariant(n, schedule);
    if schedule != [] {
      var last := |schedule| - 1;
      MainInvariant(n, schedule[..last]);
      WorkerInvariant(n, schedule[..last], i);
    }
  }

  // ----- the result -----

  lemma {:induction false} TotalsFrom(n: nat, schedule: seq<Action>, from: nat)
    requires Run(n, schedule).Some? && from <= n
    ensures |Run(n, schedule).value.workers| == n
    ensures Total(TestedZero, n, schedule, from) == CountFrom(Run(n, schedule).value.workers, from)
    ensures Total(TestedZero, n, schedule, from) <= Total(ReturnedInTime, n, schedule, from)
    ensures Total(ReturnedInTime, n, schedule, from) <= Total(Called, n, schedule, from)
    ensures Total(Called, n, schedule, from) <= Total(TestedZero, n, schedule, from) + (n - from)
    decreases n - from
  {
    MainInvariant(n, schedule);
    if from < n {
      WorkerInvariant(n, schedule, from);
      TotalsFrom(n, schedule, from + 1);
    }
  }

  predicate Complete(s: State) { s.main == Joining(|s.workers|) }

  /** However the threads are scheduled: once all are joined, the result is the number of
      callbacks behind which the flag still read 0.  No fewer returned before the flag was
      set, and of all callbacks entered at most one per worker is not counted. */
  lemma JoinedResult(n: nat, schedule: seq<Action>)
    requires Run(n, schedule).Some? && Complete(Run(n, schedule).value)
    ensures
      var r := Run(n, schedule).value.result;
      && r == Total(TestedZero, n, schedule, 0)
      && r <= Total(ReturnedInTime, n, schedule, 0) <= Total(Called, n, schedule, 0) <= r + n
  {
    MainInvariant(n, schedule);
    TotalsFrom(n, schedule, 0);
  }

  /** A callback that is counted returned while the flag was not set: at step `j`, after
      which its worker did nothing before the counting test at step `k`. */
  lemma CountedInTime(n: nat, schedule: seq<Action>, k: nat, i: nat) returns (j: nat)
    requires Run(n, schedule).Some? && k < |schedule|
    requires Run(n, schedule[..k]).Some? && Happens(TestedZero, Run(n, schedule[..k]).value, schedule[k], i)
    ensures j < k && Run(n, schedule[..j]).Some?
    ensures Happens(ReturnedInTime, Run(n, schedule[..j]).value, schedule[j], i)
    ensures StepsOf(schedule[j + 1..k], i) == 0
  {
    j := LastReturn(n, schedule[..k], i);
    assert schedule[..k][..j] == schedule[..j];
    assert schedule[..k][j + 1..] == schedule[j + 1..k];
  }

  lemma {:induction false} LastReturn(n: nat, schedule: seq<Action>, i: nat) returns (j: nat)
    requires Run(n, schedule).Some?
    requires
      var s := Run(n, schedule).value;
      !s.stop && i < |s.workers| && s.workers[i].pc.AtCheck?
    ensures j < |schedule| && Run(n, schedule[..j]).Some?
    ensures Happens(ReturnedInTime, Run(n, schedule[..j]).value, schedule[j], i)
    ensures StepsOf(schedule[j + 1..], i) == 0
  {
    j := |schedule| - 1;
    var before, a := schedule[..j], schedule[j];
    if a != Work(i) {
      var last := j;
      j := LastReturn(n, before, i);
      assert before[..j] == schedule[..j];
      var rest := schedule[j + 1..];
      assert rest[..|rest| - 1] == before[j + 1..] && rest[|rest| - 1] == schedule[last];
    }
  }

  // ----- the end of every run -----

  /** How many steps a worker has left once the flag is set. */
  function Left(w: Worker): nat {
    match w.pc
    case AtHead => 1
    case AtCheck => 2
    case InCallback => 3
    case _ => 0
  }

  function AllLeft(workers: seq<Worker>): nat {
    if workers == [] then 0 else AllLeft(workers[..|workers| - 1]) + Left(workers[|workers| - 1])
  }

  function StepsOf(schedule: seq<Action>, i: nat): nat {
    if schedule == [] then 0
    else StepsOf(schedule[..|schedule| - 1], i) + One(schedule[|schedule| - 1] == Work(i))
  }

  /** The last step of a run that goes on. */
  lemma LastStep(n: nat, schedule: seq<Action>, more: seq<Action>)
    requires more != [] && Run(n, schedule + more).Some?
    ensures Run(n, schedule + more[..|more| - 1]).Some?
    ensures MainOk(Run(n, schedule + more[..|more| - 1]).value, n)
    ensures Step(Run(n, schedule + more[..|more| - 1]).value, more[|more| - 1]) == Run(n, schedule + more)
  {
    var last := |more| - 1;
    assert (schedule + more)[..|schedule| + last] == schedule + more[..last];
    MainInvariant(n, schedule + more[..last]);
  }

  /** After the flag is set a worker makes at most three more steps: the callback it is in
      returns, the test behind it fails, and so does the loop test. */
  lemma {:induction false} StepsAfterStop(n: nat, schedule: seq<Action>, more: seq<Action>, i: nat)
    requires Run(n, schedule + more).Some? && i < n
    ensures
      Run(n, schedule).Some? &&
      var (s, s') := (Run(n, schedule).value, Run(n, schedule + more).value);
      |s.workers| == |s'.workers| == n &&
      (s.stop ==> s'.stop && StepsOf(more, i) + Left(s'.workers[i]) == Left(s.workers[i]) <= 3)
    decreases |more|
  {
    MainInvariant(n, schedule + more);
    if more == [] {
      assert schedule + more == schedule;
    } else {
      var last := |more| - 1;
      var s := Run(n, schedule + more[..last]);
      LastStep(n, schedule, more);
      StepsAfterStop(n, schedule, more[..last], i);
      if s.value.stop {
        LeftAfterStep(n, s.value, more[last], i);
      }
    }
  }

  lemma LeftAfterStep(n: nat, s: State, a: Action, i: nat)
    requires MainOk(s, n) && s.stop && Step(s, a).Some? && i < n
    ensures
      var s' := Step(s, a).value;
      |s'.workers| == n && s'.stop && Left(s'.workers[i]) == Left(s.workers[i]) - One(a == Work(i))
  {
  }

  lemma AllLeftUpdate(workers: seq<Worker>, i: nat, w: Worker)
    requires i < |workers|
    ensures AllLeft(workers[i := w]) == AllLeft(workers) - Left(workers[i]) + Left(w)
  {
    var last := |workers| - 1;
    if i < last {
      AllLeftUpdate(workers[..last], i, w);
      assert workers[i := w][..last] == workers[..last][i := w];
    } else {
      assert workers[i := w][..last] == workers[..last];
    }
  }

  lemma AllLeftBound(workers: seq<Worker>)
    ensures AllLeft(workers) <= 3 * |workers|
  {
  }

  function Remaining(s: State): int { AllLeft(s.workers) + (|s.workers| - s.main.next) }

  /** After the flag is set every step of any thread brings the end nearer. */
  lemma StepAfterStop(n: nat, s: State, a: Action)
    requires MainOk(s, n) && s.stop && Step(s, a).Some?
    ensures Step(s, a).value.stop && Remaining(Step(s, a).value) == Remaining(s) - 1
  {
    if a.Work? {
      AllLeftUpdate(s.workers, a.i, WorkerStep(s.workers[a.i], s.stop).value);
    }
  }

  /** So no run goes on for more than four steps per worker after the flag is set. */
  lemma {:induction false} EndsAfterStop(n: nat, schedule: seq<Action>, more: seq<Action>)
    requires Run(n, schedule + more).Some?
    ensures Run(n, schedule).Some?
    ensures Run(n, schedule).value.stop ==>
      var s' := Run(n, schedule + more).value;
      s'.stop && |more| + Remaining(s') == Remaining(Run(n, schedule).value) && |more| <= 4 * n
    decreases |more|
  {
    if more == [] {
      assert schedule + more == schedule;
    } else {
      var last := |more| - 1;
      var s := Run(n, schedule + more[..last]);
      LastStep(n, schedule, more);
      EndsAfterStop(n, schedule, more[..last]);
      if Run(n, schedule).value.stop {
        StepAfterStop(n, s.value, more[last]);
      }
    }
    if Run(n, schedule).value.stop {
      RemainingBound(n, schedule, schedule + more);
    }
  }

  lemma RemainingBound(n: nat, schedule: seq<Action>, whole: seq<Action>)
    requires Run(n, schedule).Some? && Run(n, whole).Some? && Run(n, schedule).value.stop
    requires Run(n, whole).value.stop
    ensures Remaining(Run(n, schedule).value) <= 4 * n && Remaining(Run(n, whole).value) >= 0
  {
    MainInvariant(n, schedule);
    MainInvariant(n, whole);
    AllLeftBound(Run(n, schedule).value.workers);
  }

  /** And no run gets stuck before all workers are joined. */
  lemma NoDeadlock(n: nat, schedule: seq<Action>) returns (a: Action)
    requires Run(n, schedule).Some? && !Complete(Run(n, schedule).value)
    ensures Run(n, schedule + [a]).Some?
  {
    var s := Run(n, schedule).value;
    MainInvariant(n, schedule);
    a := MainStep;
    if s.main.Joining? && !s.workers[n - 1 - s.main.next].pc.Finished? {
      a := Work(n - 1 - s.main.next);
    }
    assert (schedule + [a])[..|schedule|] == schedule;
  }
}

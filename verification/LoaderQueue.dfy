/** The loader thread that fills a queue of test cases and the main loop that works it off, as a transition system over
    all interleavings of their statements. Test case number `k` is represented by `k`. */
module LoaderQueue {
  datatype Owner = Nobody | Loader | Main

  datatype LoaderAt = Load | LLock | Push | LUnlock | NotifyOne | DLock | SetDone | DUnlock | NotifyAll | Ended
  datatype MainAt = Top | MLock | Test | Asleep | Awake | Look | Pop | MUnlock | Process | Join | Break

  /** `i` counts the loader's rounds, `lc` is the case in the main loop's hands, and `finished` are the cases
      processed. */
  datatype State = State(n: nat, queue: seq<nat>, mutex: Owner, done: bool, loader: LoaderAt, i: nat,
                         main: MainAt, lc: nat, consumed: nat, finished: seq<nat>)

  ghost predicate Initial(s: State) {
    && s.queue == [] && s.mutex == Nobody && !s.done && s.loader == Load && s.i == 0
    && s.main == Top && s.consumed == 0 && s.finished == []
  }

  predicate LoaderReady(s: State) { s.loader != Ended && (s.loader in {LLock, DLock} ==> s.mutex == Nobody) }

  /** The main thread cannot go on while it sleeps, asks for the mutex, or waits for the loader to end. */
  predicate MainReady(s: State) {
    && s.main !in {Asleep, Break} && (s.main in {MLock, Awake} ==> s.mutex == Nobody)
      && (s.main == Pop ==> s.queue != [])
    && s.main != Join
  }

  /** The main thread after a notification. */
  function Woken(main: MainAt): MainAt { if main == Asleep then Awake else main }

  /** The state after the loader's next statement. */
  function LoaderStep(s: State): State
    requires LoaderReady(s)
  {
    match s.loader
    case Load => if s.i < s.n then s.(loader := LLock) else s.(loader := DLock)
    case LLock => s.(mutex := Loader, loader := Push)
    case Push => s.(queue := s.queue + [s.i], loader := LUnlock)
    case LUnlock => s.(mutex := Nobody, loader := NotifyOne)
    case NotifyOne => s.(main := Woken(s.main), i := s.i + 1, loader := Load)
    case DLock => s.(mutex := Loader, loader := SetDone)
    case SetDone => s.(done := true, loader := DUnlock)
    case DUnlock => s.(mutex := Nobody, loader := NotifyAll)
    case NotifyAll => s.(main := Woken(s.main), loader := Ended)
  }

  /** The state after the main thread's next statement. */
  function MainStep(s: State): State
    requires MainReady(s)
  {
    match s.main
    case Top => s.(main := if s.consumed < s.n then MLock else Join)
    case MLock => s.(mutex := Main, main := Test)
    case Test => if s.queue != [] || s.done then s.(main := Look) else s.(mutex := Nobody, main := Asleep)
    case Awake => s.(mutex := Main, main := Test)
    case Look => if s.queue == [] then s.(mutex := Nobody, main := Break) else s.(main := Pop)
    case Pop => s.(lc := s.queue[0], queue := s.queue[1..], main := MUnlock)
    case MUnlock => s.(mutex := Nobody, main := Process)
    case Process => s.(finished := s.finished + [s.lc], consumed := s.consumed + 1, main := Top)
  }

  ghost predicate ByLoader(s: State, t: State) { LoaderReady(s) && t == LoaderStep(s) }
  ghost predicate ByMain(s: State, t: State) { MainReady(s) && t == MainStep(s) }

  /** A wake-up without a notification. */
  ghost predicate Spurious(s: State, t: State) { s.main == Asleep && t == s.(main := Awake) }

  ghost predicate Next(s: State, t: State) { ByLoader(s, t) || ByMain(s, t) || Spurious(s, t) }

  ghost predicate IsRun(run: seq<State>) {
    run != [] && Initial(run[0]) && forall i | 0 <= i < |run| - 1 :: Next(run[i], run[i + 1])
  }

  // ---------- the invariant ----------

  ghost predicate LoaderHolds(s: State) { s.loader in {Push, LUnlock, SetDone, DUnlock} }
  ghost predicate MainHolds(s: State) { s.main in {Test, Look, Pop, MUnlock} }

  /** How many cases have been pushed. */
  function Pushed(s: State): nat { s.i + (if s.loader in {LUnlock, NotifyOne} then 1 else 0) }

  /** A case that the main loop has taken and not yet counted. */
  function InHand(s: State): nat { if s.main in {MUnlock, Process} then 1 else 0 }

  ghost predicate Inv(s: State) {
    && (LoaderHolds(s) <==> s.mutex == Loader) && (MainHolds(s) <==> s.mutex == Main)
    && s.i <= s.n && (s.loader in {LLock, Push, LUnlock, NotifyOne} ==> s.i < s.n)
    && (s.loader in {DLock, SetDone, DUnlock, NotifyAll, Ended} ==> s.i == s.n)
    && (s.done <==> s.loader in {DUnlock, NotifyAll, Ended})
    && s.consumed + InHand(s) + |s.queue| == Pushed(s)
    && s.finished == Numbers(s.consumed) && (InHand(s) == 1 ==> s.lc == s.consumed)
    && (forall k | 0 <= k < |s.queue| :: s.queue[k] == s.consumed + InHand(s) + k)
    && (s.main !in {Top, Join, Break} ==> s.consumed < s.n) && (s.main == Join ==> s.consumed == s.n)
    && s.main != Break
    && (s.main in {Look, Pop} ==> s.queue != [] || s.done) && (s.main == Pop ==> s.queue != [])
    && (s.main == Asleep ==> (s.queue == [] && !s.done) || s.loader in {LUnlock, NotifyOne, DUnlock, NotifyAll})
  }

  function Numbers(n: nat): (r: seq<nat>)
    ensures |r| == n
  {
    seq(n, k => k)
  }

  lemma LoaderKeeps(s: State, t: State)
    requires Inv(s) && ByLoader(s, t)
    ensures Inv(t)
  {
  }

  lemma MainKeeps(s: State, t: State)
    requires Inv(s) && ByMain(s, t)
    ensures Inv(t)
  {
    if s.main == Process { assert Numbers(s.consumed) + [s.consumed] == Numbers(s.consumed + 1); }
  }

  lemma SpuriousKeeps(s: State, t: State)
    requires Inv(s) && Spurious(s, t)
    ensures Inv(t)
  {
  }

  /** Every state of every run satisfies the invariant. */
  lemma {:induction false} Reached(run: seq<State>, i: nat)
    requires IsRun(run) && i < |run|
    ensures Inv(run[i]) && run[i].n == run[0].n
  {
    if i > 0 {
      Reached(run, i - 1);
      var s, t := run[i - 1], run[i];
      assert Next(s, run[i - 1 + 1]);
      if ByLoader(s, t) { LoaderKeeps(s, t); } else if ByMain(s, t) { MainKeeps(s, t); } else { SpuriousKeeps(s, t); }
    }
  }

  /** No case is lost or doubled: pushed, queued, in hand or processed, and processed in order. */
  lemma Conserved(run: seq<State>, i: nat)
    requires IsRun(run) && i < |run|
    ensures var s := run[i]; s.consumed + InHand(s) + |s.queue| == Pushed(s) <= s.n && s.finished == Numbers(s.consumed)
  {
    Reached(run, i);
  }

  /** The early `break` is never taken. */
  lemma NoBreak(run: seq<State>, i: nat)
    requires IsRun(run) && i < |run|
    ensures run[i].main != Break && (run[i].main == Look ==> run[i].queue != [])
  {
    Reached(run, i);
  }

  /** As long as there is something left to do, some thread can go on without a spurious wake-up; when no thread can,
      the loader has ended and all cases have been processed in order. */
  lemma Progress(run: seq<State>, i: nat)
    requires IsRun(run) && i < |run|
    ensures var s := run[i];
            LoaderReady(s) || MainReady(s) || (s.loader == Ended && s.main == Join && s.finished == Numbers(s.n))
  {
    Reached(run, i);
  }

  // ---------- termination ----------

  function LoaderRank(l: LoaderAt): nat {
    match l
    case Load => 10 case LLock => 9 case Push => 8 case LUnlock => 7 case NotifyOne => 6
    case DLock => 5 case SetDone => 4 case DUnlock => 3 case NotifyAll => 2 case Ended => 0
  }

  function MainRank(m: MainAt): nat {
    match m
    case Top => 10 case MLock => 9 case Awake => 9 case Test => 8 case Look => 7 case Asleep => 6 case Pop => 6
    case MUnlock => 5 case Process => 4 case Join => 0 case Break => 0
  }

  function Measure(s: State): int {
    4 * (10 * (s.n - s.i) + LoaderRank(s.loader)) + 10 * (s.n - s.consumed) + MainRank(s.main)
  }

  lemma LoaderDescent(s: State, t: State)
    requires Inv(s) && ByLoader(s, t)
    ensures Measure(t) < Measure(s)
  {
  }

  lemma MainDescent(s: State, t: State)
    requires Inv(s) && ByMain(s, t)
    ensures Measure(t) < Measure(s)
  {
  }

  /** Every step but a spurious wake-up brings the end nearer; a spurious one sets it back by three. */
  lemma Descent(s: State, t: State)
    requires Inv(s) && Inv(t) && Next(s, t)
    ensures 0 <= Measure(t) && (if Spurious(s, t) then Measure(t) == Measure(s) + 3 else Measure(t) < Measure(s))
  {
    if !Spurious(s, t) {
      if ByLoader(s, t) { LoaderDescent(s, t); } else { MainDescent(s, t); }
    }
  }

  /** The spurious wake-ups among the first `i` steps. */
  ghost function Wakes(run: seq<State>, i: nat): nat
    requires i < |run|
  {
    if i == 0 then 0 else Wakes(run, i - 1) + (if Spurious(run[i - 1], run[i]) then 1 else 0)
  }

  /** So a run is at most this long, and when it cannot be continued all cases have been processed. */
  lemma {:induction false} RunLength(run: seq<State>, i: nat)
    requires IsRun(run) && i < |run|
    ensures i + Measure(run[i]) <= 50 * run[0].n + 50 + 4 * Wakes(run, i) && 0 <= Measure(run[i])
  {
    Reached(run, i);
    if i > 0 {
      RunLength(run, i - 1);
      Reached(run, i - 1);
      assert Next(run[i - 1], run[i - 1 + 1]);
      Descent(run[i - 1], run[i]);
    }
  }
}

/** The writer and the reader that hand items over in one slot, with a mutex and two condition variables, as a
    transition system over all interleavings of their statements. */
module ConditionSlot {
  datatype Owner = Nobody | Writer | Reader

  // A thread that waits has given the mutex up; a signal, or a wake-up without one, lets it ask for the mutex again,
  // and then it goes on to unlock.
  datatype WriterAt = WLock | WTest | WFill | WFlag | WItem | WSignal | WWait | WAsleep | WAwake | WUnlock
  datatype ReaderAt = RLock | RTest | RTake | RFlag | RSignal | RWait | RAsleep | RAwake | RUnlock

  datatype State = State(mutex: Owner, buffer: int, has: int, writer: WriterAt, item: int, reader: ReaderAt,
    taken: seq<int>)

  ghost predicate Initial(s: State) {
    s.mutex == Nobody && s.has == 0 && s.writer == WLock && s.item == 0 && s.reader == RLock && s.taken == []
  }

  /** `item++` and its test, for a signed `char`. */
  function NextItem(item: int): int {
    if item == -1 then 0 else if item == 127 then -128 else item + 1
  }

  /** An item as the `unsigned char` in the buffer. */
  function Stored(item: int): int { item % 256 }

  /** A thread cannot go on while it sleeps, or asks for the mutex and another thread has it. */
  predicate WriterReady(s: State) { s.writer != WAsleep && (s.writer in {WLock, WAwake} ==> s.mutex == Nobody) }
  predicate ReaderReady(s: State) { s.reader != RAsleep && (s.reader in {RLock, RAwake} ==> s.mutex == Nobody) }

  /** The state after the writer's next statement, if it is ready. */
  function WriterStep(s: State): State {
    match s.writer
    case WLock => s.(mutex := Writer, writer := WTest)
    case WTest => s.(writer := if s.has == 0 then WFill else WWait)
    case WFill => s.(buffer := Stored(s.item), writer := WFlag)
    case WFlag => s.(has := 1, writer := WItem)
    case WItem => s.(item := NextItem(s.item), writer := WSignal)
    case WSignal => s.(writer := WUnlock, reader := if s.reader == RAsleep then RAwake else s.reader)
    case WWait => s.(mutex := Nobody, writer := WAsleep)
    case WAsleep => s
    case WAwake => s.(mutex := Writer, writer := WUnlock)
    case WUnlock => s.(mutex := Nobody, writer := WLock)
  }

  /** The state after the reader's next statement, if it is ready. */
  function ReaderStep(s: State): State {
    match s.reader
    case RLock => s.(mutex := Reader, reader := RTest)
    case RTest => s.(reader := if s.has == 1 then RTake else RWait)
    case RTake => s.(taken := s.taken + [s.buffer], reader := RFlag)
    case RFlag => s.(has := 0, reader := RSignal)
    case RSignal => s.(reader := RUnlock, writer := if s.writer == WAsleep then WAwake else s.writer)
    case RWait => s.(mutex := Nobody, reader := RAsleep)
    case RAsleep => s
    case RAwake => s.(mutex := Reader, reader := RUnlock)
    case RUnlock => s.(mutex := Nobody, reader := RLock)
  }

  ghost predicate Write(s: State, t: State) { WriterReady(s) && t == WriterStep(s) }
  ghost predicate Read(s: State, t: State) { ReaderReady(s) && t == ReaderStep(s) }

  /** A wake-up without a signal. */
  ghost predicate Spurious(s: State, t: State) {
    || (s.writer == WAsleep && t == s.(writer := WAwake))
    || (s.reader == RAsleep && t == s.(reader := RAwake))
  }

  ghost predicate Next(s: State, t: State) { Write(s, t) || Read(s, t) || Spurious(s, t) }

  ghost predicate IsRun(run: seq<State>) {
    run != [] && Initial(run[0]) && forall i | 0 <= i < |run| - 1 :: Next(run[i], run[i + 1])
  }

  // ---------- the invariant ----------

  ghost predicate WriterHolds(s: State) { s.writer in {WTest, WFill, WFlag, WItem, WSignal, WWait, WUnlock} }
  ghost predicate ReaderHolds(s: State) { s.reader in {RTest, RTake, RFlag, RSignal, RWait, RUnlock} }

  /** The mutex is held by the thread that is between lock and unlock. */
  ghost predicate Exclusive(s: State) {
    && (WriterHolds(s) <==> s.mutex == Writer) && (ReaderHolds(s) <==> s.mutex == Reader)
    && (s.has == 0 || s.has == 1)
    && (s.writer in {WFill, WFlag} ==> s.has == 0) && (s.writer in {WItem, WSignal, WWait} ==> s.has == 1)
    && (s.reader in {RTake, RFlag} ==> s.has == 1) && (s.reader in {RSignal, RWait} ==> s.has == 0)
  }

  /** A thread sleeps only while the slot is as it found it, or the other is about to signal. */
  ghost predicate NoLostSignal(s: State) {
    && (s.writer == WAsleep ==> s.has == 1 || s.reader == RSignal)
    && (s.reader == RAsleep ==> s.has == 0 || s.writer in {WItem, WSignal})
  }

  /** `n` items have been put into the slot: the flag accounts for the last of them, and all before it have been
      taken. */
  ghost predicate Counted(s: State, n: nat) {
    && s.item == Item(if s.writer == WItem then n - 1 else n)
    && n == |s.taken| + (if s.reader == RFlag then 0 else s.has)
    && (s.writer == WFlag ==> s.buffer == n % 256) && (s.has == 1 && n > 0 ==> s.buffer == (n - 1) % 256)
    && (forall k | 0 <= k < |s.taken| :: s.taken[k] == k % 256)
    && (s.writer == WItem ==> n > 0)
  }

  /** Item number `n` as a signed `char`. */
  function Item(n: int): int { (n + 128) % 256 - 128 }

  ghost predicate Inv(s: State, n: nat) { Exclusive(s) && NoLostSignal(s) && Counted(s, n) }

  function Put(s: State, t: State, n: nat): nat { if s.writer == WFlag && t.writer == WItem then n + 1 else n }

  lemma ItemStep(n: nat)
    ensures NextItem(Item(n)) == Item(n + 1) && Stored(Item(n)) == n % 256
  {
  }

  lemma Begin(s: State)
    requires Initial(s)
    ensures Inv(s, 0)
  {
  }

  lemma WriteKeeps(s: State, t: State, n: nat)
    requires Inv(s, n) && Write(s, t)
    ensures Inv(t, Put(s, t, n))
  {
    ItemStep(n);
    if n > 0 { ItemStep(n - 1); }
  }

  lemma ReadKeeps(s: State, t: State, n: nat)
    requires Inv(s, n) && Read(s, t)
    ensures Inv(t, n)
  {
  }

  lemma SpuriousKeeps(s: State, t: State, n: nat)
    requires Inv(s, n) && Spurious(s, t)
    ensures Inv(t, n)
  {
  }

  /** Every state of every run satisfies the invariant. */
  lemma {:induction false} Reached(run: seq<State>, i: nat) returns (n: nat)
    requires IsRun(run) && i < |run|
    ensures Inv(run[i], n)
  {
    if i == 0 {
      Begin(run[0]);
      n := 0;
    } else {
      n := Reached(run, i - 1);
      var s, t := run[i - 1], run[i];
      assert Next(s, run[i - 1 + 1]);
      if Write(s, t) {
        WriteKeeps(s, t, n);
        n := Put(s, t, n);
      } else if Read(s, t) {
        ReadKeeps(s, t, n);
      } else {
        SpuriousKeeps(s, t, n);
      }
    }
  }

  /** The threads are never both between lock and unlock. */
  lemma MutualExclusion(run: seq<State>, i: nat)
    requires IsRun(run) && i < |run|
    ensures !(WriterHolds(run[i]) && ReaderHolds(run[i]))
  {
    var n := Reached(run, i);
  }

  /** Each item is taken once, and in order: the `k`-th is `k` modulo 256. */
  lemma InOrder(run: seq<State>, i: nat, k: nat)
    requires IsRun(run) && i < |run| && k < |run[i].taken|
    ensures run[i].taken[k] == k % 256
  {
    var n := Reached(run, i);
  }

  /** No wake-up is lost: the threads never sleep both, and the writer does not sleep over an empty slot, nor the reader
      over a full one, unless the other one is about to signal. */
  lemma NobodyStuck(run: seq<State>, i: nat)
    requires IsRun(run) && i < |run|
    ensures !(run[i].writer == WAsleep && run[i].reader == RAsleep)
    ensures run[i].writer == WAsleep && run[i].has == 0 ==> run[i].reader == RSignal
    ensures run[i].reader == RAsleep && run[i].has == 1 ==> run[i].writer in {WItem, WSignal}
  {
    var n := Reached(run, i);
  }

  /** Some thread can always go on without a spurious wake-up. */
  lemma Progress(run: seq<State>, i: nat) returns (t: State)
    requires IsRun(run) && i < |run|
    ensures Write(run[i], t) || Read(run[i], t)
  {
    var n := Reached(run, i);
    var s := run[i];
    t := if WriterReady(s) then WriterStep(s) else ReaderStep(s);
  }
}

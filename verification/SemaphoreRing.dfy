/** The producer and the consumer that share a ring of 100 slots under two semaphores, as a transition system over all
    interleavings of their statements. */
module SemaphoreRing {
  const NUM: nat := 100

  datatype ProducerAt = WaitBlank | Write | Report | PostProduct | MoveIn
  datatype ConsumerAt = WaitProduct | Read | Clear | PostBlank | MoveOut

  /** The shared variables, the two threads' own ones, and what the consumer has printed. */
  datatype State = State(blank: nat, product: nat, queue: seq<int>, producer: ProducerAt, p: nat, item: nat,
                         consumer: ConsumerAt, c: nat, printed: seq<int>)

  ghost predicate Initial(s: State) {
    && s.blank == NUM && s.product == 0 && |s.queue| == NUM && s.producer == WaitBlank && s.p == 0 && s.item == 0
    && s.consumer == WaitProduct && s.c == 0 && s.printed == []
  }

  /** A thread cannot go on while it waits for a semaphore that is zero. */
  predicate ProducerReady(s: State) { s.producer == WaitBlank ==> s.blank > 0 }
  predicate ConsumerReady(s: State) { s.consumer == WaitProduct ==> s.product > 0 }

  predicate InRange(s: State) { |s.queue| == NUM && s.p < NUM && s.c < NUM }

  /** The state after the producer's next statement. */
  function ProducerStep(s: State): State
    requires ProducerReady(s) && InRange(s)
  {
    match s.producer
    case WaitBlank => s.(blank := s.blank - 1, producer := Write)
    case Write => s.(queue := s.queue[s.p := s.item], item := if s.item + 1 == 1000 then 0
      else s.item + 1, producer := Report)
    case Report => s.(producer := PostProduct)
    case PostProduct => s.(product := s.product + 1, producer := MoveIn)
    case MoveIn => s.(p := (s.p + 1) % NUM, producer := WaitBlank)
  }

  /** The state after the consumer's next statement. */
  function ConsumerStep(s: State): State
    requires ConsumerReady(s) && InRange(s)
  {
    match s.consumer
    case WaitProduct => s.(product := s.product - 1, consumer := Read)
    case Read => s.(printed := s.printed + [s.queue[s.c]], consumer := Clear)
    case Clear => s.(queue := s.queue[s.c := 0], consumer := PostBlank)
    case PostBlank => s.(blank := s.blank + 1, consumer := MoveOut)
    case MoveOut => s.(c := (s.c + 1) % NUM, consumer := WaitProduct)
  }

  ghost predicate Produce(s: State, t: State) { ProducerReady(s) && InRange(s) && t == ProducerStep(s) }
  ghost predicate Consume(s: State, t: State) { ConsumerReady(s) && InRange(s) && t == ConsumerStep(s) }

  ghost predicate Next(s: State, t: State) { Produce(s, t) || Consume(s, t) }

  ghost predicate IsRun(run: seq<State>) {
    run != [] && Initial(run[0]) && forall i | 0 <= i < |run| - 1 :: Next(run[i], run[i + 1])
  }

  /** A slot the producer has taken and not yet handed over; likewise for the consumer. */
  function Filling(s: State): nat { if s.producer in {Write, Report, PostProduct} then 1 else 0 }
  function Emptying(s: State): nat { if s.consumer in {Read, Clear, PostBlank} then 1 else 0 }

  /** The statements that touch the queue. */
  ghost predicate Touches(s: State, slot: nat, producing: bool) {
    if producing then s.producer in {Write, Report} && slot == s.p else s.consumer in {Read, Clear} && slot == s.c
  }

  /** How many items have been handed over, and how many slots given back, when `posted` and `freed` say so. */
  ghost predicate Counted(s: State, posted: nat, freed: nat) {
    && freed + s.product + Emptying(s) == posted
    && posted + s.blank + Filling(s) == freed + NUM
    && s.p == (if s.producer == MoveIn then (posted - 1) % NUM else posted % NUM)
    && s.c == (if s.consumer == MoveOut then (freed - 1) % NUM else freed % NUM)
    && s.item == (posted + (if s.producer in {Report, PostProduct} then 1 else 0)) % 1000
    && |s.printed| == freed + (if s.consumer in {Clear, PostBlank} then 1 else 0)
    && (s.producer == MoveIn ==> posted > 0) && (s.consumer == MoveOut ==> freed > 0)
  }

  /** The first item not cleared yet, and the first not written yet. */
  function Oldest(s: State, freed: nat): nat { if s.consumer == PostBlank then freed + 1 else freed }
  function Unwritten(s: State, posted: nat): nat { if s.producer in {Report, PostProduct} then posted + 1 else posted }

  /** Items number `lo` up to `hi` are in their slots. */
  ghost predicate Stored(queue: seq<int>, lo: nat, hi: nat) {
    |queue| == NUM && forall k | lo <= k < hi :: queue[k % NUM] == k % 1000
  }

  ghost predicate Inv(s: State, posted: nat, freed: nat) {
    && Counted(s, posted, freed) && Stored(s.queue, Oldest(s, freed), Unwritten(s, posted))
    && forall k | 0 <= k < |s.printed| :: s.printed[k] == k % 1000
  }

  /** The items handed over and the slots given back after a statement. */
  function PostedAfter(s: State, t: State, posted: nat): nat {
    if s.producer == PostProduct && t.producer == MoveIn then posted + 1 else posted
  }
  function FreedAfter(s: State, t: State, freed: nat): nat {
    if s.consumer == PostBlank && t.consumer == MoveOut then freed + 1 else freed
  }

  lemma Distinct(a: nat, b: nat)
    requires a < b < a + NUM
    ensures a % NUM != b % NUM
  {
  }

  lemma NextSlot(n: nat)
    ensures n > 0 ==> ((n - 1) % NUM + 1) % NUM == n % NUM
  {
  }

  lemma NextItem(n: nat)
    ensures (n + 1) % 1000 == if n % 1000 + 1 == 1000 then 0 else n % 1000 + 1
  {
  }

  lemma Begin(s: State)
    requires Initial(s)
    ensures Inv(s, 0, 0)
  {
  }

  lemma ProduceKeeps(s: State, t: State, posted: nat, freed: nat)
    requires Inv(s, posted, freed) && Produce(s, t)
    ensures Inv(t, PostedAfter(s, t, posted), FreedAfter(s, t, freed))
  {
    NextSlot(posted);
    NextItem(posted);
    if s.producer == Write { WriteKeeps(s.queue, Oldest(s, freed), posted); }
  }

  lemma WriteKeeps(queue: seq<int>, lo: nat, n: nat)
    requires Stored(queue, lo, n) && n < lo + NUM
    ensures Stored(queue[n % NUM := n % 1000], lo, n + 1)
  {
    forall k | lo <= k < n + 1 ensures queue[n % NUM := n % 1000][k % NUM] == k % 1000 { if k < n { Distinct(k, n); } }
  }

  lemma ConsumeKeeps(s: State, t: State, posted: nat, freed: nat)
    requires Inv(s, posted, freed) && Consume(s, t)
    ensures Inv(t, PostedAfter(s, t, posted), FreedAfter(s, t, freed))
  {
    NextSlot(freed);
    if s.consumer == Clear { ClearKeeps(s.queue, freed, Unwritten(s, posted)); }
  }

  lemma ClearKeeps(queue: seq<int>, lo: nat, hi: nat)
    requires Stored(queue, lo, hi) && hi <= lo + NUM
    ensures Stored(queue[lo % NUM := 0], lo + 1, hi)
  {
    forall k | lo + 1 <= k < hi ensures queue[lo % NUM := 0][k % NUM] == k % 1000 { Distinct(lo, k); }
  }

  /** Every state of every run satisfies the invariant. */
  lemma {:induction false} Reached(run: seq<State>, i: nat) returns (posted: nat, freed: nat)
    requires IsRun(run) && i < |run|
    ensures Inv(run[i], posted, freed)
  {
    if i == 0 {
      Begin(run[0]);
      posted, freed := 0, 0;
    } else {
      var m, n := Reached(run, i - 1);
      assert Next(run[i - 1], run[i - 1 + 1]);
      if Produce(run[i - 1], run[i]) {
        ProduceKeeps(run[i - 1], run[i], m, n);
      } else {
        ConsumeKeeps(run[i - 1], run[i], m, n);
      }
      posted, freed := PostedAfter(run[i - 1], run[i], m), FreedAfter(run[i - 1], run[i], n);
    }
  }

  /** The slots are conserved: free, full, or in a thread's hands. */
  lemma SlotsConserved(run: seq<State>, i: nat)
    requires IsRun(run) && i < |run|
    ensures var s := run[i]; s.blank + s.product + Filling(s) + Emptying(s) == NUM
  {
    var posted, freed := Reached(run, i);
  }

  /** The threads never work on the same slot at once. */
  lemma NoSharedSlot(run: seq<State>, i: nat, slot: nat)
    requires IsRun(run) && i < |run|
    ensures !(Touches(run[i], slot, true) && Touches(run[i], slot, false))
  {
    var posted, freed := Reached(run, i);
    if Touches(run[i], slot, true) && Touches(run[i], slot, false) { Distinct(freed, posted); }
  }

  /** The values come out once each and in order: the `k`-th is `k` modulo 1000. */
  lemma InOrder(run: seq<State>, i: nat, k: nat)
    requires IsRun(run) && i < |run| && k < |run[i].printed|
    ensures run[i].printed[k] == k % 1000
  {
    var posted, freed := Reached(run, i);
  }

  /** Some thread can always go on. */
  lemma Progress(run: seq<State>, i: nat) returns (t: State)
    requires IsRun(run) && i < |run|
    ensures Next(run[i], t)
  {
    var posted, freed := Reached(run, i);
    var s := run[i];
    t := if ProducerReady(s) then ProducerStep(s) else ConsumerStep(s);
  }
}

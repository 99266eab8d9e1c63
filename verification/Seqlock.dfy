/**
 The shared record: one publisher and any number of readers, interleaved one word at a time.

 Words are stored and copied in any order, since the source writes and reads the record with one block copy. The
 model starts from an initialised mapping and assumes that single-word loads and stores are sequentially consistent.
 */
module Seqlock {
  import opened Basics
  import Published = SharedRecord

  const WORDS: nat := 58
  const VERSION: nat := 0
  const REVISION: nat := 1
  const SEQUENCE: nat := 2
  const ATTEMPTS: nat := 8

  type Record = r: seq<u32> | |r| == WORDS witness seq(WORDS, _ => 0)

  function WrappingAdd(a: u32, b: nat): u32 {
    (a + b) % U32_SPAN
  }

  /** The record written for a reading: stamped with the writer's own version and revision. */
  function Stamp(reading: Record, sequence: u32): Record {
    reading[VERSION := Published.LAYOUT_VERSION][REVISION := Published.HELPER_REVISION][SEQUENCE := sequence]
  }

  predicate IsWord(i: nat) {
    i < WORDS
  }

  function AllWords(): set<nat> {
    set i: nat | i < WORDS && IsWord(i)
  }

  datatype Writer =
    | Resting
    | Loaded(reading: Record, next: u32)
    | Writing(payload: Record, pending: set<nat>)

  /** Where a reader is within `read`: between calls, about to start attempt `n`, or copying during attempt `n`. */
  datatype Place =
    | Outside
    | Starting(n: nat)
    | Copying(n: nat, before: u32, copied: map<nat, u32>)

  /** A finished call: the record returned and its place in the log of settled records, or nothing. */
  datatype Result = Gave(at: nat, record: Record) | GaveUp

  /** `begun` is the number of sequence stores made before the current attempt read the sequence. */
  datatype Reader = Reader(place: Place, begun: nat, results: seq<Result>)

  /**
   `stores` counts the publisher's stores to the sequence word, and `log` holds every record that has been settled,
   the initial one first. Neither is visible to the program.
   */
  datatype State = State(mem: Record, writer: Writer, stores: nat, log: seq<Record>, readers: map<nat, Reader>)

  datatype Step =
    | PublishLoad(reading: Record)
    | PublishRaise
    | PublishStore(i: nat)
    | PublishSettle
    | ReadCall(id: nat)
    | ReadStart(id: nat)
    | ReadCopy(id: nat, i: nat)
    | ReadCheck(id: nat)

  predicate Initial(s: State) {
    && s.mem == Stamp(s.mem, 0)
    && s.writer == Resting && s.stores == 0 && s.log == [s.mem]
    && forall id | id in s.readers :: s.readers[id] == Reader(Outside, 0, [])
  }

  predicate Enabled(s: State, step: Step) {
    s.log != [] &&
    match step
    case PublishLoad(_) => s.writer.Resting?
    case PublishRaise => s.writer.Loaded?
    case PublishStore(i) => s.writer.Writing? && i in s.writer.pending && i < WORDS
    case PublishSettle => s.writer.Writing? && s.writer.pending == {}
    case ReadCall(id) => id in s.readers && s.readers[id].place.Outside?
    case ReadStart(id) => id in s.readers && s.readers[id].place.Starting?
    case ReadCopy(id, i) =>
      id in s.readers && s.readers[id].place.Copying? && i < WORDS && i !in s.readers[id].place.copied
    case ReadCheck(id) =>
      id in s.readers && s.readers[id].place.Copying? && s.readers[id].place.copied.Keys == AllWords()
  }

  /** The attempt has failed: start the next one, or give up after the last. */
  function Retry(r: Reader, n: nat): Reader {
    if n + 1 < ATTEMPTS then r.(place := Starting(n + 1)) else r.(place := Outside, results := r.results + [GaveUp])
  }

  function Snapshot(copied: map<nat, u32>): Record
    requires copied.Keys == AllWords()
  {
    seq(WORDS, i requires 0 <= i < WORDS => assert i in AllWords(); copied[i])
  }

  function ReaderNext(s: State, r: Reader, step: Step): Reader
    requires step.ReadCall? || step.ReadStart? || step.ReadCopy? || step.ReadCheck?
    requires Enabled(s, step) && r == s.readers[step.id]
  {
    match step
    case ReadCall(_) => r.(place := Starting(0))
    case ReadStart(_) =>
      if s.mem[SEQUENCE] % 2 != 0 then Retry(r, r.place.n)
      else r.(place := Copying(r.place.n, s.mem[SEQUENCE], map[]), begun := s.stores)
    case ReadCopy(_, i) => r.(place := r.place.(copied := r.place.copied[i := s.mem[i]]))
    case ReadCheck(_) =>
      if s.mem[SEQUENCE] == r.place.before
      then r.(place := Outside, results := r.results + [Gave(|s.log| - 1, Snapshot(r.place.copied))])
      else Retry(r, r.place.n)
  }

  function Next(s: State, step: Step): State
    requires Enabled(s, step)
  {
    match step
    case PublishLoad(reading) =>
      s.(writer := Loaded(reading, WrappingAdd(s.mem[SEQUENCE], 1)))
    case PublishRaise =>
      s.(mem := s.mem[SEQUENCE := s.writer.next], stores := s.stores + 1,
         writer := Writing(Stamp(s.writer.reading, s.writer.next), AllWords()))
    case PublishStore(i) =>
      s.(mem := s.mem[i := s.writer.payload[i]], writer := s.writer.(pending := s.writer.pending - {i}))
    case PublishSettle =>
      var settled := s.mem[SEQUENCE := WrappingAdd(s.writer.payload[SEQUENCE], 1)];
      s.(mem := settled, stores := s.stores + 1, writer := Resting, log := s.log + [settled])
    case _ =>
      s.(readers := s.readers[step.id := ReaderNext(s, s.readers[step.id], step)])
  }

  // ---- The invariant ----

  /** The publisher's view: what memory holds at each point of a publish. */
  predicate WriterInv(s: State) {
    && s.log != []
    && s.mem[SEQUENCE] == s.stores % U32_SPAN
    && match s.writer
       case Resting => s.stores == 2 * (|s.log| - 1) && s.mem == Last(s.log)
       case Loaded(_, next) =>
         s.stores == 2 * (|s.log| - 1) && s.mem == Last(s.log) && next == (s.stores + 1) % U32_SPAN
       case Writing(payload, pending) =>
         && s.stores == 2 * (|s.log| - 1) + 1
         && payload == Stamp(payload, s.stores % U32_SPAN)
         && forall i: nat | i < WORDS && i !in pending :: s.mem[i] == payload[i]
  }

  /** Every settled record is stamped, by its writer and by its place in the log. */
  predicate LogInv(s: State) {
    forall p | 0 <= p < |s.log| :: s.log[p] == Stamp(s.log[p], (2 * p) % U32_SPAN)
  }

  /** While no publish has begun since the attempt did, everything copied is still what memory holds. */
  predicate CopyInv(s: State, r: Reader) {
    r.place.Copying? ==>
      && r.begun <= s.stores && r.begun % 2 == 0 && r.place.before == r.begun % U32_SPAN
      && (r.begun == s.stores ==> forall i: nat | i in r.place.copied && i < WORDS :: r.place.copied[i] == s.mem[i])
  }

  predicate Inv(s: State) {
    WriterInv(s) && LogInv(s) && forall id | id in s.readers :: CopyInv(s, s.readers[id])
  }

  lemma {:induction false} InitialInv(s: State)
    requires Initial(s)
    ensures Inv(s)
  {
  }

  lemma {:induction false} StoresKeepParity(n: nat)
    ensures (n % U32_SPAN) % 2 == n % 2
    ensures (n % U32_SPAN + 1) % U32_SPAN == (n + 1) % U32_SPAN
  {
    var q, r := n / U32_SPAN, n % U32_SPAN;
    assert n == 0x1_0000_0000 * q + r;
    assert n % 2 == r % 2 by {
      assert n == 2 * (0x8000_0000 * q) + r;
    }
    if r + 1 < U32_SPAN {
      assert n + 1 == 0x1_0000_0000 * q + (r + 1);
    } else {
      assert n + 1 == 0x1_0000_0000 * (q + 1);
    }
  }

  lemma {:induction false} WriterKeepsWriterInv(s: State, step: Step)
    requires Inv(s) && Enabled(s, step)
    ensures WriterInv(Next(s, step)) && LogInv(Next(s, step))
  {
    StoresKeepParity(s.stores);
    if step.PublishSettle? {
      var t := Next(s, step);
      var payload := s.writer.payload;
      assert s.mem == payload;
      assert t.mem == Stamp(payload, t.stores % U32_SPAN);
      forall p | 0 <= p < |t.log| ensures t.log[p] == Stamp(t.log[p], (2 * p) % U32_SPAN) {
        if p < |s.log| {
          assert t.log[p] == s.log[p];
        }
      }
    }
  }

  lemma {:induction false} StepKeepsCopyInv(s: State, step: Step, id: nat)
    requires Inv(s) && Enabled(s, step) && id in s.readers
    ensures CopyInv(Next(s, step), Next(s, step).readers[id])
  {
    StoresKeepParity(s.stores);
    assert CopyInv(s, s.readers[id]);
  }

  /** Every step keeps the invariant, wherever the publisher and each reader are. */
  lemma {:induction false} StepKeepsInv(s: State, step: Step)
    requires Inv(s) && Enabled(s, step)
    ensures Inv(Next(s, step))
  {
    WriterKeepsWriterInv(s, step);
    forall id | id in Next(s, step).readers ensures CopyInv(Next(s, step), Next(s, step).readers[id]) {
      StepKeepsCopyInv(s, step, id);
    }
  }

  /** The sequence is odd exactly while a record is being written. */
  lemma {:induction false} SequenceIsOddExactlyWhileWriting(s: State)
    requires Inv(s)
    ensures s.mem[SEQUENCE] % 2 != 0 <==> s.writer.Writing?
  {
    StoresKeepParity(s.stores);
  }

  // ---- Runs ----

  /** A run: states joined by enabled steps, in any interleaving. */
  predicate IsRun(states: seq<State>, steps: seq<Step>) {
    && |states| == |steps| + 1
    && Initial(states[0])
    && forall i | 0 <= i < |steps| :: Enabled(states[i], steps[i]) && states[i + 1] == Next(states[i], steps[i])
  }

  /** The publishes begun by the time so many stores have been made to the sequence. */
  function Begun(stores: nat): nat {
    (stores + 1) / 2
  }

  /** Fewer than 2^31 publishes have begun during the reader's attempt, so the sequence has not come round. */
  predicate NotComeRound(s: State, id: nat) {
    id in s.readers && s.readers[id].place.Copying? ==> Begun(s.stores) - Begun(s.readers[id].begun) < U32_SPAN / 2
  }

  lemma {:induction false} RunKeepsInv(states: seq<State>, steps: seq<Step>, i: nat)
    requires IsRun(states, steps) && i < |states|
    ensures Inv(states[i])
  {
    if i == 0 {
      InitialInv(states[0]);
    } else {
      RunKeepsInv(states, steps, i - 1);
      StepKeepsInv(states[i - 1], steps[i - 1]);
    }
  }

  /** Fewer than 2^31 publishes begun since an even number of stores are fewer than 2^32 stores. */
  lemma {:induction false} TwoStoresAPublish(stores: nat, begun: nat)
    requires begun % 2 == 0 && begun <= stores && Begun(stores) - Begun(begun) < U32_SPAN / 2
    ensures stores - begun < U32_SPAN
  {
  }

  lemma {:induction false} EqualUpToWrap(a: nat, b: nat)
    requires a <= b < a + U32_SPAN && a % U32_SPAN == b % U32_SPAN
    ensures a == b
  {
    var p, q, r := a / U32_SPAN, b / U32_SPAN, a % U32_SPAN;
    assert a == 0x1_0000_0000 * p + r && b == 0x1_0000_0000 * q + r;
    assert b - a == 0x1_0000_0000 * (q - p);
  }

  /** The final check passes exactly when no store to the sequence was made since the attempt began. */
  lemma {:induction false} CheckPassesExactlyWhenUndisturbed(s: State, id: nat)
    requires Inv(s) && NotComeRound(s, id) && Enabled(s, ReadCheck(id))
    ensures s.mem[SEQUENCE] == s.readers[id].place.before <==> s.stores == s.readers[id].begun
  {
    var r := s.readers[id];
    assert CopyInv(s, r);
    TwoStoresAPublish(s.stores, r.begun);
    if s.mem[SEQUENCE] == r.place.before {
      EqualUpToWrap(r.begun, s.stores);
    }
  }

  /** What a passing check returns is all of memory, and memory is the newest settled record. */
  lemma {:induction false} AcceptedIsNewest(s: State, id: nat)
    requires Inv(s) && NotComeRound(s, id) && Enabled(s, ReadCheck(id))
    requires s.mem[SEQUENCE] == s.readers[id].place.before
    ensures Snapshot(s.readers[id].place.copied) == s.mem == Last(s.log) && !s.writer.Writing?
  {
    CheckPassesExactlyWhenUndisturbed(s, id);
    var r := s.readers[id];
    assert CopyInv(s, r);
    var snap := Snapshot(r.place.copied);
    forall i | 0 <= i < WORDS ensures snap[i] == s.mem[i] {
      assert IsWord(i) && i in AllWords();
    }
    assert snap == s.mem;
  }

  /** The final check gives the newest settled record, or has the reader try again. */
  lemma {:induction false} CheckGivesTheNewest(s: State, id: nat)
    requires Inv(s) && NotComeRound(s, id) && Enabled(s, ReadCheck(id))
    ensures
      var before, t := s.readers[id], Next(s, ReadCheck(id));
      && t.log == s.log && id in t.readers
      && t.readers[id] == if s.mem[SEQUENCE] != before.place.before then Retry(before, before.place.n)
                          else before.(place := Outside, results := before.results + [Gave(|s.log| - 1, Last(s.log))])
    ensures s.mem[SEQUENCE] == s.readers[id].place.before ==> Snapshot(s.readers[id].place.copied) == Last(s.log)
    ensures s.mem[SEQUENCE] != s.readers[id].place.before ==> s.readers[id].begun < s.stores
  {
    assert CopyInv(s, s.readers[id]);
    if s.mem[SEQUENCE] == s.readers[id].place.before {
      AcceptedIsNewest(s, id);
    }
  }

  // ---- What calls return ----

  /** Every record returned is a settled one, and one reader's records never go back in time. */
  predicate ResultsInv(s: State, r: Reader) {
    && (forall q | 0 <= q < |r.results| && r.results[q].Gave? ::
          r.results[q].at < |s.log| && r.results[q].record == s.log[r.results[q].at])
    && (forall p, q | 0 <= p < q < |r.results| && r.results[p].Gave? && r.results[q].Gave? ::
          r.results[p].at <= r.results[q].at)
  }

  lemma {:induction false} StepKeepsResultsInv(s: State, step: Step, id: nat)
    requires Inv(s) && NotComeRound(s, id) && Enabled(s, step) && id in s.readers && ResultsInv(s, s.readers[id])
    ensures ResultsInv(Next(s, step), Next(s, step).readers[id])
  {
    if step == ReadCheck(id) && s.mem[SEQUENCE] == s.readers[id].place.before {
      AcceptedIsNewest(s, id);
    }
  }

  predicate NeverComesRound(states: seq<State>) {
    forall i, id: nat | 0 <= i < |states| && id in states[i].readers :: NotComeRound(states[i], id)
  }

  /** In every interleaving, every call returns one whole settled record, and no reader ever goes back in time. */
  lemma {:induction false} ReadersOnlyMoveForward(states: seq<State>, steps: seq<Step>, i: nat, id: nat)
    requires IsRun(states, steps) && NeverComesRound(states) && i < |states| && id in states[0].readers
    ensures id in states[i].readers && ResultsInv(states[i], states[i].readers[id])
  {
    if i > 0 {
      ReadersOnlyMoveForward(states, steps, i - 1, id);
      RunKeepsInv(states, steps, i - 1);
      StepKeepsResultsInv(states[i - 1], steps[i - 1], id);
    }
  }

  /** Reader `id` copies throughout the states after `a` up to `j`, in the one attempt started by step `a`. */
  predicate OneAttempt(states: seq<State>, steps: seq<Step>, a: nat, j: nat, id: nat) {
    && IsRun(states, steps) && a < j < |steps|
    && steps[a] == ReadStart(id)
    && (forall k | a < k <= j :: id in states[k].readers && states[k].readers[id].place.Copying?)
    && (forall k | a < k < j :: steps[k] != ReadStart(id))
  }

  /** A copying reader is in an attempt that some earlier step started. */
  lemma {:induction false} AttemptHasAStart(states: seq<State>, steps: seq<Step>, j: nat, id: nat) returns (a: nat)
    requires IsRun(states, steps) && j < |steps| && id in states[j].readers && states[j].readers[id].place.Copying?
    ensures OneAttempt(states, steps, a, j, id)
  {
    a := j - 1;
    var before := states[j - 1].readers;
    if steps[j - 1] != ReadStart(id) {
      assert id in before && before[id].place.Copying?;
      a := AttemptHasAStart(states, steps, j - 1, id);
    }
  }

  /** Settled records are never taken back, so what a call returns is no older than what was settled when it began. */
  lemma {:induction false} LogOnlyGrows(states: seq<State>, steps: seq<Step>, i: nat, j: nat)
    requires IsRun(states, steps) && i <= j < |states|
    ensures states[i].log <= states[j].log
  {
    if i < j {
      LogOnlyGrows(states, steps, i, j - 1);
    }
  }

  /** With an even number of stores made, the next is the raise that begins a publish. */
  lemma {:induction false} NextStoreIsARaise(s: State, step: Step)
    requires Inv(s) && Enabled(s, step)
    ensures s.stores <= Next(s, step).stores
    ensures s.stores % 2 == 0 ==> (Next(s, step).stores == s.stores <==> step != PublishRaise)
  {
  }

  /** A reader's attempt remembers when it began until the reader starts another. */
  lemma {:induction false} AttemptKeepsItsStart(s: State, step: Step, id: nat)
    requires Enabled(s, step) && id in s.readers && s.readers[id].place.Copying? && step != ReadStart(id)
    ensures id in Next(s, step).readers && Next(s, step).readers[id].begun == s.readers[id].begun
  {
  }

  /** An attempt copies only after finding an even sequence, and remembers how many stores had been made. */
  lemma {:induction false} AttemptStartsEven(s: State, id: nat)
    requires Inv(s) && Enabled(s, ReadStart(id)) && Next(s, ReadStart(id)).readers[id].place.Copying?
    ensures s.stores % 2 == 0
    ensures Next(s, ReadStart(id)).readers[id].begun == s.stores == Next(s, ReadStart(id)).stores
  {
    StoresKeepParity(s.stores);
  }

  /** From an even number of stores on, none is made until a publish raises the sequence. */
  lemma {:induction false} StoresSince(states: seq<State>, steps: seq<Step>, a: nat, k: nat)
    requires IsRun(states, steps) && a <= k < |states| && states[a].stores % 2 == 0
    ensures states[a].stores <= states[k].stores
    ensures states[k].stores == states[a].stores <==> forall l | a <= l < k :: steps[l] != PublishRaise
  {
    if a < k {
      StoresSince(states, steps, a, k - 1);
      RunKeepsInv(states, steps, k - 1);
      NextStoreIsARaise(states[k - 1], steps[k - 1]);
    }
  }

  lemma {:induction false} AttemptBegun(states: seq<State>, steps: seq<Step>, a: nat, j: nat, id: nat, k: nat)
    requires OneAttempt(states, steps, a, j, id) && a < k <= j
    ensures states[k].readers[id].begun == states[a].stores && states[a].stores % 2 == 0
  {
    if k == a + 1 {
      RunKeepsInv(states, steps, a);
      assert states[k] == Next(states[a], ReadStart(id)) && states[k].readers[id].place.Copying?;
      AttemptStartsEven(states[a], id);
    } else {
      AttemptBegun(states, steps, a, j, id, k - 1);
      AttemptKeepsItsStart(states[k - 1], steps[k - 1], id);
    }
  }

  /** During one attempt, the sequence is as the attempt found it until a publish raises it. */
  lemma {:induction false} StoresDuringAttempt(states: seq<State>, steps: seq<Step>, a: nat, j: nat, id: nat, k: nat)
    requires OneAttempt(states, steps, a, j, id) && a < k <= j
    ensures states[k].readers[id].begun == states[a].stores <= states[k].stores && states[a].stores % 2 == 0
    ensures states[k].stores == states[a].stores <==> forall l | a < l < k :: steps[l] != PublishRaise
  {
    AttemptBegun(states, steps, a, j, id, k);
    StoresSince(states, steps, a, k);
    assert steps[a] != PublishRaise;
  }

  /** Until then, memory is the newest settled record, and no record is settled. */
  lemma {:induction false} UndisturbedMemory(states: seq<State>, steps: seq<Step>, a: nat, j: nat, id: nat, k: nat)
    requires OneAttempt(states, steps, a, j, id) && a < k <= j
    requires forall l | a < l < k :: steps[l] != PublishRaise
    ensures states[k].mem == Last(states[a].log) && states[k].log == states[a].log != []
  {
    StoresDuringAttempt(states, steps, a, j, id, k);
    RunKeepsInv(states, steps, a);
    RunKeepsInv(states, steps, k);
    LogOnlyGrows(states, steps, a, k);
  }

  /** The call that ended with these results was given a record. */
  predicate Accepted(before: seq<Result>, after: seq<Result>) {
    |after| == |before| + 1 && Last(after).Gave?
  }

  /** An attempt is accepted exactly when no publish began during it; then it returns what memory held throughout. */
  lemma {:induction false} AttemptIsAcceptedExactlyWhenUndisturbed(
    states: seq<State>, steps: seq<Step>, a: nat, j: nat, id: nat)
    requires OneAttempt(states, steps, a, j, id) && steps[j] == ReadCheck(id) && NeverComesRound(states)
    ensures id in states[j + 1].readers
    ensures
      var before, after := states[j].readers[id].results, states[j + 1].readers[id].results;
      && (Accepted(before, after) <==> forall k | a < k < j :: steps[k] != PublishRaise)
      && (Accepted(before, after) ==>
            forall k | a < k <= j :: Last(after).record == states[k].mem == Last(states[k].log))
  {
    StoresDuringAttempt(states, steps, a, j, id, j);
    RunKeepsInv(states, steps, j);
    CheckPassesExactlyWhenUndisturbed(states[j], id);
    if states[j].stores == states[a].stores {
      AcceptedIsNewest(states[j], id);
      forall k | a < k <= j ensures states[k].mem == states[j].mem == Last(states[k].log) {
        UndisturbedMemory(states, steps, a, j, id, k);
        UndisturbedMemory(states, steps, a, j, id, j);
      }
    }
  }

  /** Every record a call returns was the newest settled one at an instant, within that call, when memory held it. */
  lemma {:induction false} EveryResultWasNewest(states: seq<State>, steps: seq<Step>, i: nat, id: nat, q: nat)
    returns (j: nat)
    requires IsRun(states, steps) && NeverComesRound(states) && i < |states| && id in states[i].readers
    requires q < |states[i].readers[id].results| && states[i].readers[id].results[q].Gave?
    ensures j < i && id in states[j].readers && |states[j].readers[id].results| == q
    ensures !states[j].readers[id].place.Outside?
    ensures
      var r := states[i].readers[id].results[q];
      r.record == states[j].mem == Last(states[j].log) && r.at == |states[j].log| - 1
  {
    RunKeepsInv(states, steps, i - 1);
    var before, after := states[i - 1].readers[id], states[i].readers[id];
    if q < |before.results| {
      assert before.results[q] == after.results[q];
      j := EveryResultWasNewest(states, steps, i - 1, id, q);
    } else {
      j := i - 1;
      assert steps[j] == ReadCheck(id);
      AcceptedIsNewest(states[j], id);
    }
  }

  // ---- Giving up ----

  /** At step `j`, attempt `n` of the call that will give result `q` starts while a record is being written. */
  predicate FoundAWrite(states: seq<State>, steps: seq<Step>, j: nat, id: nat, q: nat, n: nat) {
    && IsRun(states, steps) && j < |steps| && steps[j] == ReadStart(id)
    && id in states[j].readers && |states[j].readers[id].results| == q
    && states[j].readers[id].place == Starting(n) && states[j].writer.Writing?
  }

  /** Step `j` is the final check of attempt `n` of that call, and a publish began during the attempt. */
  predicate WasOvertaken(states: seq<State>, steps: seq<Step>, j: nat, id: nat, q: nat, n: nat) {
    && IsRun(states, steps) && j < |steps| && steps[j] == ReadCheck(id)
    && id in states[j].readers && |states[j].readers[id].results| == q
    && states[j].readers[id].place.Copying? && states[j].readers[id].place.n == n
    && exists a, l | 0 <= a < l < j :: OneAttempt(states, steps, a, j, id) && steps[l] == PublishRaise
  }

  /** By state `i`, attempt `n` of the call that will give result `q` had met the publisher. */
  predicate Disturbed(states: seq<State>, steps: seq<Step>, i: nat, id: nat, q: nat, n: nat) {
    exists j | 0 <= j < i :: FoundAWrite(states, steps, j, id, q, n) || WasOvertaken(states, steps, j, id, q, n)
  }

  /** The step ends attempt `n` without a record: the sequence is odd at its start, or has changed at its end. */
  predicate Fails(s: State, step: Step, id: nat, n: nat) {
    && id in s.readers
    && (|| (step == ReadStart(id) && s.readers[id].place == Starting(n) && s.mem[SEQUENCE] % 2 != 0)
        || (step == ReadCheck(id) && s.readers[id].place.Copying? && s.readers[id].place.n == n
            && s.mem[SEQUENCE] != s.readers[id].place.before))
  }

  /** Within a call, the results stay and the attempt is the same one, unless it has just failed. */
  lemma {:induction false} NextAttemptMeansFailure(s: State, step: Step, id: nat)
    requires Enabled(s, step) && id in s.readers && !Next(s, step).readers[id].place.Outside?
    ensures
      var before, after := s.readers[id], Next(s, step).readers[id];
      && after.results == before.results
      && if before.place.Outside? then after.place.n == 0
         else
           || after.place.n == before.place.n
           || (Fails(s, step, id, before.place.n) && after.place.n == before.place.n + 1)
  {
  }

  /** Results are only added, one by one, and giving up means that the last attempt has just failed. */
  lemma {:induction false} GivingUpMeansFailure(s: State, step: Step, id: nat)
    requires Enabled(s, step) && id in s.readers
    ensures
      var before, after := s.readers[id], Next(s, step).readers[id];
      && (after.results == before.results || (|after.results| > 0 && Front(after.results) == before.results))
      && (after.results != before.results && Last(after.results) == GaveUp ==>
            !before.place.Outside? && before.place.n + 1 >= ATTEMPTS && Fails(s, step, id, before.place.n))
  {
  }

  /** An attempt that fails finds a record being written, or was overtaken by a publish. */
  lemma {:induction false} FailedAttemptWasDisturbed(states: seq<State>, steps: seq<Step>, j: nat, id: nat, n: nat)
    requires IsRun(states, steps) && j < |steps| && Fails(states[j], steps[j], id, n)
    ensures Disturbed(states, steps, j + 1, id, |states[j].readers[id].results|, n)
  {
    var q := |states[j].readers[id].results|;
    RunKeepsInv(states, steps, j);
    if steps[j] == ReadStart(id) {
      SequenceIsOddExactlyWhileWriting(states[j]);
      assert FoundAWrite(states, steps, j, id, q, n);
    } else {
      var a := AttemptHasAStart(states, steps, j, id);
      StoresDuringAttempt(states, steps, a, j, id, j);
      assert CopyInv(states[j], states[j].readers[id]);
      var l :| a < l < j && steps[l] == PublishRaise;
      assert WasOvertaken(states, steps, j, id, q, n);
    }
  }

  lemma {:induction false} StillDisturbed(
    states: seq<State>, steps: seq<Step>, i: nat, k: nat, id: nat, q: nat, n: nat)
    requires Disturbed(states, steps, i, id, q, n) && i <= k
    ensures Disturbed(states, steps, k, id, q, n)
  {
    var j :| 0 <= j < i && (FoundAWrite(states, steps, j, id, q, n) || WasOvertaken(states, steps, j, id, q, n));
  }

  /** Every attempt of the current call before the present one was disturbed. */
  lemma {:induction false} EarlierAttemptsWereDisturbed(
    states: seq<State>, steps: seq<Step>, i: nat, id: nat, n: nat)
    requires IsRun(states, steps) && i < |states| && id in states[i].readers
    requires !states[i].readers[id].place.Outside? && n < states[i].readers[id].place.n
    ensures Disturbed(states, steps, i, id, |states[i].readers[id].results|, n)
  {
    var s, step := states[i - 1], steps[i - 1];
    assert states[i] == Next(s, step) && id in s.readers;
    NextAttemptMeansFailure(s, step, id);
    if n < s.readers[id].place.n {
      EarlierAttemptsWereDisturbed(states, steps, i - 1, id, n);
      StillDisturbed(states, steps, i - 1, i, id, |s.readers[id].results|, n);
    } else {
      FailedAttemptWasDisturbed(states, steps, i - 1, id, n);
    }
  }

  lemma {:induction false} JustGaveUp(states: seq<State>, steps: seq<Step>, j: nat, id: nat, n: nat)
    requires IsRun(states, steps) && j < |steps| && id in states[j].readers && n < ATTEMPTS
    requires Next(states[j], steps[j]).readers[id].results != states[j].readers[id].results
    requires Last(Next(states[j], steps[j]).readers[id].results) == GaveUp
    ensures Disturbed(states, steps, j + 1, id, |states[j].readers[id].results|, n)
  {
    GivingUpMeansFailure(states[j], steps[j], id);
    if n < states[j].readers[id].place.n {
      EarlierAttemptsWereDisturbed(states, steps, j, id, n);
      StillDisturbed(states, steps, j, j + 1, id, |states[j].readers[id].results|, n);
    } else {
      FailedAttemptWasDisturbed(states, steps, j, id, n);
    }
  }

  /** A call that gave up met the publisher in each of its eight attempts. */
  lemma {:induction false} GaveUpOnlyWhenDisturbed(
    states: seq<State>, steps: seq<Step>, i: nat, id: nat, q: nat, n: nat)
    requires IsRun(states, steps) && i < |states| && id in states[i].readers && n < 8
    requires q < |states[i].readers[id].results| && states[i].readers[id].results[q] == GaveUp
    ensures Disturbed(states, steps, i, id, q, n)
  {
    var s, step := states[i - 1], steps[i - 1];
    assert states[i] == Next(s, step) && id in s.readers;
    GivingUpMeansFailure(s, step, id);
    if q < |s.readers[id].results| {
      GaveUpOnlyWhenDisturbed(states, steps, i - 1, id, q, n);
      StillDisturbed(states, steps, i - 1, i, id, q, n);
    } else {
      JustGaveUp(states, steps, i - 1, id, n);
    }
  }

  // ---- How long a call takes ----

  /** The reader's own steps left in a call, at most. */
  function StepsLeft(p: Place): nat {
    match p
    case Outside => 0
    case Starting(n) => if n < ATTEMPTS then (ATTEMPTS - n) * (WORDS + 2) else 0
    case Copying(n, _, copied) =>
      if n < ATTEMPTS && |copied| <= WORDS then (ATTEMPTS - n - 1) * (WORDS + 2) + 1 + (WORDS - |copied|) else 0
  }

  predicate InBounds(p: Place) {
    match p
    case Outside => true
    case Starting(n) => n < ATTEMPTS
    case Copying(n, _, copied) => n < ATTEMPTS && copied.Keys <= AllWords()
  }

  lemma {:induction false} CountIsWords(n: nat)
    requires n <= WORDS
    ensures |set i: nat | i < n && IsWord(i)| == n
  {
    if n > 0 {
      CountIsWords(n - 1);
      assert (set i: nat | i < n && IsWord(i)) == (set i: nat | i < n - 1 && IsWord(i)) + {n - 1};
    }
  }

  lemma {:induction false} SubsetIsNoLarger(a: set<nat>, b: set<nat>)
    requires a <= b
    ensures |a| <= |b|
  {
    if a != {} {
      var x :| x in a;
      SubsetIsNoLarger(a - {x}, b - {x});
    }
  }

  lemma {:induction false} CopiedFits(copied: map<nat, u32>)
    requires copied.Keys <= AllWords()
    ensures |copied| <= WORDS
  {
    CountIsWords(WORDS);
    assert (set i: nat | i < WORDS && IsWord(i)) == AllWords();
    SubsetIsNoLarger(copied.Keys, AllWords());
    assert |copied| == |copied.Keys|;
  }

  lemma {:induction false} CopyingOneMore(copied: map<nat, u32>, i: nat, v: u32)
    requires copied.Keys <= AllWords() && i < WORDS && i !in copied
    ensures copied[i := v].Keys <= AllWords() && |copied[i := v]| == |copied| + 1 <= WORDS
  {
    assert IsWord(i) && copied[i := v].Keys == copied.Keys + {i};
    CopiedFits(copied[i := v]);
  }

  /** A stuck publisher cannot hang a reader: each of the reader's own steps brings the end of its call closer. */
  lemma {:induction false} CallsEnd(s: State, step: Step, id: nat)
    requires Enabled(s, step) && id in s.readers && InBounds(s.readers[id].place)
    ensures InBounds(Next(s, step).readers[id].place)
    ensures
      var before, after := StepsLeft(s.readers[id].place), StepsLeft(Next(s, step).readers[id].place);
      if step == ReadStart(id) || step == ReadCheck(id) || (step.ReadCopy? && step.id == id) then after < before
      else if step == ReadCall(id) then after <= ATTEMPTS * (WORDS + 2)
      else after == before
  {
    var p := s.readers[id].place;
    if step.ReadCopy? && step.id == id {
      CopyingOneMore(p.copied, step.i, s.mem[step.i]);
    } else if step == ReadCheck(id) {
      CopiedFits(p.copied);
    }
  }
}

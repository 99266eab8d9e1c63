/** The publisher's and the reader's own code, run against everything the other side may do between two words. */
module SharedMapping {
  import opened Basics
  import opened Seqlock
  import opened SeqlockSteps

  predicate ByPublisher(step: Step) {
    step.PublishLoad? || step.PublishRaise? || step.PublishStore? || step.PublishSettle?
  }

  /** A step that the publisher (`None`) or a reader (`Some`) does not take itself. */
  predicate ByAnother(step: Step, self: Option<nat>) {
    if ByPublisher(step) then self.Some? else self != Some(step.id)
  }

  /** The others take a step when they can; during a reader's attempt, short of the sequence coming round. */
  predicate Happens(s: State, step: Step, self: Option<nat>) {
    && Enabled(s, step) && ByAnother(step, self)
    && (self.Some? ==> NotComeRound(Next(s, step), self.value))
  }

  /** The steps of a batch that happen. */
  function Heard(s: State, batch: seq<Step>, self: Option<nat>): seq<Step>
    decreases |batch|
  {
    if batch == [] then []
    else if Happens(s, batch[0], self) then [batch[0]] + Heard(Next(s, batch[0]), batch[1..], self)
    else Heard(s, batch[1..], self)
  }

  /** What the others may have changed: a reader keeps its own place; the publisher keeps the record and the log. */
  predicate OthersMoved(s: State, t: State, self: Option<nat>) {
    && s.log <= t.log && s.stores <= t.stores && s.readers.Keys == t.readers.Keys
    && (self.Some? && self.value in s.readers ==> t.readers[self.value] == s.readers[self.value])
    && (self.None? ==> SameRecord(s, t))
  }

  /** Nothing was published, not even in part. */
  predicate SameRecord(s: State, t: State) {
    t.mem == s.mem && t.writer == s.writer && t.log == s.log && t.stores == s.stores
  }

  lemma {:induction false} AnotherMoves(s: State, step: Step, self: Option<nat>)
    requires Enabled(s, step) && ByAnother(step, self)
    ensures OthersMoved(s, Next(s, step), self)
    ensures !ByPublisher(step) ==> SameRecord(s, Next(s, step))
  {
  }

  predicate Quiet(batch: seq<Step>) {
    forall step | step in batch :: !ByPublisher(step)
  }

  /** From the `k`-th pause on, nobody plans to publish. */
  predicate NoPublisher(others: seq<seq<Step>>, k: nat) {
    forall i | k <= i < |others| :: Quiet(others[i])
  }

  predicate Scheduled(step: Step, others: seq<seq<Step>>) {
    exists batch | batch in others :: step in batch
  }

  /** Every step taken that was not the program's own is one the others had planned. */
  predicate AsPlanned(taken: seq<Step>, others: seq<seq<Step>>, self: Option<nat>) {
    forall i | 0 <= i < |taken| && ByAnother(taken[i], self) :: Scheduled(taken[i], others)
  }

  lemma {:induction false} OneMoreAsPlanned(taken: seq<Step>, step: Step, others: seq<seq<Step>>, self: Option<nat>)
    requires AsPlanned(taken, others, self) && (ByAnother(step, self) ==> Scheduled(step, others))
    ensures AsPlanned(taken + [step], others, self)
  {
  }

  /** The log and the number of stores only grow, and neither they nor the record change unless somebody planned it. */
  predicate Onwards(s: State, k: nat, t: State, l: nat, others: seq<seq<Step>>) {
    s.log <= t.log && s.stores <= t.stores && k <= l && (NoPublisher(others, k) ==> SameRecord(s, t))
  }

  /** Word by word, the copy is what the protocol says the reader has. */
  lemma {:induction false} EverythingCopied(copied: map<nat, u32>, words: seq<u32>)
    requires |words| == WORDS && (forall k: nat :: k in copied <==> k < WORDS)
    requires forall k: nat | k < WORDS :: copied[k] == words[k]
    ensures copied.Keys == AllWords() && words == Snapshot(copied)
  {
    assert forall k: nat :: k in AllWords() <==> k < WORDS && IsWord(k);
    assert copied.Keys == AllWords();
  }

  /** An attempt that starts while a record is being written saw one begin since `s`, or begun before. */
  lemma {:induction false} WritingNowOrThen(s: State, t: State)
    requires Inv(s) && Inv(t) && s.stores <= t.stores && t.mem[SEQUENCE] % 2 != 0
    ensures s.stores < t.stores || s.writer.Writing?
  {
    SequenceIsOddExactlyWhileWriting(t);
  }

  /** The mapped view of one process: of the publisher (`None`) or of a reader. */
  class SharedView {
    const self: Option<nat>
    /** What the others do in each pause before a word this process loads or stores; nothing in any further pause. */
    const others: seq<seq<Step>>
    var words: array<u32>
    /** The pauses so far. */
    var pauses: nat
    /** The whole system, of which the process sees only the words. */
    var state: State
    ghost const start: State
    /** Every step taken since the start, by this process or by the others. */
    ghost var taken: seq<Step>

    ghost predicate Valid()
      reads this, words
    {
      && words.Length == WORDS && words[..] == state.mem && Inv(state)
      && Leads(start, taken, state) && AsPlanned(taken, others, self)
    }

    constructor (initial: Record, readers: set<nat>, self: Option<nat>, others: seq<seq<Step>>)
      ensures Valid() && fresh(words) && Initial(state) && start == state && taken == [] && pauses == 0
      ensures this.self == self && this.others == others
      ensures state.mem == Stamp(initial, 0) && state.readers.Keys == readers
    {
      var mem := Stamp(initial, 0);
      var s := State(mem, Resting, 0, [mem], map id | id in readers :: Reader(Outside, 0, []));
      words := new u32[WORDS](i requires 0 <= i < WORDS => mem[i]);
      this.self := self;
      this.others := others;
      pauses := 0;
      state := s;
      start := s;
      taken := [];
      InitialInv(s);
    }

    /** The others do what they had planned for this pause, as far as it can be done. */
    method Interfere()
      requires Valid() && (self.Some? ==> NotComeRound(state, self.value))
      modifies this`state, this`taken, this`pauses, words
      ensures Valid() && OthersMoved(old(state), state, self) && (self.Some? ==> NotComeRound(state, self.value))
      ensures pauses == old(pauses) + 1 && Onwards(old(state), old(pauses), state, pauses, others)
      ensures taken == old(taken)
                       + if old(pauses) < |others| then Heard(old(state), others[old(pauses)], self) else []
    {
      if pauses < |others| {
        assert others[pauses] in others;
        Hear(others[pauses]);
      }
      pauses := pauses + 1;
    }

    method Hear(batch: seq<Step>)
      requires Valid() && (self.Some? ==> NotComeRound(state, self.value)) && batch in others
      modifies this`state, this`taken, words
      ensures Valid() && OthersMoved(old(state), state, self) && (self.Some? ==> NotComeRound(state, self.value))
      ensures Quiet(batch) ==> SameRecord(old(state), state)
      ensures taken == old(taken) + Heard(old(state), batch, self)
    {
      var i := 0;
      while i < |batch|
        invariant 0 <= i <= |batch|
        invariant Valid() && OthersMoved(old(state), state, self) && (self.Some? ==> NotComeRound(state, self.value))
        invariant taken + Heard(state, batch[i..], self) == old(taken) + Heard(old(state), batch, self)
        invariant Quiet(batch) ==> SameRecord(old(state), state)
      {
        assert batch[i..][1..] == batch[i + 1..] && batch[i] in batch;
        HearOne(batch[i]);
        i := i + 1;
      }
    }

    method HearOne(step: Step)
      requires Valid() && (self.Some? ==> NotComeRound(state, self.value)) && Scheduled(step, others)
      modifies this`state, this`taken, words
      ensures Valid() && OthersMoved(old(state), state, self) && (self.Some? ==> NotComeRound(state, self.value))
      ensures !ByPublisher(step) ==> SameRecord(old(state), state)
      ensures if Happens(old(state), step, self) then state == Next(old(state), step) && taken == old(taken) + [step]
              else state == old(state) && taken == old(taken)
    {
      if Happens(state, step, self) {
        AnotherMoves(state, step, self);
        TakeStep(step);
      }
    }

    /** A step by anyone, with the words it stores. */
    method TakeStep(step: Step)
      requires Valid() && Enabled(state, step) && (ByAnother(step, self) ==> Scheduled(step, others))
      modifies this`state, this`taken, words
      ensures Valid() && state == Next(old(state), step) && taken == old(taken) + [step]
    {
      StepKeepsInv(state, step);
      LeadsOneMore(start, taken, state, step);
      OneMoreAsPlanned(taken, step, others, self);
      state := Next(state, step);
      taken := taken + [step];
      forall i | 0 <= i < WORDS {
        words[i] := state.mem[i];
      }
    }

    /** A step of this process that stores no word. */
    method TakeOwnStep(step: Step)
      requires Valid() && Enabled(state, step) && !ByAnother(step, self) && Next(state, step).mem == state.mem
      modifies this`state, this`taken
      ensures Valid() && state == Next(old(state), step) && taken == old(taken) + [step]
      ensures self.Some? ==> SameRecord(old(state), state)
    {
      StepKeepsInv(state, step);
      LeadsOneMore(start, taken, state, step);
      OneMoreAsPlanned(taken, step, others, self);
      state := Next(state, step);
      taken := taken + [step];
    }

    /** A step of this process that stores one word. */
    method StoreWord(step: Step, i: nat, word: u32)
      requires Valid() && Enabled(state, step) && !ByAnother(step, self)
      requires i < WORDS && Next(state, step).mem == state.mem[i := word]
      modifies this`state, this`taken, words
      ensures Valid() && state == Next(old(state), step) && taken == old(taken) + [step]
    {
      StepKeepsInv(state, step);
      LeadsOneMore(start, taken, state, step);
      OneMoreAsPlanned(taken, step, others, self);
      state := Next(state, step);
      taken := taken + [step];
      words[i] := word;
    }

    /**
     At most eight attempts. Whatever the publisher and other readers do in the pauses between its words, a record
     returned is the newest settled; none is returned only if the publisher was busy or became so; and while nobody
     publishes the record there is comes back.
     */
    method Read(id: nat) returns (r: Option<Record>)
      requires Valid() && self == Some(id) && id in state.readers && state.readers[id].place.Outside?
      modifies this`state, this`taken, this`pauses, words
      ensures Valid() && Onwards(old(state), old(pauses), state, pauses, others) && old(taken) <= taken
      ensures id in state.readers && state.readers[id].place.Outside?
      ensures r.None? ==>
                && state.readers[id].results == old(state).readers[id].results + [GaveUp]
                && (old(state).stores < state.stores || old(state).writer.Writing?)
      ensures r.Some? ==>
                && r.value == Last(state.log)
                && state.readers[id].results == old(state).readers[id].results + [Gave(|state.log| - 1, r.value)]
      ensures NoPublisher(others, old(pauses)) && !old(state).writer.Writing? ==> r == Some(Last(old(state).log))
    {
      ghost var results := state.readers[id].results;
      TakeOwnStep(ReadCall(id));
      for n := 0 to ATTEMPTS
        invariant Valid() && Onwards(old(state), old(pauses), state, pauses, others) && old(taken) <= taken
        invariant id in state.readers
        invariant n < ATTEMPTS ==> state.readers[id].place == Starting(n) && state.readers[id].results == results
        invariant n == ATTEMPTS ==>
                    state.readers[id].place == Outside && state.readers[id].results == results + [GaveUp]
        invariant n > 0 ==> old(state).stores < state.stores || old(state).writer.Writing?
      {
        r := Attempt(id);
        if r.Some? {
          return;
        }
      }
      return None;
    }

    /** One attempt: give up on an odd sequence, or on one that changes while the record is copied. */
    method Attempt(id: nat) returns (r: Option<Record>)
      requires Valid() && self == Some(id) && id in state.readers && state.readers[id].place.Starting?
      modifies this`state, this`taken, this`pauses, words
      ensures Valid() && Onwards(old(state), old(pauses), state, pauses, others) && old(taken) <= taken
      ensures id in state.readers
      ensures
        var before, after := old(state).readers[id], state.readers[id];
        if r.None? then after.(begun := 0) == Retry(before, before.place.n).(begun := 0)
        else
          && after.place == Outside && r.value == Last(state.log) && pauses == old(pauses) + WORDS + 2
          && after.results == before.results + [Gave(|state.log| - 1, r.value)]
      ensures r.None? ==> old(state).stores < state.stores || old(state).writer.Writing?
    {
      var before := Begin(id);
      if before % 2 != 0 {
        return None; // odd: the publisher has raised it and not settled yet
      }
      r := CopyAndCheck(id, before);
    }

    /** Load the sequence. An odd one means that the publisher was busy or became so. */
    method Begin(id: nat) returns (before: u32)
      requires Valid() && self == Some(id) && id in state.readers && state.readers[id].place.Starting?
      modifies this`state, this`taken, this`pauses, words
      ensures Valid() && Onwards(old(state), old(pauses), state, pauses, others) && old(taken) <= taken
      ensures id in state.readers && NotComeRound(state, id) && pauses == old(pauses) + 1
      ensures
        var was, now := old(state).readers[id], state.readers[id];
        now == if before % 2 != 0 then Retry(was, was.place.n)
               else was.(place := Copying(was.place.n, before, map[]), begun := state.stores)
      ensures before % 2 != 0 ==> old(state).stores < state.stores || old(state).writer.Writing?
    {
      Interfere();
      before := words[SEQUENCE];
      if before % 2 != 0 {
        WritingNowOrThen(old(state), state);
      }
      TakeOwnStep(ReadStart(id));
    }

    /** The rest of an attempt that found an even sequence: copy the record, then see whether it changed meanwhile. */
    method CopyAndCheck(id: nat, before: u32) returns (r: Option<Record>)
      requires Valid() && self == Some(id) && id in state.readers && NotComeRound(state, id)
      requires state.readers[id].place.Copying? && state.readers[id].place.copied == map[]
      requires state.readers[id].place.before == before
      modifies this`state, this`taken, this`pauses, words
      ensures Valid() && Onwards(old(state), old(pauses), state, pauses, others) && old(taken) <= taken
      ensures id in state.readers && pauses == old(pauses) + WORDS + 1
      ensures
        var was, after := old(state).readers[id], state.readers[id];
        if r.None? then after == Retry(was, was.place.n) && was.begun < state.stores
        else
          && r.value == Last(state.log)
          && after == was.(place := Outside, results := was.results + [Gave(|state.log| - 1, r.value)])
    {
      var snapshot := new u32[WORDS];
      CopyWords(id, snapshot);
      Interfere();
      var settled := Check(id, before);
      return if settled then Some(snapshot[..]) else None;
    }

    /** Load the sequence again: the copy is good if it has not changed. */
    method Check(id: nat, before: u32) returns (settled: bool)
      requires Valid() && self == Some(id) && id in state.readers && NotComeRound(state, id)
      requires state.readers[id].place.Copying? && state.readers[id].place.copied.Keys == AllWords()
      requires state.readers[id].place.before == before
      modifies this`state, this`taken
      ensures Valid() && SameRecord(old(state), state) && old(taken) <= taken && id in state.readers
      ensures
        var was, now := old(state).readers[id], state.readers[id];
        if settled then
          && Snapshot(was.place.copied) == Last(state.log)
          && now == was.(place := Outside, results := was.results + [Gave(|state.log| - 1, Last(state.log))])
        else was.begun < state.stores && now == Retry(was, was.place.n)
    {
      settled := words[SEQUENCE] == before;
      CheckGivesTheNewest(state, id);
      TakeOwnStep(ReadCheck(id));
    }

    /** Copy one word, after whatever the others do first. */
    method CopyWord(id: nat, i: nat, snapshot: array<u32>)
      requires Valid() && self == Some(id) && id in state.readers && NotComeRound(state, id)
      requires state.readers[id].place.Copying? && i < WORDS && i !in state.readers[id].place.copied
      requires snapshot.Length == WORDS && snapshot != words
      modifies this`state, this`taken, this`pauses, words, snapshot
      ensures Valid() && Onwards(old(state), old(pauses), state, pauses, others) && old(taken) <= taken
      ensures id in state.readers && NotComeRound(state, id) && pauses == old(pauses) + 1
      ensures
        var r := old(state).readers[id];
        state.readers[id] == r.(place := r.place.(copied := r.place.copied[i := snapshot[i]]))
      ensures forall k | 0 <= k < WORDS && k != i :: snapshot[k] == old(snapshot[k])
    {
      Interfere();
      snapshot[i] := words[i];
      TakeOwnStep(ReadCopy(id, i));
    }

    /** Copy the record word by word, while the others keep moving. */
    method CopyWords(id: nat, snapshot: array<u32>)
      requires Valid() && self == Some(id) && id in state.readers && NotComeRound(state, id)
      requires state.readers[id].place.Copying? && state.readers[id].place.copied == map[]
      requires snapshot.Length == WORDS && snapshot != words
      modifies this`state, this`taken, this`pauses, words, snapshot
      ensures Valid() && Onwards(old(state), old(pauses), state, pauses, others) && old(taken) <= taken
      ensures id in state.readers && NotComeRound(state, id) && pauses == old(pauses) + WORDS
      ensures
        var r, s := old(state).readers[id], state.readers[id];
        && s == r.(place := s.place) && s.place.Copying? && s.place.n == r.place.n && s.place.before == r.place.before
        && s.place.copied.Keys == AllWords() && snapshot[..] == Snapshot(s.place.copied)
    {
      for i := 0 to WORDS
        invariant Valid() && Onwards(old(state), old(pauses), state, pauses, others) && old(taken) <= taken
        invariant id in state.readers && NotComeRound(state, id) && pauses == old(pauses) + i
        invariant
          var r, s := old(state).readers[id], state.readers[id];
          && s == r.(place := s.place) && s.place.Copying? && s.place.n == r.place.n && s.place.before == r.place.before
        invariant forall k: nat :: k in state.readers[id].place.copied <==> k < i
        invariant forall k: nat | k < i :: state.readers[id].place.copied[k] == snapshot[k]
      {
        CopyWord(id, i, snapshot);
      }
      EverythingCopied(state.readers[id].place.copied, snapshot[..]);
    }

    /** Whatever readers do in the pause before each word, the log gains exactly this reading, stamped. */
    method Publish(reading: Record)
      requires Valid() && self.None? && state.writer.Resting?
      modifies this`state, this`taken, this`pauses, words
      ensures Valid() && state.writer.Resting? && old(taken) <= taken
      ensures state.log == old(state).log + [Stamp(reading, (2 * |old(state).log|) % U32_SPAN)]
      ensures words[..] == Last(state.log) && pauses == old(pauses) + WORDS + 3
    {
      var raised := Raise(reading);
      StoreWords(Stamp(reading, raised));
      Settle(reading, raised);
    }

    /** Load the sequence and raise it: a record is being written from now on. */
    method Raise(reading: Record) returns (raised: u32)
      requires Valid() && self.None? && state.writer.Resting?
      modifies this`state, this`taken, this`pauses, words
      ensures Valid() && state.writer == Writing(Stamp(reading, raised), AllWords()) && state.log == old(state).log
      ensures raised == (2 * |state.log| - 1) % U32_SPAN && pauses == old(pauses) + 2 && old(taken) <= taken
    {
      Interfere();
      raised := WrappingAdd(words[SEQUENCE], 1);
      StoresKeepParity(old(state).stores);
      TakeOwnStep(PublishLoad(reading));
      Interfere();
      StoreWord(PublishRaise, SEQUENCE, raised);
    }

    /** Raise the sequence again: the record is settled. */
    method Settle(reading: Record, raised: u32)
      requires Valid() && self.None? && state.writer == Writing(Stamp(reading, raised), {})
      requires raised == (2 * |state.log| - 1) % U32_SPAN
      modifies this`state, this`taken, this`pauses, words
      ensures Valid() && state.writer.Resting? && old(taken) <= taken
      ensures state.log == old(state).log + [Stamp(reading, (2 * |old(state).log|) % U32_SPAN)]
      ensures words[..] == Last(state.log) && pauses == old(pauses) + 1
    {
      StoresKeepParity(2 * |state.log| - 1);
      Interfere();
      assert state.mem == Stamp(reading, raised);
      assert state.mem[SEQUENCE := WrappingAdd(raised, 1)] == Stamp(reading, WrappingAdd(raised, 1));
      StoreWord(PublishSettle, SEQUENCE, WrappingAdd(raised, 1));
    }

    /** Store the payload word by word, while readers keep reading. */
    method StoreWords(payload: Record)
      requires Valid() && self.None? && state.writer == Writing(payload, AllWords())
      modifies this`state, this`taken, this`pauses, words
      ensures Valid() && state.writer == Writing(payload, {}) && state.log == old(state).log
      ensures pauses == old(pauses) + WORDS && old(taken) <= taken
    {
      assert forall k: nat :: k in AllWords() <==> k < WORDS && IsWord(k);
      for i := 0 to WORDS
        invariant Valid() && state.writer.Writing? && state.writer.payload == payload && state.log == old(state).log
        invariant forall k: nat :: k in state.writer.pending <==> i <= k < WORDS
        invariant pauses == old(pauses) + i && old(taken) <= taken
      {
        Interfere();
        StoreWord(PublishStore(i), i, payload[i]);
      }
      assert state.writer.pending == {};
    }
  }
}

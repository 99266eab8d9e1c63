/** The limit of the protocol: after exactly 2^31 publishes within one attempt the 32-bit sequence has come round. */
module SeqlockWrap {
  import opened Basics
  import opened Seqlock
  import opened SeqlockSteps

  /** No reader begins or ends a call or an attempt. */
  predicate DuringAttempts(steps: seq<Step>) {
    forall i | 0 <= i < |steps| :: !steps[i].ReadCall? && !steps[i].ReadStart? && !steps[i].ReadCheck?
  }

  function Below(n: nat): set<nat> {
    set i: nat | i < n && IsWord(i)
  }

  /** A publisher left to itself stores every pending word. */
  lemma {:induction false} StoreTheRest(s: State, n: nat) returns (steps: seq<Step>, t: State)
    requires Inv(s) && s.writer.Writing? && s.writer.pending == Below(n) && n <= WORDS
    ensures Leads(s, steps, t) && DuringAttempts(steps) && Inv(t)
    ensures t == s.(mem := t.mem, writer := s.writer.(pending := {}))
    decreases n
  {
    if n == 0 {
      steps, t := [], s;
    } else {
      var step := PublishStore(n - 1);
      assert IsWord(n - 1) && n - 1 in Below(n) && Below(n) - {n - 1} == Below(n - 1);
      StepKeepsInv(s, step);
      var rest;
      rest, t := StoreTheRest(Next(s, step), n - 1);
      steps := [step] + rest;
      assert steps[1..] == rest;
    }
  }

  /** What a record looks like once settled as the `p`-th. */
  function Settled(reading: Record, p: nat): Record {
    Stamp(reading, (2 * p) % U32_SPAN)
  }

  /** One whole publish with no reader moving. */
  lemma {:induction false} PublishOnce(s: State, reading: Record) returns (steps: seq<Step>, t: State)
    requires Inv(s) && s.writer.Resting?
    ensures Leads(s, steps, t) && DuringAttempts(steps) && Inv(t)
    ensures
      var settled := Settled(reading, |s.log|);
      t == s.(mem := settled, stores := s.stores + 2, log := s.log + [settled])
  {
    var loaded := Next(s, PublishLoad(reading));
    StepKeepsInv(s, PublishLoad(reading));
    var raised := Next(loaded, PublishRaise);
    StepKeepsInv(loaded, PublishRaise);
    assert raised.writer.pending == Below(WORDS);
    var middle, stored := StoreTheRest(raised, WORDS);
    assert stored.mem == stored.writer.payload;
    StepKeepsInv(stored, PublishSettle);
    t := Next(stored, PublishSettle);
    LeadsOneMore(raised, middle, stored, PublishSettle);
    steps := [PublishLoad(reading), PublishRaise] + (middle + [PublishSettle]);
    assert steps[1..][1..] == middle + [PublishSettle];
    StoresKeepParity(s.stores + 1);
    assert t.mem == Settled(reading, |s.log|);
  }

  /** The same reading published over and over. */
  lemma {:induction false} PublishMany(s: State, reading: Record, n: nat) returns (steps: seq<Step>, t: State)
    requires Inv(s) && s.writer.Resting?
    ensures Leads(s, steps, t) && DuringAttempts(steps) && Inv(t) && t.writer.Resting?
    ensures t.stores == s.stores + 2 * n && t.readers == s.readers && |t.log| == |s.log| + n && s.log <= t.log
    ensures forall p | |s.log| <= p < |t.log| :: t.log[p] == Settled(reading, p)
    ensures n > 0 ==> t.mem == Settled(reading, |t.log| - 1)
  {
    if n == 0 {
      steps, t := [], s;
    } else {
      var most, u := PublishMany(s, reading, n - 1);
      var last;
      last, t := PublishOnce(u, reading);
      steps := most + last;
      LeadsOn(s, most, u, last, t);
    }
  }

  /** A reader left to itself copies every word it has not copied yet. */
  lemma {:induction false} CopyTheRest(s: State, id: nat, n: nat) returns (steps: seq<Step>, t: State)
    requires s.log != [] && id in s.readers && s.readers[id].place.Copying? && n <= WORDS
    requires s.readers[id].place.copied.Keys == AllWords() - Below(n)
    ensures Leads(s, steps, t) && DuringAttempts(steps) && t == s.(readers := t.readers)
    ensures id in t.readers && t.readers[id].place.Copying?
    ensures
      var p, q := s.readers[id].place, t.readers[id].place;
      && t.readers[id] == s.readers[id].(place := q) && q.n == p.n && q.before == p.before
      && q.copied.Keys == AllWords()
      && forall i: nat | i < WORDS && IsWord(i) ::
           i in AllWords() && q.copied[i] == if i < n then s.mem[i] else p.copied[i]
    decreases n
  {
    if n == 0 {
      steps, t := [], s;
      assert Below(0) == {};
    } else {
      var step := ReadCopy(id, n - 1);
      assert IsWord(n - 1) && n - 1 in Below(n);
      var u := Next(s, step);
      assert u.readers[id].place.copied.Keys == AllWords() - Below(n - 1);
      var rest;
      rest, t := CopyTheRest(u, id, n - 1);
      steps := [step] + rest;
      assert steps[1..] == rest;
    }
  }

  const QUIET: Record := seq(WORDS, _ => 0)
  const LOUD: Record := seq(WORDS, _ => 1)
  const LAST_WORD: nat := WORDS - 1

  /** One reader, copying the last word of the initial record and then held up. */
  lemma {:induction false} HeldUpReader() returns (start: State, steps: seq<Step>, s: State)
    ensures Initial(start) && Leads(start, steps, s) && Inv(s) && s.writer.Resting? && s.stores == 0
    ensures s.log == [Stamp(QUIET, 0)] && s.mem == Stamp(QUIET, 0)
    ensures s.readers == map[0 := Reader(Copying(0, 0, map[LAST_WORD := 0]), 0, [])]
  {
    var mem := Stamp(QUIET, 0);
    start := State(mem, Resting, 0, [mem], map[0 := Reader(Outside, 0, [])]);
    InitialInv(start);
    var called := Next(start, ReadCall(0));
    StepKeepsInv(start, ReadCall(0));
    var copying := Next(called, ReadStart(0));
    StepKeepsInv(called, ReadStart(0));
    s := Next(copying, ReadCopy(0, LAST_WORD));
    StepKeepsInv(copying, ReadCopy(0, LAST_WORD));
    assert Leads(start, [], start);
    LeadsOneMore(start, [], start, ReadCall(0));
    LeadsOneMore(start, [] + [ReadCall(0)], called, ReadStart(0));
    LeadsOneMore(start, [] + [ReadCall(0)] + [ReadStart(0)], copying, ReadCopy(0, LAST_WORD));
    steps := [] + [ReadCall(0)] + [ReadStart(0)] + [ReadCopy(0, LAST_WORD)];
    assert s.readers == map[0 := Reader(Copying(0, 0, map[LAST_WORD := 0]), 0, [])];
  }

  /** The reader, with the last word of an older record than the rest, about to make its final check. */
  predicate AboutToBeFooled(u: State) {
    && Enabled(u, ReadCheck(0)) && u.mem[SEQUENCE] == u.readers[0].place.before && u.readers[0].results == []
    && IsWord(LAST_WORD) && IsWord(LAST_WORD - 1)
    && LAST_WORD in u.readers[0].place.copied && LAST_WORD - 1 in u.readers[0].place.copied
    && u.readers[0].place.copied[LAST_WORD] == 0 && u.readers[0].place.copied[LAST_WORD - 1] == 1
    && forall p | 0 <= p < |u.log| :: u.log[p][LAST_WORD] == u.log[p][LAST_WORD - 1]
  }

  lemma {:induction false} FooledReader(u: State)
    requires AboutToBeFooled(u)
    ensures
      var end := Next(u, ReadCheck(0));
      && end.log == u.log && end.writer == u.writer && 0 in end.readers
      && |end.readers[0].results| == 1 && end.readers[0].results[0].Gave?
      && end.readers[0].results[0].record !in end.log
  {
    var record := Snapshot(u.readers[0].place.copied);
    assert record[LAST_WORD] == 0 && record[LAST_WORD - 1] == 1;
  }

  /** Every settled record in the log holds one value in its last two words. */
  predicate WholeAtTheEnd(log: seq<Record>) {
    forall p | 0 <= p < |log| :: log[p][LAST_WORD] == log[p][LAST_WORD - 1]
  }

  /** The held-up reader finishes its copy after the sequence has come round. */
  lemma {:induction false} CopyAfterComingRound(t: State) returns (steps: seq<Step>, u: State)
    requires t.log != [] && t.readers == map[0 := Reader(Copying(0, 0, map[LAST_WORD := 0]), 0, [])]
    requires t.mem[SEQUENCE] == 0 && t.mem[LAST_WORD - 1] == 1 && WholeAtTheEnd(t.log)
    ensures Leads(t, steps, u) && DuringAttempts(steps) && AboutToBeFooled(u) && u.log == t.log
    ensures u.writer == t.writer
  {
    assert AllWords() - Below(LAST_WORD) == {LAST_WORD} by {
      assert IsWord(LAST_WORD);
    }
    steps, u := CopyTheRest(t, 0, LAST_WORD);
    assert IsWord(LAST_WORD) && IsWord(LAST_WORD - 1);
  }

  lemma {:induction false} ComeRound(s: State) returns (steps: seq<Step>, t: State)
    requires Inv(s) && s.writer.Resting? && s.stores == 0 && s.log == [Stamp(QUIET, 0)]
    ensures Leads(s, steps, t) && DuringAttempts(steps) && t.readers == s.readers && |t.log| == U32_SPAN / 2 + 1
    ensures t.mem[SEQUENCE] == 0 && t.mem[LAST_WORD - 1] == 1 && WholeAtTheEnd(t.log) && t.writer.Resting?
  {
    steps, t := PublishMany(s, LOUD, U32_SPAN / 2);
    forall p | 0 <= p < |t.log| ensures t.log[p][LAST_WORD] == t.log[p][LAST_WORD - 1] {
      if p >= 1 {
        assert t.log[p] == Settled(LOUD, p);
      }
    }
  }

  /**
   The bound on publishes is needed and cannot be relaxed by one: a reader begins an attempt when one record has been
   settled, exactly 2^31 publishes follow within that attempt, and its final check accepts a record that mixes two of
   them and was never settled.
   */
  lemma {:induction false} ComingRoundAcceptsATornRecord()
    returns (start: State, first: seq<Step>, begun: State, during: seq<Step>, end: State)
    ensures Initial(start) && Leads(start, first, begun) && |begun.log| == 1
    ensures 0 in begun.readers && begun.readers[0].place.Copying? && begun.writer.Resting?
    ensures DuringAttempts(during) && Leads(begun, during + [ReadCheck(0)], end)
    ensures |end.log| == |begun.log| + U32_SPAN / 2 && end.writer.Resting?
    ensures 0 in end.readers && |end.readers[0].results| == 1 && end.readers[0].results[0].Gave?
    ensures end.readers[0].results[0].record !in end.log
  {
    var round, t, copies, u;
    start, first, begun := HeldUpReader();
    round, t := ComeRound(begun);
    copies, u := CopyAfterComingRound(t);
    during := round + copies;
    LeadsOn(begun, round, t, copies, u);
    FooledReader(u);
    LeadsOneMore(begun, during, u, ReadCheck(0));
    end := Next(u, ReadCheck(0));
  }

  // ---- The exact bound ----

  /** At most `n` publishes begin between the start of any reader's attempt and any moment of that attempt. */
  predicate AttemptsSpanAtMost(states: seq<State>, n: int) {
    forall i, id: nat | 0 <= i < |states| && id in states[i].readers && states[i].readers[id].place.Copying? ::
      Begun(states[i].stores) - Begun(states[i].readers[id].begun) <= n
  }

  /** Every record a reader was given is one that had been settled. */
  predicate OnlySettledGiven(s: State) {
    forall id, q: nat | id in s.readers && q < |s.readers[id].results| && s.readers[id].results[q].Gave? ::
      s.readers[id].results[q].record in s.log
  }

  ghost predicate Sound(n: nat) {
    forall states, steps, i: nat | IsRun(states, steps) && AttemptsSpanAtMost(states, n) && i < |states| ::
      OnlySettledGiven(states[i])
  }

  lemma {:induction false} ReadersStay(states: seq<State>, steps: seq<Step>, i: nat)
    requires IsRun(states, steps) && i < |states|
    ensures states[i].readers.Keys == states[0].readers.Keys
  {
    if i > 0 {
      ReadersStay(states, steps, i - 1);
    }
  }

  lemma {:induction false} FewPublishesAreSound(states: seq<State>, steps: seq<Step>, n: nat, i: nat)
    requires IsRun(states, steps) && AttemptsSpanAtMost(states, n) && n < U32_SPAN / 2 && i < |states|
    ensures OnlySettledGiven(states[i])
  {
    assert NeverComesRound(states);
    forall id, q: nat | id in states[i].readers && q < |states[i].readers[id].results|
                        && states[i].readers[id].results[q].Gave?
      ensures states[i].readers[id].results[q].record in states[i].log
    {
      ReadersStay(states, steps, i);
      ReadersOnlyMoveForward(states, steps, i, id);
    }
  }

  lemma {:induction false} StoresOnlyGrow(states: seq<State>, steps: seq<Step>, i: nat, j: nat)
    requires IsRun(states, steps) && i <= j < |states|
    ensures states[i].stores <= states[j].stores
  {
    if i < j {
      StoresOnlyGrow(states, steps, i, j - 1);
    }
  }

  /** No attempt of a run spans more publishes than the run settles, when it ends with the publisher at rest. */
  lemma {:induction false} SpansAreWithinTheRun(states: seq<State>, steps: seq<Step>)
    requires IsRun(states, steps) && Last(states).writer.Resting?
    ensures AttemptsSpanAtMost(states, |Last(states).log| - 1)
  {
    var last := |states| - 1;
    RunKeepsInv(states, steps, last);
    forall i, id: nat | 0 <= i < |states| && id in states[i].readers && states[i].readers[id].place.Copying?
      ensures Begun(states[i].stores) - Begun(states[i].readers[id].begun) <= |states[last].log| - 1
    {
      StoresOnlyGrow(states, steps, i, last);
    }
  }

  /** The protocol gives only settled records exactly when attempts span fewer than 2^31 publishes. */
  lemma {:induction false} SoundIff(n: nat)
    ensures Sound(n) <==> n < U32_SPAN / 2
  {
    if n < U32_SPAN / 2 {
      forall states, steps, i: nat | IsRun(states, steps) && AttemptsSpanAtMost(states, n) && i < |states|
        ensures OnlySettledGiven(states[i])
      {
        FewPublishesAreSound(states, steps, n, i);
      }
    } else {
      var states, steps := TornRun();
      assert AttemptsSpanAtMost(states, n);
      assert !OnlySettledGiven(states[|states| - 1]);
    }
  }

  lemma {:induction false} TornRun() returns (states: seq<State>, steps: seq<Step>)
    ensures IsRun(states, steps) && AttemptsSpanAtMost(states, U32_SPAN / 2) && !OnlySettledGiven(Last(states))
  {
    var start, first, begun, during, end := ComingRoundAcceptsATornRecord();
    steps := first + (during + [ReadCheck(0)]);
    LeadsOn(start, first, begun, during + [ReadCheck(0)], end);
    states := Trace(start, steps, end);
    TraceIsARun(start, steps, end);
    SpansAreWithinTheRun(states, steps);
    assert !OnlySettledGiven(end) by {
      assert end.readers[0].results[0].Gave?;
    }
  }
}

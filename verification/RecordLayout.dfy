/** The record in words, byte by byte as both programs lay it out, and what a reader gets back out of them. */
module RecordLayout {
  import opened Basics
  import opened SharedRecord
  import opened Seqlock

  const CLOCK: nat := 4
  const FIGURES: nat := 6
  const COUNT: nat := 9
  const ZONES: nat := 10
  const LABELS: nat := 26

  /** How a figure that may be absent is written in one word, and how a word is read as one. */
  datatype Format = Format(bits: Option<real> -> u32, figure: u32 -> Option<real>) {

    /** The figure comes back: it is one a word can hold. */
    predicate Keeps(x: Option<real>) {
      figure(bits(x)) == x
    }
  }

  predicate KeepsAll(f: Format, r: SharedTemperature) {
    && f.Keeps(r.packageC) && f.Keeps(r.packageWatts) && f.Keeps(r.tjmaxC)
    && forall i | 0 <= i < |r.zones| :: f.Keeps(r.zones[i])
  }

  function WordOf(a: u8, b: u8, c: u8, d: u8): u32 {
    a + 256 * b + 65536 * c + 16777216 * d
  }

  function ByteOf(word: u32, k: nat): u8 {
    if k == 0 then word % 256
    else if k == 1 then word / 256 % 256
    else if k == 2 then word / 65536 % 256
    else word / 16777216
  }

  lemma {:induction false} BytesComeBack(a: u8, b: u8, c: u8, d: u8)
    ensures
      var w := WordOf(a, b, c, d);
      ByteOf(w, 0) == a && ByteOf(w, 1) == b && ByteOf(w, 2) == c && ByteOf(w, 3) == d
  {
    var w := WordOf(a, b, c, d);
    assert w == a + 256 * (b + 256 * c + 65536 * d);
    assert w == (a + 256 * b) + 65536 * (c + 256 * d);
    assert w == (a + 256 * b + 65536 * c) + 16777216 * d;
    assert w / 256 == b + 256 * (c + 256 * d);
    assert w / 65536 == c + 256 * d;
  }

  /** The word at `i`: the stamped fields, one word of padding, the clock, the figures, and the zones. */
  function WordAt(f: Format, r: SharedTemperature, i: nat): u32
    requires r.Fits() && i < WORDS
  {
    if i == VERSION then r.version
    else if i == REVISION then r.helperRevision
    else if i == SEQUENCE then r.sequence
    else if i < CLOCK then 0
    else if i == CLOCK then r.timestampMs % U32_SPAN
    else if i == CLOCK + 1 then r.timestampMs / U32_SPAN
    else if i == FIGURES then f.bits(r.packageC)
    else if i == FIGURES + 1 then f.bits(r.packageWatts)
    else if i == FIGURES + 2 then f.bits(r.tjmaxC)
    else if i == COUNT then r.zoneCount
    else if i < LABELS then f.bits(r.zones[i - ZONES])
    else LabelWord(r.zoneLabels[(i - LABELS) / 2], (i - LABELS) % 2)
  }

  /** One half of a label slot. */
  function LabelWord(slot: seq<u8>, half: nat): u32
    requires |slot| == SLOT && half < 2
  {
    WordOf(slot[4 * half], slot[4 * half + 1], slot[4 * half + 2], slot[4 * half + 3])
  }

  function Words(f: Format, r: SharedTemperature): Record
    requires r.Fits()
  {
    seq(WORDS, i requires 0 <= i < WORDS => WordAt(f, r, i))
  }

  function SlotAt(w: Record, i: nat): seq<u8>
    requires i < MAX_ZONES
  {
    seq(SLOT, j requires 0 <= j < SLOT => ByteOf(w[LABELS + 2 * i + j / 4], j % 4))
  }

  /** The record a reader has, given its words. */
  function ReadBack(f: Format, w: Record): SharedTemperature {
    SharedTemperature(
      w[VERSION], w[REVISION], w[SEQUENCE],
      w[CLOCK] + U32_SPAN * w[CLOCK + 1],
      f.figure(w[FIGURES]), f.figure(w[FIGURES + 1]), f.figure(w[FIGURES + 2]),
      w[COUNT],
      seq(MAX_ZONES, i requires 0 <= i < MAX_ZONES => f.figure(w[ZONES + i])),
      seq(MAX_ZONES, i requires 0 <= i < MAX_ZONES => SlotAt(w, i)))
  }

  lemma {:induction false} LabelWordAt(f: Format, r: SharedTemperature, i: nat, half: nat)
    requires r.Fits() && i < MAX_ZONES && half < 2
    ensures Words(f, r)[LABELS + 2 * i + half] == LabelWord(r.zoneLabels[i], half)
  {
    assert (2 * i + half) / 2 == i && (2 * i + half) % 2 == half;
  }

  lemma {:induction false} HalfComesBack(slot: seq<u8>, half: nat, k: nat)
    requires |slot| == SLOT && half < 2 && k < 4
    ensures ByteOf(LabelWord(slot, half), k) == slot[4 * half + k]
  {
    BytesComeBack(slot[4 * half], slot[4 * half + 1], slot[4 * half + 2], slot[4 * half + 3]);
  }

  lemma {:induction false} SlotComesBack(f: Format, r: SharedTemperature, i: nat)
    requires r.Fits() && i < MAX_ZONES
    ensures SlotAt(Words(f, r), i) == r.zoneLabels[i]
  {
    var w, slot := Words(f, r), r.zoneLabels[i];
    forall j | 0 <= j < SLOT ensures ByteOf(w[LABELS + 2 * i + j / 4], j % 4) == slot[j] {
      LabelWordAt(f, r, i, j / 4);
      HalfComesBack(slot, j / 4, j % 4);
    }
  }

  /** Laid out in words and read back, a record whose figures fit in words is the same record. */
  lemma {:induction false} RecordComesBack(f: Format, r: SharedTemperature)
    requires r.Fits() && KeepsAll(f, r)
    ensures ReadBack(f, Words(f, r)) == r
  {
    var w := Words(f, r);
    var back := ReadBack(f, w);
    assert w[CLOCK] == r.timestampMs % U32_SPAN && w[CLOCK + 1] == r.timestampMs / U32_SPAN;
    forall i | 0 <= i < MAX_ZONES ensures back.zones[i] == r.zones[i] && back.zoneLabels[i] == r.zoneLabels[i] {
      assert w[ZONES + i] == f.bits(r.zones[i]);
      SlotComesBack(f, r, i);
    }
    assert back.zones == r.zones && back.zoneLabels == r.zoneLabels;
  }

  /** Stamping the words is stamping the record. */
  lemma {:induction false} StampedWordsAreThePayload(f: Format, r: SharedTemperature, sequence: u32)
    requires r.Fits()
    ensures Stamp(Words(f, r), sequence) == Words(f, Payload(r, sequence))
  {
    forall i | 0 <= i < WORDS ensures Stamp(Words(f, r), sequence)[i] == Words(f, Payload(r, sequence))[i] {
    }
  }

  /** What the helper packed and a publish stored is what a reader of the words is given. */
  lemma {:induction false} StampedWordsReadBack(
    f: Format, out: SharedTemperature, zones: seq<Zone>, sequence: u32, now: u64)
    requires Holds(out, zones) && KeepsAll(f, out)
    ensures
      var r := ReadBack(f, Stamp(Words(f, out), sequence));
      && r == Payload(out, sequence) && r.Fits() && r.ZoneList() == SharedRecord.Listed(zones, Min(|zones|, MAX_ZONES))
      && (r.IsFresh(now) <==> now <= out.timestampMs + STALE_AFTER_MS)
  {
    StampedWordsAreThePayload(f, out, sequence);
    RecordComesBack(f, Payload(out, sequence));
    PublishedZonesRoundTrip(out, zones, sequence, now);
  }

  // ---- Through the shared memory ----

  /** The words are those of a record the helper packed from these zones. */
  predicate PackedFrom(f: Format, reading: Record, out: SharedTemperature, zones: seq<Zone>) {
    Holds(out, zones) && KeepsAll(f, out) && reading == Words(f, out)
  }

  ghost predicate Packed(f: Format, reading: Record) {
    exists out, zones :: PackedFrom(f, reading, out, zones)
  }

  ghost predicate StampedPacked(f: Format, record: Record) {
    exists reading, sequence :: Packed(f, reading) && record == Stamp(reading, sequence)
  }

  /** Whatever the publisher holds, and every record settled since the initial one, was packed by the helper. */
  ghost predicate PackedInv(f: Format, s: State) {
    && (s.writer.Loaded? ==> Packed(f, s.writer.reading))
    && (s.writer.Writing? ==> StampedPacked(f, s.writer.payload))
    && forall p | 0 < p < |s.log| :: StampedPacked(f, s.log[p])
  }

  lemma {:induction false} StampedAgain(f: Format, record: Record, sequence: u32)
    requires StampedPacked(f, record)
    ensures StampedPacked(f, record[SEQUENCE := sequence])
  {
    var reading, was :| Packed(f, reading) && record == Stamp(reading, was);
    assert record[SEQUENCE := sequence] == Stamp(reading, sequence);
  }

  lemma {:induction false} StepKeepsPackedInv(f: Format, s: State, step: Step)
    requires Inv(s) && PackedInv(f, s) && Enabled(s, step)
    requires step.PublishLoad? ==> Packed(f, step.reading)
    ensures PackedInv(f, Next(s, step))
  {
    if step.PublishRaise? {
      assert Next(s, step).writer.payload == Stamp(s.writer.reading, s.writer.next);
    } else if step.PublishSettle? {
      assert s.mem == s.writer.payload;
      StampedAgain(f, s.mem, WrappingAdd(s.writer.payload[SEQUENCE], 1));
    }
  }

  /** A run in which the helper publishes nothing but what it packed. */
  ghost predicate HelperRuns(f: Format, states: seq<State>, steps: seq<Step>) {
    IsRun(states, steps) && forall i | 0 <= i < |steps| && steps[i].PublishLoad? :: Packed(f, steps[i].reading)
  }

  lemma {:induction false} RunKeepsPackedInv(f: Format, states: seq<State>, steps: seq<Step>, i: nat)
    requires HelperRuns(f, states, steps) && i < |states|
    ensures PackedInv(f, states[i])
  {
    if i > 0 {
      RunKeepsPackedInv(f, states, steps, i - 1);
      RunKeepsInv(states, steps, i - 1);
      StepKeepsPackedInv(f, states[i - 1], steps[i - 1]);
    }
  }

  lemma {:induction false} StampedPackedReadsBack(f: Format, record: Record)
    returns (out: SharedTemperature, zones: seq<Zone>, sequence: u32)
    requires StampedPacked(f, record)
    ensures Holds(out, zones) && ReadBack(f, record) == Payload(out, sequence) && ReadBack(f, record).Fits()
    ensures ReadBack(f, record).ZoneList() == SharedRecord.Listed(zones, Min(|zones|, MAX_ZONES))
  {
    var reading, stamp :| Packed(f, reading) && record == Stamp(reading, stamp);
    sequence := stamp;
    out, zones :| PackedFrom(f, reading, out, zones);
    StampedWordsReadBack(f, out, zones, sequence, 0);
  }

  /**
   From the helper's zones to the reader's, in every interleaving with fewer than 2^31 publishes in an attempt: a
   record given since the first publish reads back as one the helper packed, and lists that record's zones.
   */
  lemma {:induction false} ReadersSeePackedZones(
    f: Format, states: seq<State>, steps: seq<Step>, i: nat, id: nat, q: nat)
    returns (out: SharedTemperature, zones: seq<Zone>, sequence: u32)
    requires HelperRuns(f, states, steps) && NeverComesRound(states) && i < |states| && id in states[0].readers
    requires id in states[i].readers && q < |states[i].readers[id].results|
    requires states[i].readers[id].results[q].Gave? && states[i].readers[id].results[q].at > 0
    ensures Holds(out, zones)
    ensures
      var r := ReadBack(f, states[i].readers[id].results[q].record);
      r == Payload(out, sequence) && r.Fits() && r.ZoneList() == SharedRecord.Listed(zones, Min(|zones|, MAX_ZONES))
  {
    ReadersOnlyMoveForward(states, steps, i, id);
    RunKeepsPackedInv(f, states, steps, i);
    out, zones, sequence := StampedPackedReadsBack(f, states[i].readers[id].results[q].record);
  }
}

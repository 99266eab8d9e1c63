/** The published temperature record: how the helper fills it, and how the interface reads zones back out of it. */
module SharedRecord {
  import opened Basics

  const LAYOUT_VERSION: u32 := 4
  const HELPER_REVISION: u32 := 5
  const MAX_ZONES: nat := 16
  const STALE_AFTER_MS: u64 := 15_000
  const SLOT: nat := 8
  const LABEL: nat := 7

  /** A zone as the sensor reports it. Labels are bytes; a temperature that is not a number is absent. */
  datatype Zone = Zone(text: seq<u8>, celsius: Option<real>)

  datatype SharedTemperature = SharedTemperature(
    version: u32,
    helperRevision: u32,
    sequence: u32,
    timestampMs: u64,
    packageC: Option<real>,
    packageWatts: Option<real>,
    tjmaxC: Option<real>,
    zoneCount: u32,
    zones: seq<Option<real>>,
    zoneLabels: seq<seq<u8>>)
  {
    predicate Fits() {
      |zones| == MAX_ZONES && |zoneLabels| == MAX_ZONES && forall i | 0 <= i < MAX_ZONES :: |zoneLabels[i]| == SLOT
    }

    predicate IsFresh(now: u64) {
      version == LAYOUT_VERSION && SaturatingSub(now, timestampMs) <= STALE_AFTER_MS
    }

    /** The labelled zones among the first `n` slots, in order. */
    function ZonesAmong(n: nat): seq<(seq<u8>, real)>
      requires Fits() && n <= MAX_ZONES
    {
      if n == 0 then []
      else if zones[n - 1].None? then ZonesAmong(n - 1)
      else ZonesAmong(n - 1) + [(UpToNul(zoneLabels[n - 1]), zones[n - 1].value)]
    }

    function ZoneList(): seq<(seq<u8>, real)>
      requires Fits()
    {
      ZonesAmong(Min(zoneCount, MAX_ZONES))
    }
  }

  /** A record is fresh when it has this layout and is at most fifteen seconds old. */
  lemma {:induction false} FreshIff(r: SharedTemperature, now: u64)
    ensures r.IsFresh(now) <==> r.version == 4 && now <= r.timestampMs + 15_000
  {
  }

  /** The bytes before the first NUL. */
  function UpToNul(bytes: seq<u8>): seq<u8> {
    if bytes == [] || bytes[0] == 0 then [] else [bytes[0]] + UpToNul(bytes[1..])
  }

  function Zeros(n: nat): seq<u8> {
    seq(n, _ => 0)
  }

  /** At most the first seven bytes of a label. */
  function Cut(text: seq<u8>): seq<u8> {
    text[..Min(|text|, LABEL)]
  }

  /** The published record: the reading, stamped with the writing binary's own version and revision. */
  function Payload(reading: SharedTemperature, sequence: u32): SharedTemperature {
    reading.(sequence := sequence, version := LAYOUT_VERSION, helperRevision := HELPER_REVISION)
  }

  /** What a reader should be told about the first `n` zones. */
  function Listed(zones: seq<Zone>, n: nat): seq<(seq<u8>, real)>
    requires n <= |zones|
  {
    if n == 0 then []
    else if zones[n - 1].celsius.None? then Listed(zones, n - 1)
    else Listed(zones, n - 1) + [(UpToNul(Cut(zones[n - 1].text)), zones[n - 1].celsius.value)]
  }

  /** Afterwards the slot holds the first seven bytes of the text, or all of it, and zeros after them. */
  method SetLabel(slot: array<u8>, text: seq<u8>)
    requires slot.Length == SLOT
    modifies slot
    ensures slot[..] == Cut(text) + Zeros(SLOT - |Cut(text)|)
  {
    for i := 0 to slot.Length
      invariant forall k | 0 <= k < i :: slot[k] == 0
    {
      slot[i] := 0;
    }
    for i := 0 to Min(|text|, LABEL)
      invariant slot[..i] == text[..i]
      invariant forall k | i <= k < SLOT :: slot[k] == 0
    {
      slot[i] := text[i];
    }
  }

  /** The record holds the first zones the sensor reported, each in its own slot, and says how many. */
  predicate Holds(out: SharedTemperature, zones: seq<Zone>) {
    && out.Fits() && out.zoneCount == Min(|zones|, MAX_ZONES)
    && forall i | 0 <= i < out.zoneCount ::
         && out.zones[i] == zones[i].celsius
         && out.zoneLabels[i] == Cut(zones[i].text) + Zeros(SLOT - |Cut(zones[i].text)|)
  }

  /** One pass of the helper: everything it read, laid out for publishing. */
  method Pack(now: u64, packageC: Option<real>, watts: Option<real>, tjmax: Option<real>, zones: seq<Zone>)
    returns (out: SharedTemperature)
    ensures Holds(out, zones)
    ensures forall i | out.zoneCount <= i < MAX_ZONES :: out.zones[i] == None && out.zoneLabels[i] == Zeros(SLOT)
    ensures out.version == LAYOUT_VERSION && out.helperRevision == HELPER_REVISION && out.sequence == 0
    ensures out.timestampMs == now && out.packageC == packageC && out.packageWatts == watts && out.tjmaxC == tjmax
  {
    var celsius := new Option<real>[MAX_ZONES](_ => None);
    var labels := new seq<u8>[MAX_ZONES](_ => Zeros(SLOT));
    var n := Min(|zones|, MAX_ZONES);
    for i := 0 to n
      invariant forall k | 0 <= k < MAX_ZONES :: |labels[k]| == SLOT
      invariant forall k | i <= k < MAX_ZONES :: celsius[k] == None && labels[k] == Zeros(SLOT)
      invariant forall k | 0 <= k < i ::
                  celsius[k] == zones[k].celsius && labels[k] == Cut(zones[k].text) + Zeros(SLOT - |Cut(zones[k].text)|)
    {
      celsius[i] := zones[i].celsius;
      var slot := new u8[SLOT];
      SetLabel(slot, zones[i].text);
      labels[i] := slot[..];
    }
    out := SharedTemperature(
      LAYOUT_VERSION, HELPER_REVISION, 0, now, packageC, watts, tjmax, n, celsius[..], labels[..]);
  }

  lemma {:induction false} UpToNulOfSlot(bytes: seq<u8>, n: nat)
    requires n > 0
    ensures UpToNul(bytes + Zeros(n)) == UpToNul(bytes)
  {
    if bytes == [] {
      assert (bytes + Zeros(n))[0] == 0;
    } else if bytes[0] != 0 {
      assert (bytes + Zeros(n))[1..] == bytes[1..] + Zeros(n);
      UpToNulOfSlot(bytes[1..], n);
    }
  }

  lemma {:induction false} UpToNulOfText(bytes: seq<u8>)
    requires 0 !in bytes
    ensures UpToNul(bytes) == bytes
  {
    if bytes != [] {
      assert bytes[0] in bytes;
      UpToNulOfText(bytes[1..]);
    }
  }

  lemma {:induction false} ZonesComeBack(r: SharedTemperature, zones: seq<Zone>, n: nat)
    requires Holds(r, zones) && n <= r.zoneCount
    ensures r.ZonesAmong(n) == Listed(zones, n)
  {
    if n > 0 {
      ZonesComeBack(r, zones, n - 1);
      UpToNulOfSlot(Cut(zones[n - 1].text), SLOT - |Cut(zones[n - 1].text)|);
    }
  }

  /**
   Whatever the helper packed and then stamped comes back: the first sixteen zones in order, each label cut to seven
   bytes, the measured fields as they were read, under the writer's own version and revision.
   */
  lemma {:induction false} PublishedZonesRoundTrip(out: SharedTemperature, zones: seq<Zone>, sequence: u32, now: u64)
    requires Holds(out, zones)
    ensures
      var p := Payload(out, sequence);
      && p.Fits() && p.ZoneList() == Listed(zones, Min(|zones|, 16))
      && p.version == 4 && p.helperRevision == 5 && p.sequence == sequence
      && p.packageC == out.packageC && p.packageWatts == out.packageWatts && p.tjmaxC == out.tjmaxC
      && (p.IsFresh(now) <==> now <= out.timestampMs + 15_000)
  {
    var p := Payload(out, sequence);
    assert Holds(p, zones);
    ZonesComeBack(p, zones, Min(|zones|, MAX_ZONES));
  }

  /** Labels of at most seven bytes and without NUL come back unchanged, and no zone with a temperature is lost. */
  lemma {:induction false} ShortLabelsComeBackUnchanged(zones: seq<Zone>, n: nat)
    requires n <= |zones|
    requires forall z | z in zones :: z.celsius.Some? && |z.text| <= 7 && 0 !in z.text
    ensures Listed(zones, n) == seq(n, i requires 0 <= i < n => (zones[i].text, zones[i].celsius.value))
  {
    if n > 0 {
      ShortLabelsComeBackUnchanged(zones, n - 1);
      var z := zones[n - 1];
      assert z in zones && Cut(z.text) == z.text;
      UpToNulOfText(z.text);
    }
  }
}

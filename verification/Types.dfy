/** What a platform backend reports about the machine at one moment. */
module Types {
  import opened Basics

  datatype Resource = Cpu | Memory | Io

  /** The stall of each resource, between 0 and 1; absent for a disk with no baseline. */
  datatype StallSignal = StallSignal(cpu: real, memory: real, io: Option<real>) {

    /** The resource under most pressure; ties go to the processor, then memory. */
    function Worst(): (Resource, real) {
      var a := (Resource.Cpu, cpu);
      var b := if memory > a.1 then (Memory, memory) else a;
      if io.Some? && io.value > b.1 then (Io, io.value) else b
    }

    /** The stall of one resource, when it is known. */
    function Of(r: Resource): Option<real> {
      match r
      case Cpu => Some(cpu)
      case Memory => Some(memory)
      case Io => io
    }
  }

  datatype CpuReading = CpuReading(
    allCoreMhz: Option<u32>,
    utilizationPct: Option<real>,
    reportedBaseMhz: Option<u32>,
    packageWatts: Option<real>,
    packageTempC: Option<real>,
    tjmaxC: Option<real>,
    throttleAsserted: bool)

  datatype ProcessReading = ProcessReading(
    pid: u32,
    name: string,
    displayName: Option<string>,
    workingSetBytes: u64,
    cpuPercent: real)

  /** The order in which ties are resolved. */
  function TieOrder(r: Resource): nat {
    match r
    case Cpu => 0
    case Memory => 1
    case Io => 2
  }

  /** `Worst` is attained, is known, and everything known is below it or, when as high, comes after it in the order. */
  lemma {:induction false} WorstIsGreatest(s: StallSignal)
    ensures s.Of(s.Worst().0) == Some(s.Worst().1)
    ensures forall r: Resource :: s.Of(r).Some? ==> s.Of(r).value <= s.Worst().1
    ensures forall r: Resource :: s.Of(r) == Some(s.Worst().1) ==> TieOrder(s.Worst().0) <= TieOrder(r)
  {
    forall r: Resource | s.Of(r).Some?
      ensures s.Of(r).value <= s.Worst().1 && (s.Of(r).value == s.Worst().1 ==> TieOrder(s.Worst().0) <= TieOrder(r))
    {
      match r
      case Cpu =>
      case Memory =>
      case Io =>
    }
  }
}

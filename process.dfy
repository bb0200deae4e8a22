/** What the process monitor works on: the items an enumeration of the
    operating system's processes yields, the rows of the process table,
    and the (pid, cpu, memory) samples a refresh records. */
module Process {
  import opened Text

  /** The five columns of the process table. */
  datatype Column = PID | Name | CPU | Memory | Threads

  /** One process as the enumeration reports it, with the attributes pid,
      name, cpu_percent, memory_percent and num_threads. */
  datatype ProcessInfo = ProcessInfo(pid: nat, name: string, cpu: real, memory: real, threads: nat)

  /** One item of the enumeration: a process whose attributes can be read,
      or one whose attribute read raises NoSuchProcess or AccessDenied. */
  datatype Probe = Readable(info: ProcessInfo) | Unreadable

  /** The triple a refresh records for each process it shows. */
  datatype Sample = Sample(pid: nat, cpu: real, memory: real)

  /** One entry of the history: the samples of one refresh, in order. */
  type Snapshot = seq<Sample>

  function SampleOf(info: ProcessInfo): Sample
  {
    Sample(info.pid, info.cpu, info.memory)
  }

  /** The processes among the first `n` items of an enumeration whose
      attributes could be read, in enumeration order: an unreadable item is
      skipped and the walk goes on. */
  function ReadablesBefore(probes: seq<Probe>, n: nat): seq<ProcessInfo>
    requires n <= |probes|
    decreases n
  {
    if n == 0 then []
    else
      match probes[n - 1]
      case Readable(info) => ReadablesBefore(probes, n - 1) + [info]
      case Unreadable => ReadablesBefore(probes, n - 1)
  }

  /** The processes of the whole enumeration that could be read. */
  function Readables(probes: seq<Probe>): seq<ProcessInfo>
  {
    ReadablesBefore(probes, |probes|)
  }

  /** The (pid, cpu, memory) triples of some processes, in their order. */
  function Samples(infos: seq<ProcessInfo>): Snapshot
  {
    seq(|infos|, k requires 0 <= k < |infos| => SampleOf(infos[k]))
  }

  /** The snapshot a refresh builds from an enumeration: one sample per
      process it manages to read. */
  function SnapshotOf(probes: seq<Probe>): Snapshot
  {
    Samples(Readables(probes))
  }

  /** Sampling one more process adds its triple at the end. */
  lemma SamplesAppend(infos: seq<ProcessInfo>, info: ProcessInfo)
    ensures Samples(infos + [info]) == Samples(infos) + [SampleOf(info)]
  {
  }

  /** A process is among those read from the first `n` items exactly when
      one of those items yielded it readable. */
  lemma {:induction false} ReadablesExactly(probes: seq<Probe>, n: nat)
    requires n <= |probes|
    ensures forall info :: info in ReadablesBefore(probes, n) <==> exists j :: 0 <= j < n && probes[j] == Readable(info)
  {
    if n != 0 {
      ReadablesExactly(probes, n - 1);
    }
  }

  /** A stretch of the enumeration in which every process can be read
      loses none: the k-th process read is the k-th item's. */
  lemma {:induction false} ReadablesOfReadable(probes: seq<Probe>, n: nat)
    requires n <= |probes|
    requires forall j :: 0 <= j < n ==> probes[j].Readable?
    ensures |ReadablesBefore(probes, n)| == n
    ensures forall k :: 0 <= k < n ==> ReadablesBefore(probes, n)[k] == probes[k].info
  {
    if n != 0 {
      ReadablesOfReadable(probes, n - 1);
    }
  }

  /** Position of the first unreadable item, or the length when there is
      none: how far a walk without exception handling gets. */
  function FirstUnreadable(probes: seq<Probe>): (n: nat)
    ensures n <= |probes|
    ensures forall j :: 0 <= j < n ==> probes[j].Readable?
    ensures n < |probes| ==> probes[n].Unreadable?
  {
    if |probes| == 0 || probes[0].Unreadable? then 0
    else 1 + FirstUnreadable(probes[1..])
  }

  /** The processes a walk reads before the first unreadable item stops it. */
  function ReadablePrefix(probes: seq<Probe>): seq<ProcessInfo>
  {
    ReadablesBefore(probes, FirstUnreadable(probes))
  }

  /** A walk that stops at the first unreadable item, or at the end, has
      stopped where that item is, and it reached the end exactly when every
      item was readable. */
  lemma WalkEnds(probes: seq<Probe>, i: nat)
    requires i <= FirstUnreadable(probes)
    requires i == |probes| || probes[i].Unreadable?
    ensures FirstUnreadable(probes) == i
    ensures i == |probes| <==> forall j :: 0 <= j < |probes| ==> probes[j].Readable?
  {
  }

  /** A treeview item, known by the serial Tk numbered it with when it was
      inserted; `IdText` is the id string Tk hands out for it. */
  datatype ItemId = ItemId(serial: nat)

  function IdText(id: ItemId): string
  {
    RowId(id.serial)
  }

  /** A row of the process table: the item and the process whose values
      the row shows. */
  datatype Row = Row(iid: ItemId, info: ProcessInfo)

  /** The text a cell holds. The values are handed to Tk as one string,
      so every cell, numbers included, comes back as text; `floatText`
      stands for Python's `str()` of a float. */
  function CellText(info: ProcessInfo, col: Column, floatText: real -> string): string
  {
    match col
    case PID => Decimal(info.pid)
    case Name => info.name
    case CPU => floatText(info.cpu) + "%"
    case Memory => floatText(info.memory) + "%"
    case Threads => Decimal(info.threads)
  }

  /** What the sort compares for a row: the cell's text, then the item
      (compared by its id string). */
  type Key = (string, ItemId)

  function KeyOf(r: Row, col: Column, floatText: real -> string): Key
  {
    (CellText(r.info, col, floatText), r.iid)
  }

  function KeysOf(rows: seq<Row>, col: Column, floatText: real -> string): (keys: seq<Key>)
    ensures |keys| == |rows|
  {
    seq(|rows|, i requires 0 <= i < |rows| => KeyOf(rows[i], col, floatText))
  }

  /** Rows freshly inserted for `infos` when the last id used was the
      `serial`-th: Tk numbers them on from there. */
  function FreshRows(infos: seq<ProcessInfo>, serial: nat): seq<Row>
  {
    seq(|infos|, k requires 0 <= k < |infos| => Row(ItemId(serial + 1 + k), infos[k]))
  }

  /** Rows for one more process: the next id goes to the new last row. */
  lemma FreshRowsAppend(infos: seq<ProcessInfo>, info: ProcessInfo, serial: nat)
    ensures FreshRows(infos + [info], serial) ==
      FreshRows(infos, serial) + [Row(ItemId(serial + 1 + |infos|), info)]
  {
  }

  /** Rows built from `shown` under serials after `serial0`, with the next
      serial `serial`, extend by the row Tk inserts next. */
  lemma FreshRowsExtend(rows: seq<Row>, shown: seq<ProcessInfo>, info: ProcessInfo, serial0: nat, serial: nat)
    requires rows == FreshRows(shown, serial0) && serial == serial0 + |shown|
    ensures rows + [Row(ItemId(serial + 1), info)] == FreshRows(shown + [info], serial0)
  {
    FreshRowsAppend(shown, info, serial0);
  }
}

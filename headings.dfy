/** The sort direction each column heading carries. Every heading starts
    out sorting ascending; after a sort, the sorted column's heading is
    rebound to sort the other way next time. The "Sort by PID" button
    always sorts ascending, and rebinds the PID heading like any sort. */
module Headings {
  import opened Process

  /** For each column, the `reverse` argument its heading passes next. */
  datatype Directions = Directions(pid: bool, name: bool, cpu: bool, memory: bool, threads: bool)
  {
    function Get(c: Column): bool
    {
      match c
      case PID => pid
      case Name => name
      case CPU => cpu
      case Memory => memory
      case Threads => threads
    }

    /** The same bindings with the heading of `c` rebound to pass `b`. */
    function Set(c: Column, b: bool): (d: Directions)
      ensures d.Get(c) == b
      ensures forall c' :: c' != c ==> d.Get(c') == Get(c')
    {
      match c
      case PID => this.(pid := b)
      case Name => this.(name := b)
      case CPU => this.(cpu := b)
      case Memory => this.(memory := b)
      case Threads => this.(threads := b)
    }
  }

  /** The bindings made when the table is built: every heading ascending. */
  const Initial: Directions := Directions(false, false, false, false, false)

  /** What can start a sort: a heading, or the "Sort by PID" button. */
  datatype SortRequest = HeadingClick(col: Column) | SortByPidButton

  function RequestColumn(r: SortRequest): Column
  {
    match r
    case HeadingClick(c) => c
    case SortByPidButton => PID
  }

  /** The `reverse` argument the request sorts with. */
  function RequestReverse(d: Directions, r: SortRequest): bool
  {
    match r
    case HeadingClick(c) => d.Get(c)
    case SortByPidButton => false
  }

  /** The bindings after a sort: the sorted column's heading now passes
      the opposite of what this sort used; the others are untouched. */
  function After(d: Directions, r: SortRequest): Directions
  {
    d.Set(RequestColumn(r), !RequestReverse(d, r))
  }

  /** The bindings after a run of sort requests. */
  function Run(d: Directions, rs: seq<SortRequest>): Directions
  {
    if |rs| == 0 then d else After(Run(d, rs[..|rs| - 1]), rs[|rs| - 1])
  }

  /** How many requests of a run are clicks on the heading of `c`. */
  function Clicks(rs: seq<SortRequest>, c: Column): nat
  {
    if |rs| == 0 then 0
    else Clicks(rs[..|rs| - 1], c) + if rs[|rs| - 1] == HeadingClick(c) then 1 else 0
  }

  /** A column's next sort is descending exactly when its heading has been
      clicked an odd number of times: the first click sorts ascending and
      each later click flips the direction. "Sort by PID" presses in between
      change nothing for the other columns; for PID the run is made of
      heading clicks alone. */
  lemma {:induction false} HeadingsAlternate(rs: seq<SortRequest>, c: Column)
    requires c != PID || forall i :: 0 <= i < |rs| ==> rs[i].HeadingClick?
    ensures Run(Initial, rs).Get(c) == (Clicks(rs, c) % 2 == 1)
  {
    if rs != [] {
      HeadingsAlternate(rs[..|rs| - 1], c);
    }
  }

  /** After the "Sort by PID" button, the PID heading sorts descending. */
  lemma ButtonThenPidHeadingDescends(d: Directions)
    ensures RequestReverse(After(d, SortByPidButton), HeadingClick(PID))
  {
  }
}

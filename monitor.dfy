/** The process monitor's state and the callbacks that change it: the
    rows of the process table, Tk's count of inserted items, the history
    of snapshots, and the direction each column heading sorts next. */
module Monitor {
  import opened Text
  import opened Process
  import opened Query
  import opened Sorting
  import opened Headings

  datatype Option<T> = None | Some(value: T)

  /** How the operating system answers a terminate or nice request. */
  datatype OsReply = Done | NoSuchProcess | AccessDenied | ValueError

  /** A request made to the operating system on the user's behalf. */
  datatype OsCall = Terminate(pid: nat) | Nice(pid: nat, priority: int)

  /** How a kill or set-priority command ends. */
  datatype Outcome =
    | NoSelection        // a warning asks the user to select a process
    | Succeeded(pid: nat) // the request went through
    | ProcessGone        // "Process no longer exists."
    | InvalidPriority    // "Invalid priority value."
    | Aborted            // an exception the command does not catch

  /** What holds of the rows of a Tk treeview: no row twice, no id twice,
      and every id made from a serial Tk has already used. */
  ghost predicate Tracked(rows: seq<Row>, serial: nat)
  {
    UniqueRows(rows) && forall r :: r in rows ==> r.iid.serial <= serial
  }

  /** Rows inserted one after another into an emptied table are tracked
      once the serial has moved past all of them. */
  lemma FreshRowsTracked(infos: seq<ProcessInfo>, serial: nat)
    ensures Tracked(FreshRows(infos, serial), serial + |infos|)
  {
    FreshRowsUnique(infos, serial);
    FreshRowsSerials(infos, serial);
  }

  /** Reordering tracked rows keeps them tracked. */
  lemma TrackedPermuted(rows: seq<Row>, rows': seq<Row>, serial: nat)
    requires Tracked(rows, serial) && multiset(rows') == multiset(rows)
    ensures Tracked(rows', serial)
  {
    UniqueRowsPermuted(rows, rows');
    assert forall r :: r in rows' ==> r in multiset(rows);
  }

  /** The rows a search or filter inserts while walking the first `n`
      items of an enumeration with the row test `accept`, numbered from
      `serial0`: one per readable process the test accepts, in the order
      met. */
  function ShownRows(accept: ProcessInfo -> bool, probes: seq<Probe>, n: nat, serial0: nat): seq<Row>
    requires n <= |probes|
    decreases n
  {
    if n == 0 then []
    else
      var prev := ShownRows(accept, probes, n - 1, serial0);
      var p := probes[n - 1];
      if p.Readable? && accept(p.info) then prev + [Row(ItemId(serial0 + 1 + |prev|), p.info)]
      else prev
  }

  /** Walking with a row test inserts the fresh rows for the processes
      the test selects from the readable ones. */
  lemma {:induction false} ShownRowsSelect(accept: ProcessInfo -> bool, probes: seq<Probe>, n: nat, serial0: nat)
    requires n <= |probes|
    ensures ShownRows(accept, probes, n, serial0) == FreshRows(Select(accept, ReadablesBefore(probes, n)), serial0)
  {
    if n != 0 {
      ShownRowsSelect(accept, probes, n - 1, serial0);
      var p, read := probes[n - 1], ReadablesBefore(probes, n - 1);
      if p.Readable? {
        SelectAppend(accept, read, p.info);
        if accept(p.info) {
          FreshRowsAppend(Select(accept, read), p.info, serial0);
        }
      }
    }
  }

  class ProcessMonitor {
    /** Python's `str()` of a float; the model does not define it. */
    const floatText: real -> string
    /** The rows of the process table, in display order. */
    var rows: seq<Row>
    /** How many items Tk has inserted into the table so far. */
    var serial: nat
    /** Every snapshot taken, oldest first; nothing is ever dropped. */
    var history: seq<Snapshot>
    /** The `reverse` argument each column heading passes next. */
    var directions: Directions

    ghost predicate Valid()
      reads this
    {
      Tracked(rows, serial)
    }

    /** The state before the first refresh: an empty table, no history,
        every heading sorting ascending. */
    constructor (floatText: real -> string)
      ensures Valid()
      ensures this.floatText == floatText
      ensures rows == [] && serial == 0 && history == [] && directions == Initial
    {
      this.floatText := floatText;
      rows := [];
      serial := 0;
      history := [];
      directions := Initial;
    }

    /** update_process_list: the table is emptied and refilled from a new
        enumeration, skipping the processes that cannot be read; the
        (pid, cpu, memory) triples of the rows shown form a snapshot that
        is appended to the history. */
    method Refresh(probes: seq<Probe>)
      modifies this`rows, this`serial, this`history
      ensures Valid()
      ensures rows == FreshRows(Readables(probes), old(serial))
      ensures serial == old(serial) + |Readables(probes)|
      ensures history == old(history) + [SnapshotOf(probes)]
      ensures |history[|history| - 1]| == |rows|
      ensures forall k :: 0 <= k < |rows| ==> history[|history| - 1][k] == SampleOf(rows[k].info)
      ensures directions == old(directions)
    {
      rows := [];
      var snapshot: Snapshot := [];
      ghost var read: seq<ProcessInfo> := [];
      var i := 0;
      while i < |probes|
        invariant i <= |probes|
        invariant read == ReadablesBefore(probes, i)
        invariant snapshot == Samples(read)
        invariant rows == FreshRows(read, old(serial))
        invariant serial == old(serial) + |read|
        invariant history == old(history)
      {
        match probes[i] {
          case Readable(info) =>
            FreshRowsExtend(rows, read, info, old(serial), serial);
            SamplesAppend(read, info);
            rows := rows + [Row(ItemId(serial + 1), info)];
            serial := serial + 1;
            snapshot := snapshot + [SampleOf(info)];
            read := read + [info];
          case Unreadable =>
        }
        i := i + 1;
      }
      FreshRowsTracked(read, old(serial));
      history := history + [snapshot];
    }

    /** The loop shared by search_process and filter_processes: the table
        is emptied, and each enumerated process the row test accepts gets
        a row. Neither loop catches exceptions, so the first process whose
        attributes cannot be read ends the command, leaving the rows
        inserted so far. */
    method ShowWhere(accept: ProcessInfo -> bool, probes: seq<Probe>) returns (completed: bool)
      modifies this`rows, this`serial
      ensures completed <==> forall j :: 0 <= j < |probes| ==> probes[j].Readable?
      ensures rows == ShownRows(accept, probes, FirstUnreadable(probes), old(serial))
      ensures serial == old(serial) + |rows|
      ensures history == old(history) && directions == old(directions)
    {
      rows := [];
      var i := 0;
      while i < |probes| && probes[i].Readable?
        invariant i <= FirstUnreadable(probes)
        invariant rows == ShownRows(accept, probes, i, old(serial))
        invariant serial == old(serial) + |rows|
      {
        var info := probes[i].info;
        if accept(info) {
          rows := rows + [Row(ItemId(serial + 1), info)];
          serial := serial + 1;
        }
        i := i + 1;
      }
      WalkEnds(probes, i);
      completed := i == |probes|;
    }

    /** search_process: show the processes whose lower-cased name contains
        the lower-cased text. */
    method Search(text: string, probes: seq<Probe>) returns (completed: bool)
      modifies this`rows, this`serial
      ensures Valid()
      ensures completed <==> forall j :: 0 <= j < |probes| ==> probes[j].Readable?
      ensures rows == FreshRows(Select(Test(SearchFor(text)), ReadablePrefix(probes)), old(serial))
      ensures serial == old(serial) + |rows|
      ensures history == old(history) && directions == old(directions)
    {
      var accept := Test(SearchFor(text));
      completed := ShowWhere(accept, probes);
      ghost var shown := Select(accept, ReadablePrefix(probes));
      ShownRowsSelect(accept, probes, FirstUnreadable(probes), old(serial));
      assert rows == FreshRows(shown, old(serial)) && serial == old(serial) + |shown|;
      FreshRowsTracked(shown, old(serial));
    }

    /** filter_processes: show the processes whose CPU and memory
        percentages both reach their thresholds. */
    method Filter(cpuMin: real, memoryMin: real, probes: seq<Probe>) returns (completed: bool)
      modifies this`rows, this`serial
      ensures Valid()
      ensures completed <==> forall j :: 0 <= j < |probes| ==> probes[j].Readable?
      ensures rows == FreshRows(Select(Test(AtLeast(cpuMin, memoryMin)), ReadablePrefix(probes)), old(serial))
      ensures serial == old(serial) + |rows|
      ensures history == old(history) && directions == old(directions)
    {
      var accept := Test(AtLeast(cpuMin, memoryMin));
      completed := ShowWhere(accept, probes);
      ghost var shown := Select(accept, ReadablePrefix(probes));
      ShownRowsSelect(accept, probes, FirstUnreadable(probes), old(serial));
      assert rows == FreshRows(shown, old(serial)) && serial == old(serial) + |shown|;
      FreshRowsTracked(shown, old(serial));
    }

    /** The loop of sort_treeview: for each key of the sorted list in
        turn, the row with that key's id is moved to the key's position.
        The rows end up in the order of the keys. */
    method MoveIntoOrder(l: seq<Key>, col: Column)
      requires UniqueRows(rows)
      requires multiset(l) == multiset(KeysOf(rows, col, floatText))
      modifies this`rows
      ensures multiset(rows) == multiset(old(rows))
      ensures KeysOf(rows, col, floatText) == l
    {
      assert |l| == |rows| by {
        assert |multiset(l)| == |multiset(KeysOf(rows, col, floatText))|;
      }
      assert rows[0..] == rows && l[0..] == l;
      ghost var rows0 := rows;
      for index := 0 to |l|
        invariant |rows| == |l|
        invariant multiset(rows) == multiset(rows0)
        invariant forall a :: 0 <= a < index ==> KeyOf(rows[a], col, floatText) == l[a]
        invariant multiset(l[index..]) == multiset(KeysOf(rows[index..], col, floatText))
      {
        UniqueRowsPermuted(rows0, rows);
        ghost var j := MoveStep(rows, l, index, col, floatText);
        rows := MoveTo(rows, l[index].1, index);
      }
    }

    /** sort_treeview(col, reverse): the (cell text, row id) pairs of the
        rows are sorted, ascending or descending, the rows are moved into
        that order, and the column's heading is rebound to sort the other
        way next time. */
    method SortBy(col: Column, reverse: bool)
      requires Valid()
      modifies this`rows, this`directions
      ensures Valid()
      ensures multiset(rows) == multiset(old(rows))
      ensures KeysOf(rows, col, floatText) == SortKeys(KeysOf(old(rows), col, floatText), reverse)
      ensures SortedBy(KeysOf(rows, col, floatText), reverse)
      ensures directions == old(directions).Set(col, !reverse)
      ensures history == old(history) && serial == old(serial)
    {
      var l := KeysOf(rows, col, floatText);
      SortKeysPermutes(l, reverse);
      SortKeysSorted(l, reverse);
      l := SortKeys(l, reverse);
      MoveIntoOrder(l, col);
      TrackedPermuted(old(rows), rows, serial);
      directions := directions.Set(col, !reverse);
    }

    /** A click on a column heading sorts by that column in the direction
        the heading currently carries. */
    method ClickHeading(col: Column)
      requires Valid()
      modifies this`rows, this`directions
      ensures Valid()
      ensures multiset(rows) == multiset(old(rows))
      ensures SortedBy(KeysOf(rows, col, floatText), old(directions).Get(col))
      ensures directions == After(old(directions), HeadingClick(col))
      ensures history == old(history) && serial == old(serial)
    {
      SortBy(col, directions.Get(col));
    }

    /** The "Sort by PID" button always sorts by PID ascending. */
    method PressSortByPid()
      requires Valid()
      modifies this`rows, this`directions
      ensures Valid()
      ensures multiset(rows) == multiset(old(rows))
      ensures SortedBy(KeysOf(rows, PID, floatText), false)
      ensures directions == After(old(directions), SortByPidButton)
      ensures history == old(history) && serial == old(serial)
    {
      SortBy(PID, false);
    }

    /** The process a selection designates: `item()` accepts exactly one
        selected row. */
    function SelectedPid(selection: seq<ItemId>): (pid: Option<nat>)
      reads this
      requires forall k :: k in selection ==> FindId(rows, k) < |rows|
      ensures pid.Some? <==> |selection| == 1
      ensures pid.Some? ==> exists r :: r in rows && r.iid == selection[0] && r.info.pid == pid.value
    {
      if |selection| == 1 then Some(rows[FindId(rows, selection[0])].info.pid) else None
    }

    /** kill_process: with no selection, a warning and nothing else. With
        one selected row, the process is asked to terminate; success and
        NoSuchProcess are reported and followed by a refresh, any other
        exception ends the command. Several selected rows make `item()`
        fail before any request. */
    method Kill(selection: seq<ItemId>, reply: OsReply, probes: seq<Probe>)
      returns (outcome: Outcome, call: Option<OsCall>)
      requires Valid()
      requires forall k :: k in selection ==> FindId(rows, k) < |rows|
      modifies this
      ensures Valid()
      ensures selection == [] ==> outcome == NoSelection && call == None
      ensures |selection| > 1 ==> outcome == Aborted && call == None
      ensures old(SelectedPid(selection)).Some? ==>
        var pid := old(SelectedPid(selection)).value;
        && call == Some(Terminate(pid))
        && outcome == match reply
                      case Done => Succeeded(pid)
                      case NoSuchProcess => ProcessGone
                      case _ => Aborted
      ensures outcome in {Aborted, NoSelection} ==>
        rows == old(rows) && serial == old(serial) && history == old(history)
      ensures outcome !in {Aborted, NoSelection} ==>
        && rows == FreshRows(Readables(probes), old(serial))
        && serial == old(serial) + |Readables(probes)|
        && history == old(history) + [SnapshotOf(probes)]
      ensures directions == old(directions)
    {
      if selection == [] {
        return NoSelection, None;
      }
      var pid := SelectedPid(selection);
      if pid.None? {
        return Aborted, None;
      }
      call := Some(Terminate(pid.value));
      match reply {
        case Done =>
          outcome := Succeeded(pid.value);
        case NoSuchProcess =>
          outcome := ProcessGone;
        case _ =>
          return Aborted, call;
      }
      Refresh(probes);
    }

    /** set_priority: with no selection, a warning and nothing else. With
        one selected row, the process's niceness is set to the priority;
        NoSuchProcess and ValueError are reported, any other exception ends
        the command. The table is not refreshed. */
    method SetPriority(selection: seq<ItemId>, priority: int, reply: OsReply)
      returns (outcome: Outcome, call: Option<OsCall>)
      requires forall k :: k in selection ==> FindId(rows, k) < |rows|
      ensures selection == [] ==> outcome == NoSelection && call == None
      ensures |selection| > 1 ==> outcome == Aborted && call == None
      ensures SelectedPid(selection).Some? ==>
        var pid := SelectedPid(selection).value;
        && call == Some(Nice(pid, priority))
        && outcome == match reply
                      case Done => Succeeded(pid)
                      case NoSuchProcess => ProcessGone
                      case ValueError => InvalidPriority
                      case AccessDenied => Aborted
    {
      if selection == [] {
        return NoSelection, None;
      }
      var pid := SelectedPid(selection);
      if pid.None? {
        return Aborted, None;
      }
      call := Some(Nice(pid.value, priority));
      outcome := match reply
        case Done => Succeeded(pid.value)
        case NoSuchProcess => ProcessGone
        case ValueError => InvalidPriority
        case AccessDenied => Aborted;
    }
  }
}

/** Reading the history of snapshots: the window of the most recent ten
    that the historical chart shows, and the per-snapshot columns of pids,
    CPU and memory percentages it plots. */
module History {
  import opened Process

  /** How many snapshots the historical chart shows. */
  const WindowSize: nat := 10

  /** Python's `history[-10:]`: the last ten snapshots, or all of them when
      there are fewer. */
  function Window(history: seq<Snapshot>): seq<Snapshot>
  {
    if |history| <= WindowSize then history else history[|history| - WindowSize..]
  }

  /** The window holds min(10, |history|) snapshots, the most recent ones,
      oldest first. */
  lemma WindowIsRecent(history: seq<Snapshot>)
    ensures |Window(history)| == if |history| < WindowSize then |history| else WindowSize
    ensures forall i :: 0 <= i < |Window(history)| ==>
      Window(history)[i] == history[|history| - |Window(history)| + i]
  {
  }

  /** After a refresh appends a snapshot, the window slides by one: the new
      snapshot comes last and, once the window was full, its oldest entry
      drops out. */
  lemma WindowSlides(history: seq<Snapshot>, s: Snapshot)
    ensures Window(history + [s]) ==
      (if |history| < WindowSize then Window(history) else Window(history)[1..]) + [s]
  {
    var h := history + [s];
    if |history| >= WindowSize {
      assert h[|h| - WindowSize..] == history[|history| - WindowSize + 1..] + [s];
    }
  }

  /** The three columns `zip(*snapshot)` splits a snapshot into. */
  datatype Series = Series(pids: seq<nat>, cpu: seq<real>, memory: seq<real>)

  /** `zip(*snapshot)`, or three empty columns for an empty snapshot. */
  function Unzip(s: Snapshot): (r: Series)
    ensures |r.pids| == |r.cpu| == |r.memory| == |s|
  {
    if |s| == 0 then Series([], [], [])
    else
      var init := Unzip(s[..|s| - 1]);
      var last := s[|s| - 1];
      Series(init.pids + [last.pid], init.cpu + [last.cpu], init.memory + [last.memory])
  }

  /** Zipping three equally long columns back into samples. */
  function Zip(r: Series): Snapshot
    requires |r.pids| == |r.cpu| == |r.memory|
  {
    seq(|r.pids|, i requires 0 <= i < |r.pids| => Sample(r.pids[i], r.cpu[i], r.memory[i]))
  }

  /** Splitting loses nothing: the columns zip back to the snapshot. */
  lemma {:induction false} ZipUnzip(s: Snapshot)
    ensures Zip(Unzip(s)) == s
  {
    if s != [] {
      ZipUnzip(s[..|s| - 1]);
      var z := Zip(Unzip(s));
      forall i | 0 <= i < |s|
        ensures z[i] == s[i]
      {
        if i < |s| - 1 {
          assert z[i] == Zip(Unzip(s[..|s| - 1]))[i];
        }
      }
    }
  }

  /** The series the historical chart plots: one per snapshot of the
      window, oldest first, each the columns of its snapshot. */
  method ChartSeries(history: seq<Snapshot>) returns (series: seq<Series>)
    ensures |series| == |Window(history)|
    ensures forall idx :: 0 <= idx < |series| ==>
      |series[idx].pids| == |series[idx].cpu| == |series[idx].memory| &&
      Zip(series[idx]) == Window(history)[idx]
  {
    var recent := Window(history);
    series := [];
    for idx := 0 to |recent|
      invariant |series| == idx
      invariant forall i :: 0 <= i < idx ==>
        |series[i].pids| == |series[i].cpu| == |series[i].memory| && Zip(series[i]) == recent[i]
    {
      ZipUnzip(recent[idx]);
      series := series + [Unzip(recent[idx])];
    }
  }
}

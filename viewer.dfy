/** `parseFile` from start to finish, short of the window: keep the event lines, seed the two
    bootstrap vertices, replay in the chosen mode, then count the vertices per degree. */
module Viewer {
  import opened SortedStrings
  import opened Topology
  import opened Replay
  import opened Histogram
  import opened CommandLine

  /** The graph the chosen mode leaves behind for the lines of a log. */
  ghost function Replayed(lines: seq<string>, mode: Mode): Topo
  {
    var data := set l | l in lines && IsEventLine(l);
    match mode
    case Interval => PacedReplay(Pace(Seeded(), 0, []), Ascending(data)).topo
    case Final => FinalReplay(Seeded(), Ascending(data))
  }

  /** The lines of the log file are given; the sleeps of interval mode are returned, and the
      final mode sleeps nothing. */
  method ReplayLog(lines: seq<string>, mode: Mode) returns (g: Graph, sleeps: seq<int>, counter: map<nat, nat>)
    ensures fresh(g)
    ensures g.Model() == Replayed(lines, mode)
    ensures mode == Final ==> sleeps == []
    ensures mode == Interval ==> sleeps == PacedReplay(Pace(Seeded(), 0, []), Ascending(set l | l in lines && IsEventLine(l))).sleeps
    ensures SleepsInRange(sleeps)
    ensures Bootstrap8002 in g.vertices && Bootstrap8004 in g.vertices
    ensures WellFormed(g.Model())
    ensures Counts(g.Model(), g.vertices, counter)
  {
    var data := RetainEventLines(lines);
    g := NewSeededGraph();
    ghost var lineOrder := Ascending(data);
    if mode == Interval {
      sleeps := ReplayPaced(g, data);
      PacedSleepsBounded(Pace(Seeded(), 0, []), lineOrder);
      PacedKeepsVertices(Pace(Seeded(), 0, []), lineOrder);
    } else {
      ReplayFinal(g, data);
      sleeps := [];
      FinalKeepsVertices(Seeded(), lineOrder);
    }
    counter := DegreeHistogram(g);
  }
}

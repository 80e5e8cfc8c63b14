/** The body of `parseFile`: keep the OPEN/CLOSE lines in a sorted set, seed the two
    bootstrap vertices, then replay the lines either all at once ("final") or paced by
    their timestamps ("interval"). */
module Replay {
  import opened JavaString
  import opened SortedStrings
  import opened ReplayClock
  import opened Topology
  import opened Events

  /** A line the viewer keeps: it mentions OPEN or CLOSE anywhere. */
  predicate IsEventLine(line: string)
  {
    Contains(line, "OPEN") || Contains(line, "CLOSE")
  }

  /** The line filter: every line containing OPEN or CLOSE goes into a `TreeSet`. */
  method RetainEventLines(lines: seq<string>) returns (data: set<string>)
    ensures data == set l | l in lines && IsEventLine(l)
  {
    data := {};
    var i := 0;
    while i < |lines|
      invariant 0 <= i <= |lines|
      invariant data == set l | l in lines[..i] && IsEventLine(l)
    {
      if IsEventLine(lines[i]) {
        data := data + {lines[i]};
      }
      assert lines[..i + 1] == lines[..i] + [lines[i]];
      i := i + 1;
    }
    assert lines[..|lines|] == lines;
  }

  /** The replay visits the retained lines once each, in strictly increasing `compareTo`
      order, and visits exactly the input lines that mention OPEN or CLOSE. */
  lemma RetainedOrder(lines: seq<string>, data: set<string>)
    requires data == set l | l in lines && IsEventLine(l)
    ensures forall x :: x in Ascending(data) <==> x in lines && IsEventLine(x)
    ensures forall i, j :: 0 <= i < j < |Ascending(data)| ==> Below(Ascending(data)[i], Ascending(data)[j])
    ensures |Ascending(data)| == |data|
  {
    AscendingFacts(data);
  }

  const Bootstrap8002: string := "localhost:8002"
  const Bootstrap8004: string := "localhost:8004"

  /** The graph before any event: the two bootstrap vertices and no edge. */
  function Seeded(): Topo
  {
    Topo({Bootstrap8002, Bootstrap8004}, map[])
  }

  /** `new SparseGraph()` followed by the two `addVertex` calls. */
  method NewSeededGraph() returns (g: Graph)
    ensures fresh(g) && g.Model() == Seeded()
  {
    g := new Graph();
    g.AddVertex(Bootstrap8002);
    g.AddVertex(Bootstrap8004);
  }

  // ---------------------------------------------------------------------------
  // Final mode

  /** Final mode: each line that still mentions OPEN or CLOSE is parsed; an exception only
      ends that line. */
  function FinalReplay(t: Topo, lines: seq<string>): Topo
    decreases |lines|
  {
    if lines == [] then t
    else
      var t' := if IsEventLine(lines[0]) then ApplyLine(t, lines[0]).topo else t;
      FinalReplay(t', lines[1..])
  }

  /** The final-mode loop over the `TreeSet`. */
  method ReplayFinal(g: Graph, data: set<string>)
    modifies g
    ensures g.Model() == FinalReplay(old(g.Model()), Ascending(data))
  {
    var rest := data;
    while rest != {}
      invariant rest <= data
      invariant FinalReplay(old(g.Model()), Ascending(data)) == FinalReplay(g.Model(), Ascending(rest))
      decreases |rest|
    {
      var line := TakeLeast(rest);
      AscendingUnfold(rest, line);
      if IsEventLine(line) {
        var outcome := Parse(line, g);
      }
      rest := rest - {line};
    }
  }

  // ---------------------------------------------------------------------------
  // Interval mode

  /** `Long.valueOf(line.split(" ")[0])`: the leading timestamp of a raw line. */
  function Timestamp(line: string): (r: Result<int>)
    ensures r.Ok? ==> IsLong(r.value)
    ensures Split(line) == [] ==> r == Err(IndexOutOfBounds)
    ensures Split(line) != [] && ParseLong(Split(line)[0]).None? ==> r == Err(BadNumber)
  {
    var toks := Split(line);
    if toks == [] then Err(IndexOutOfBounds)
    else match ParseLong(toks[0])
      case None => Err(BadNumber)
      case Some(v) => Ok(v)
  }

  /** A line that starts with a non-negative long written in decimal, followed by words,
      has that number as its timestamp. */
  lemma StampedTimestamp(n: nat, words: seq<string>)
    requires n <= MaxLong && forall k :: 0 <= k < |words| ==> Word(words[k])
    ensures Timestamp(JoinSpaces([ShowNat(n)] + words)) == Ok(n)
  {
    var xs := [ShowNat(n)] + words;
    DigitsOfShow(n);
    forall k | 0 <= k < |xs| ensures Word(xs[k]) {
      if k > 0 {
        assert xs[k] == words[k - 1];
      } else {
        var d := ShowNat(n);
        assert forall i :: 0 <= i < |d| ==> IsDigit(d[i]);
      }
    }
    SplitOfWords(xs);
    ParseShowRoundTrip(n);
  }

  /** The state of the interval loop: the graph, the `last` clock (0 until the first event)
      and the pauses slept so far. */
  datatype Pace = Pace(topo: Topo, last: int, sleeps: seq<int>)

  /** One turn of the interval loop. A bad timestamp or a negative pause is an exception that
      skips the line; otherwise the pause is slept, `last` becomes the event's time and the
      line is parsed. The first event (while `last` is 0) is parsed without a pause. */
  function PacedStep(p: Pace, line: string): (r: Pace)
    ensures !IsEventLine(line) ==> r == p
    ensures r.topo == p.topo || r.topo == ApplyLine(p.topo, line).topo
    ensures p.sleeps <= r.sleeps && |r.sleeps| <= |p.sleeps| + 1
    ensures |r.sleeps| > |p.sleeps| ==> r.topo == ApplyLine(p.topo, line).topo && r.sleeps[|p.sleeps|] >= 0
    ensures IsLong(p.last) ==> IsLong(r.last)
  {
    if !IsEventLine(line) then p
    else match Timestamp(line)
      case Err(_) => p
      case Ok(time) =>
        if p.last == 0 then Pace(ApplyLine(p.topo, line).topo, time, p.sleeps)
        else
          var clock := SkippedClock(time, p.last);
          var pause := Sub64(time, clock);
          if pause < 0 then p.(last := clock)
          else Pace(ApplyLine(p.topo, line).topo, time, p.sleeps + [pause])
  }

  function PacedReplay(p: Pace, lines: seq<string>): Pace
    decreases |lines|
  {
    if lines == [] then p else PacedReplay(PacedStep(p, lines[0]), lines[1..])
  }

  /** The interval-mode loop over the `TreeSet`; the sleeps are returned rather than slept. */
  method ReplayPaced(g: Graph, data: set<string>) returns (sleeps: seq<int>)
    modifies g
    ensures var p := PacedReplay(Pace(old(g.Model()), 0, []), Ascending(data));
      g.Model() == p.topo && sleeps == p.sleeps
  {
    var last := 0;
    sleeps := [];
    var rest := data;
    while rest != {}
      invariant rest <= data
      invariant IsLong(last)
      invariant PacedReplay(Pace(old(g.Model()), 0, []), Ascending(data))
             == PacedReplay(Pace(g.Model(), last, sleeps), Ascending(rest))
      decreases |rest|
    {
      var line := TakeLeast(rest);
      AscendingUnfold(rest, line);
      rest := rest - {line};
      if !IsEventLine(line) {
        continue;
      }
      var stamp := Timestamp(line);
      if stamp.Err? {
        continue;
      }
      var time := stamp.value;
      if last == 0 {
        last := time;
      } else {
        last := SkipIdleTime(time, last);
        var pause := Sub64(time, last);
        if pause < 0 {
          continue;
        }
        sleeps := sleeps + [pause];
        last := time;
      }
      var outcome := Parse(line, g);
    }
  }

  // ---------------------------------------------------------------------------
  // Properties of the replay

  predicate SleepsInRange(sleeps: seq<int>)
  {
    forall k :: 0 <= k < |sleeps| ==> 0 <= sleeps[k] <= SkipThreshold
  }

  /** Every pause interval mode sleeps lies between 0 and 3000, however far apart the
      timestamps are, and the clock stays a `long`. */
  lemma {:induction false} PacedSleepsBounded(p: Pace, lines: seq<string>)
    requires IsLong(p.last) && SleepsInRange(p.sleeps)
    ensures IsLong(PacedReplay(p, lines).last) && SleepsInRange(PacedReplay(p, lines).sleeps)
    decreases |lines|
  {
    if lines != [] {
      var p' := PacedStep(p, lines[0]);
      if IsEventLine(lines[0]) && Timestamp(lines[0]).Ok? && p.last != 0 {
        var time := Timestamp(lines[0]).value;
        PauseBounds(time, p.last);
        assert IsLong(SkippedClock(time, p.last));
      }
      PacedSleepsBounded(p', lines[1..]);
    }
  }

  /** Neither mode ever removes a vertex, and both keep every edge between two vertices. */
  lemma {:induction false} FinalKeepsVertices(t: Topo, lines: seq<string>)
    requires WellFormed(t)
    ensures t.vertices <= FinalReplay(t, lines).vertices && WellFormed(FinalReplay(t, lines))
    decreases |lines|
  {
    if lines != [] {
      ApplyKeepsVertices(t, lines[0]);
      var t' := if IsEventLine(lines[0]) then ApplyLine(t, lines[0]).topo else t;
      FinalKeepsVertices(t', lines[1..]);
    }
  }

  lemma {:induction false} PacedKeepsVertices(p: Pace, lines: seq<string>)
    requires WellFormed(p.topo)
    ensures p.topo.vertices <= PacedReplay(p, lines).topo.vertices && WellFormed(PacedReplay(p, lines).topo)
    decreases |lines|
  {
    if lines != [] {
      ApplyKeepsVertices(p.topo, lines[0]);
      PacedKeepsVertices(PacedStep(p, lines[0]), lines[1..]);
    }
  }

  /** The two bootstrap vertices are present after any replay, in either mode. */
  lemma BootstrapPersists(lines: seq<string>)
    ensures Bootstrap8002 in FinalReplay(Seeded(), lines).vertices
    ensures Bootstrap8004 in FinalReplay(Seeded(), lines).vertices
    ensures Bootstrap8002 in PacedReplay(Pace(Seeded(), 0, []), lines).topo.vertices
    ensures Bootstrap8004 in PacedReplay(Pace(Seeded(), 0, []), lines).topo.vertices
  {
    FinalKeepsVertices(Seeded(), lines);
    PacedKeepsVertices(Pace(Seeded(), 0, []), lines);
  }

  /** Every line carries a timestamp at least `from`, and the timestamps never decrease. */
  predicate Chronological(lines: seq<string>, from: int)
    decreases |lines|
  {
    lines == [] ||
      (Timestamp(lines[0]).Ok? && from <= Timestamp(lines[0]).value
       && Chronological(lines[1..], Timestamp(lines[0]).value))
  }

  /** When the retained lines happen to be in non-decreasing, non-negative timestamp order,
      interval mode ends with the same graph as final mode: no line is skipped for a
      negative pause. */
  lemma {:induction false} PacedMatchesFinal(p: Pace, lines: seq<string>)
    requires 0 <= p.last && Chronological(lines, p.last)
    ensures PacedReplay(p, lines).topo == FinalReplay(p.topo, lines)
    decreases |lines|
  {
    if lines != [] {
      var time := Timestamp(lines[0]).value;
      ChronologicalStep(p, lines[0]);
      PacedMatchesFinal(PacedStep(p, lines[0]), lines[1..]);
    }
  }

  /** The clock rules for an event line with a timestamp: the first event (clock still 0) is
      parsed without a pause; a later one sleeps `Pause`, which is the whole gap when that is
      at most 3000, and the clock becomes the event's time; a negative pause throws, keeping
      the skipped clock and nothing else. */
  lemma PacedEvent(p: Pace, line: string)
    requires IsEventLine(line) && Timestamp(line).Ok? && IsLong(p.last)
    ensures var time := Timestamp(line).value;
      var after := ApplyLine(p.topo, line).topo;
      && (p.last == 0 ==> PacedStep(p, line) == Pace(after, time, p.sleeps))
      && (p.last != 0 && Pause(time, p.last) >= 0 ==>
            PacedStep(p, line) == Pace(after, time, p.sleeps + [Pause(time, p.last)]))
      && (p.last != 0 && Pause(time, p.last) < 0 ==>
            PacedStep(p, line) == p.(last := SkippedClock(time, p.last)))
      && (p.last != 0 && 0 <= Sub64(time, p.last) <= SkipThreshold ==>
            PacedStep(p, line) == Pace(after, time, p.sleeps + [Sub64(time, p.last)]))
  {
    var time := Timestamp(line).value;
    if p.last != 0 {
      PauseBounds(time, p.last);
    }
  }

  /** One line of `PacedMatchesFinal`: a line at or after the clock is applied exactly as in
      final mode, and leaves the clock at or before its own timestamp. */
  lemma ChronologicalStep(p: Pace, line: string)
    requires 0 <= p.last && Timestamp(line).Ok? && p.last <= Timestamp(line).value
    ensures PacedStep(p, line).topo == (if IsEventLine(line) then ApplyLine(p.topo, line).topo else p.topo)
    ensures 0 <= PacedStep(p, line).last <= Timestamp(line).value
  {
    var time := Timestamp(line).value;
    if IsEventLine(line) && p.last != 0 {
      ForwardSkip(time, p.last);
    }
  }

  /** A line whose timestamp is behind the clock (for instance "100 ..." sorted before
      "20 ...") makes `Thread.sleep` throw in interval mode, so its event is lost there
      although final mode applies it. */
  lemma BackwardStampSkipsEvent(p: Pace, line: string)
    requires IsEventLine(line) && Timestamp(line).Ok? && p.last != 0 && IsLong(p.last)
    requires Sub64(Timestamp(line).value, p.last) < 0
    ensures PacedStep(p, line) == p
  {
    PauseBounds(Timestamp(line).value, p.last);
  }
}

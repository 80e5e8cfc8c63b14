/** Applying one retained log line to the graph (`Main.parse`): unwrap `Overlay` lines, split
    on single spaces, then OPEN adds a link both ways round and CLOSE removes it. */
module Events {
  import opened JavaString
  import opened Topology

  /** The runtime exceptions a replayed line can raise. */
  datatype Fault =
    | IndexOutOfBounds    // a missing token, `ArrayIndexOutOfBoundsException`
    | BadNumber           // an unparseable timestamp, `NumberFormatException`

  /** How a step ended: normally, or with an exception that the replay loop catches. */
  datatype Outcome = Done | Thrown(fault: Fault)

  datatype Result<T> = Ok(value: T) | Err(fault: Fault)

  /** The graph after a line, and how applying the line ended. */
  datatype Applied = Applied(topo: Topo, outcome: Outcome)

  /** The id under which an OPEN from `a` to `b` stores its edge. */
  function EdgeId(a: string, b: string): string
  {
    a + "-" + b
  }

  /** After the first token and the following separator are cut off and the rest is trimmed,
      the line is strictly shorter. */
  lemma UnwrapStepShrinks(s: string)
    requires Contains(s, "Overlay") && Split(s) != []
    ensures |Split(s)[0]| <= |s| && |Trim(s[|Split(s)[0]|..])| < |s|
  {
    SplitFacts(s);
    FirstSegment(s);
    ContainsLength(s, "Overlay");
    var head := Split(s)[0];
    assert head == Segments(s)[0];
    if head == "" {
      assert s[0] == ' ' && s[0..] == s;
      LeadingBlankShrinks(s);
    }
  }

  /** The `Overlay` unwrapping at the top of `parse`: as long as the text contains `Overlay`,
      cut off everything up to the first space and trim what is left. */
  function Unwrap(s: string): (r: Result<string>)
    ensures r.Ok? ==> !Contains(r.value, "Overlay")
    ensures !Contains(s, "Overlay") ==> r == Ok(s)
    decreases |s|
  {
    if Contains(s, "Overlay") then
      var toks := Split(s);
      if toks == [] then Err(IndexOutOfBounds)
      else
        UnwrapStepShrinks(s);
        Unwrap(Trim(s[|toks[0]|..]))
    else Ok(s)
  }

  /** The unwrapping never meets an empty token array: a text containing `Overlay` has a
      character that is not a space. */
  lemma {:induction false} UnwrapNeverFails(s: string)
    ensures Unwrap(s).Ok?
    decreases |s|
  {
    if Contains(s, "Overlay") {
      ContainsAt(s, "Overlay");
      var i :| OccursAt(s, "Overlay", i);
      assert s[i] == s[i..i + 7][0] == 'O';
      SplitFacts(s);
      assert Split(s) != [];
      UnwrapStepShrinks(s);
      UnwrapNeverFails(Trim(s[|Split(s)[0]|..]));
    }
  }

  /** Which text an `Overlay` line becomes: for a line of words joined by single spaces, the
      unwrapping cuts every word up to and including the last one that contains `Overlay`,
      and `parse` then acts on the words after it. */
  lemma {:induction false} UnwrapJoined(xs: seq<string>, j: nat)
    requires j + 1 < |xs| && forall k :: 0 <= k < |xs| ==> Word(xs[k])
    requires Contains(xs[j], "Overlay") && !Contains(JoinSpaces(xs[j + 1..]), "Overlay")
    ensures Unwrap(JoinSpaces(xs)) == Ok(JoinSpaces(xs[j + 1..]))
    ensures EventTokens(JoinSpaces(xs)) == xs[j + 1..]
    decreases j
  {
    ContainsJoin(xs, j, "Overlay");
    UnwrapFirstWord(xs);
    if j == 0 {
      assert xs[1..] == xs[j + 1..];
    } else {
      assert xs[1..][j..] == xs[j + 1..];
      UnwrapJoined(xs[1..], j - 1);
    }
    SplitOfWords(xs[j + 1..]);
  }

  /** One round of the unwrapping on a line of words: the first word goes. */
  lemma UnwrapFirstWord(xs: seq<string>)
    requires |xs| >= 2 && forall k :: 0 <= k < |xs| ==> Word(xs[k])
    requires Contains(JoinSpaces(xs), "Overlay")
    ensures Unwrap(JoinSpaces(xs)) == Unwrap(JoinSpaces(xs[1..]))
  {
    FirstWordCut(xs);
    UnwrapUnfold(JoinSpaces(xs), xs[0], JoinSpaces(xs[1..]));
  }

  /** Cutting the first token off a line of words, and trimming, leaves the other words. */
  lemma FirstWordCut(xs: seq<string>)
    requires |xs| >= 2 && forall k :: 0 <= k < |xs| ==> Word(xs[k])
    ensures var s := JoinSpaces(xs);
      Split(s) != [] && Split(s)[0] == xs[0] && |xs[0]| <= |s| && Trim(s[|xs[0]|..]) == JoinSpaces(xs[1..])
  {
    var s := JoinSpaces(xs);
    var tail := xs[1..];
    var rest := JoinSpaces(tail);
    SplitOfWords(xs);
    JoinAfterFirst(xs);
    assert forall k :: 0 <= k < |tail| ==> Word(tail[k]) by {
      forall k | 0 <= k < |tail| ensures Word(tail[k]) {
        assert tail[k] == xs[k + 1];
      }
    }
    TrimJoin(tail);
  }

  /** One round of the unwrapping, for any text that contains `Overlay`: the first token and
      the blanks after it go. */
  lemma UnwrapUnfold(s: string, head: string, rest: string)
    requires Contains(s, "Overlay") && Split(s) != [] && Split(s)[0] == head && |head| <= |s|
    requires Trim(s[|head|..]) == rest
    ensures Unwrap(s) == Unwrap(rest)
  {
  }

  /** The token-level body of `parse`: token 0 selects OPEN or CLOSE, tokens 1 and 3 are the
      endpoints. Reading a missing token throws, after whatever was already done. */
  function ApplyTokens(t: Topo, line: seq<string>): Applied
  {
    if |line| == 0 then Applied(t, Thrown(IndexOutOfBounds))
    else if line[0] == "OPEN" then
      if |line| < 2 then Applied(t, Thrown(IndexOutOfBounds))
      else
        var t1 := WithVertex(t, line[1]);
        if |line| < 4 then Applied(t1, Thrown(IndexOutOfBounds))
        else
          var t2 := WithVertex(t1, line[3]);
          var t3 := WithEdge(t2, EdgeId(line[1], line[3]), line[1], line[3]);
          Applied(WithEdge(t3, EdgeId(line[3], line[1]), line[3], line[1]), Done)
    else if line[0] == "CLOSE" then
      if |line| < 4 then Applied(t, Thrown(IndexOutOfBounds))
      else Applied(WithoutEdge(WithoutEdge(t, EdgeId(line[1], line[3])), EdgeId(line[3], line[1])), Done)
    else Applied(t, Done)
  }

  /** `parse(s, g)` on a snapshot of the graph. */
  function ApplyLine(t: Topo, s: string): Applied
  {
    match Unwrap(s)
    case Err(f) => Applied(t, Thrown(f))
    case Ok(u) => ApplyTokens(t, Split(u))
  }

  /** The tokens `parse` finally looks at. */
  function EventTokens(s: string): seq<string>
  {
    UnwrapNeverFails(s);
    Split(Unwrap(s).value)
  }

  /** An OPEN with all four tokens ends normally; afterwards both endpoints are vertices and
      both edge ids exist. Nothing is removed, and only the two endpoints and the two ids can
      be new. */
  lemma OpenConnects(t: Topo, s: string)
    requires |EventTokens(s)| >= 4 && EventTokens(s)[0] == "OPEN"
    ensures var a, b := EventTokens(s)[1], EventTokens(s)[3];
      var r := ApplyLine(t, s);
      && r.outcome == Done
      && r.topo.vertices == t.vertices + {a, b}
      && r.topo.edges.Keys == t.edges.Keys + {EdgeId(a, b), EdgeId(b, a)}
      && (forall id :: id in t.edges ==> r.topo.edges[id] == t.edges[id])
  {
    UnwrapNeverFails(s);
    TokensOpen(t, EventTokens(s));
  }

  lemma TokensOpen(t: Topo, toks: seq<string>)
    requires |toks| >= 4 && toks[0] == "OPEN"
    ensures var a, b := toks[1], toks[3];
      var r := ApplyTokens(t, toks);
      && r.outcome == Done
      && r.topo.vertices == t.vertices + {a, b}
      && r.topo.edges.Keys == t.edges.Keys + {EdgeId(a, b), EdgeId(b, a)}
      && (forall id :: id in t.edges ==> r.topo.edges[id] == t.edges[id])
  {
  }

  /** An OPEN for a pair whose two ids are new and different gives each endpoint two more
      incident edges: one per direction. */
  lemma OpenDegree(t: Topo, s: string)
    requires |EventTokens(s)| >= 4 && EventTokens(s)[0] == "OPEN"
    requires var a, b := EventTokens(s)[1], EventTokens(s)[3];
      EdgeId(a, b) != EdgeId(b, a) && EdgeId(a, b) !in t.edges && EdgeId(b, a) !in t.edges
    ensures var a, b := EventTokens(s)[1], EventTokens(s)[3];
      && Degree(ApplyLine(t, s).topo, a) == Degree(t, a) + 2
      && Degree(ApplyLine(t, s).topo, b) == Degree(t, b) + 2
  {
    UnwrapNeverFails(s);
    var toks := EventTokens(s);
    var a, b := toks[1], toks[3];
    var t2 := WithVertex(WithVertex(t, a), b);
    var t3 := WithEdge(t2, EdgeId(a, b), a, b);
    assert IncidentIds(t2, a) == IncidentIds(t, a) && IncidentIds(t2, b) == IncidentIds(t, b);
    DegreeWithEdge(t2, EdgeId(a, b), a, b, a);
    DegreeWithEdge(t2, EdgeId(a, b), a, b, b);
    DegreeWithEdge(t3, EdgeId(b, a), b, a, a);
    DegreeWithEdge(t3, EdgeId(b, a), b, a, b);
  }

  /** A CLOSE with all four tokens removes exactly the two edge ids and touches nothing else;
      when neither id is present the graph is unchanged. */
  lemma CloseDisconnects(t: Topo, s: string)
    requires |EventTokens(s)| >= 4 && EventTokens(s)[0] == "CLOSE"
    ensures var a, b := EventTokens(s)[1], EventTokens(s)[3];
      var r := ApplyLine(t, s);
      && r == Applied(Topo(t.vertices, t.edges - {EdgeId(a, b), EdgeId(b, a)}), Done)
      && (EdgeId(a, b) !in t.edges && EdgeId(b, a) !in t.edges ==> r.topo == t)
  {
    UnwrapNeverFails(s);
    var a, b := EventTokens(s)[1], EventTokens(s)[3];
    assert t.edges - {EdgeId(a, b)} - {EdgeId(b, a)} == t.edges - {EdgeId(a, b), EdgeId(b, a)};
    if EdgeId(a, b) !in t.edges && EdgeId(b, a) !in t.edges {
      assert t.edges - {EdgeId(a, b), EdgeId(b, a)} == t.edges;
    }
  }

  /** An OPEN with fewer than four tokens throws when the second endpoint is read; the first
      endpoint, when present, has already been added, and no edge has. */
  lemma ShortOpenThrows(t: Topo, s: string)
    requires 1 <= |EventTokens(s)| < 4 && EventTokens(s)[0] == "OPEN"
    ensures var toks := EventTokens(s);
      var r := ApplyLine(t, s);
      && r.outcome == Thrown(IndexOutOfBounds)
      && r.topo.edges == t.edges
      && r.topo.vertices == t.vertices + (if |toks| >= 2 then {toks[1]} else {})
  {
    UnwrapNeverFails(s);
  }

  /** Applying the same line a second time changes nothing more: OPEN finds its ids taken,
      CLOSE finds them gone. */
  lemma ApplyIdempotent(t: Topo, s: string)
    ensures var once := ApplyLine(t, s);
      ApplyLine(once.topo, s) == once
  {
    UnwrapNeverFails(s);
    TokensIdempotent(t, EventTokens(s));
  }

  lemma TokensIdempotent(t: Topo, toks: seq<string>)
    ensures var once := ApplyTokens(t, toks);
      ApplyTokens(once.topo, toks) == once
  {
    if |toks| >= 4 && toks[0] == "CLOSE" {
      var a, b := toks[1], toks[3];
      var e := t.edges - {EdgeId(a, b)} - {EdgeId(b, a)};
      assert e - {EdgeId(a, b)} - {EdgeId(b, a)} == e;
    }
  }

  /** A line never loses a vertex and never leaves an edge with a missing endpoint. */
  lemma ApplyKeepsVertices(t: Topo, s: string)
    requires WellFormed(t)
    ensures t.vertices <= ApplyLine(t, s).topo.vertices
    ensures WellFormed(ApplyLine(t, s).topo)
  {
    UnwrapNeverFails(s);
    TokensKeepVertices(t, EventTokens(s));
  }

  lemma TokensKeepVertices(t: Topo, toks: seq<string>)
    requires WellFormed(t)
    ensures t.vertices <= ApplyTokens(t, toks).topo.vertices
    ensures WellFormed(ApplyTokens(t, toks).topo)
  {
  }

  /** A plain log line `<time> OPEN a -> b` (no `Overlay` in it) is split with the timestamp
      as token 0, so neither branch of `parse` fires and the graph is unchanged. */
  lemma TimestampedLineIgnored(t: Topo, xs: seq<string>)
    requires |xs| >= 1 && forall k :: 0 <= k < |xs| ==> SpaceFree(xs[k]) && xs[k] != ""
    requires xs[0] != "OPEN" && xs[0] != "CLOSE"
    requires !Contains(JoinSpaces(xs), "Overlay")
    ensures ApplyLine(t, JoinSpaces(xs)) == Applied(t, Done)
  {
    SplitOfJoin(xs);
  }

  /** `parse(s, g)`: unwrap, split, then update the graph object in place. */
  method Parse(s: string, g: Graph) returns (outcome: Outcome)
    modifies g
    ensures g.Model() == ApplyLine(old(g.Model()), s).topo
    ensures outcome == ApplyLine(old(g.Model()), s).outcome
  {
    var text := Unwrap(s);
    if text.Err? {
      return Thrown(text.fault);
    }
    outcome := ParseTokens(Split(text.value), g);
  }

  /** The part of `parse` after the split: act on the token array. */
  method ParseTokens(line: seq<string>, g: Graph) returns (outcome: Outcome)
    modifies g
    ensures g.Model() == ApplyTokens(old(g.Model()), line).topo
    ensures outcome == ApplyTokens(old(g.Model()), line).outcome
  {
    if |line| == 0 {
      return Thrown(IndexOutOfBounds);
    }
    outcome := Done;
    if line[0] == "OPEN" {
      if |line| < 2 {
        return Thrown(IndexOutOfBounds);
      }
      if !g.ContainsVertex(line[1]) {
        g.AddVertex(line[1]);
      }
      if |line| < 4 {
        return Thrown(IndexOutOfBounds);
      }
      if !g.ContainsVertex(line[3]) {
        g.AddVertex(line[3]);
      }
      g.AddEdge(EdgeId(line[1], line[3]), line[1], line[3]);
      g.AddEdge(EdgeId(line[3], line[1]), line[3], line[1]);
    }
    if line[0] == "CLOSE" {
      if |line| < 4 {
        return Thrown(IndexOutOfBounds);
      }
      g.RemoveEdge(EdgeId(line[1], line[3]));
      g.RemoveEdge(EdgeId(line[3], line[1]));
    }
  }
}

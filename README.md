# LegionOverlayVis replay core, modelled in Dafny

LegionOverlayVis is a viewer for the overlay topology of a Legion peer network. It reads a
log whose lines record `OPEN` and `CLOSE` events between peers, keeps those lines in a sorted
set, and rebuilds the peer graph by replaying them. The graph starts with the two bootstrap
peers `localhost:8002` and `localhost:8004`. The replay runs in one of two modes:

- **final** applies every event at once;
- **interval** sleeps between events according to their timestamps, with long idle gaps
  collapsed.

Each peer is painted by a colour rule, and at the end the viewer prints how many peers have
each degree.

This project models that core, all of it in `src/legion/Main.java`:

- **the command line:** the `-x value…` grouping and the checks on `-o`, `-v` and `-f`;
- **the line filter and bootstrap seeding;**
- **`parse`:** `Overlay` unwrapping, then splitting on single spaces, then OPEN/CLOSE applied
  to the graph;
- **the replay loops of both modes,** with the interval clock's skip loop in 64-bit `long`
  arithmetic;
- **the `vertexPaint` colour rule;**
- **the degree histogram.**

The JUNG `SparseGraph` the viewer uses is not part of this model. It is stood for by a
`Graph` class: a set of vertex ids and a map from edge id to the endpoints the edge was added
with. This relies on the following assumptions about the library:

- `addEdge` under an id already in use changes nothing, and adds any missing endpoint otherwise;
- `removeEdge` of an absent id changes nothing;
- `degree(v)` counts the edge ids incident to `v`;
- predecessors and successors of an undirected edge are both its far endpoint.

Under these assumptions an OPEN of two distinct endpoints whose two edge ids are new gives each endpoint two incident edges, one per direction.

Java library behaviour that the core relies on is written out in `JavaString`:

- `String.split(" ")`: trailing empty strings are dropped, so a string of spaces only splits
  to nothing;
- `trim()`: strips the characters at or below `' '` from both ends;
- `String.contains`;
- `compareTo`, the `TreeSet` order;
- `Long.parseLong`, with its 64-bit range.

Modules:

| file | module | what it holds |
|---|---|---|
| `java_string.dfy` | `JavaString` | the string library functions above and their laws |
| `sorted_strings.dfy` | `SortedStrings` | iteration of a `TreeSet<String>` as repeated choice of the least element |
| `topology.dfy` | `Topology` | graph snapshots (`Topo`), their updates and degrees, and the mutable `Graph` |
| `events.dfy` | `Events` | `parse`: the pure `ApplyLine` and the in-place `Parse` proved against it |
| `replay_clock.dfy` | `ReplayClock` | `long` wrap-around and the idle-gap skip loop |
| `replay.dfy` | `Replay` | the line filter, the seeding, both replay loops and their folds |
| `classifier.dfy` | `Classifier` | the colour rule |
| `histogram.dfy` | `Histogram` | the degree histogram loop |
| `command_line.dfy` | `CommandLine` | argument grouping and validation in `main` |
| `viewer.dfy` | `Viewer` | `parseFile` end to end |

A log line such as `1500 OPEN a -> b` is kept by the filter, because it contains `OPEN`. But
`parse` splits it with the timestamp as token 0, so neither the OPEN nor the CLOSE branch
fires and the graph does not change. Only lines that contain `Overlay` have their leading
tokens cut off before the split. A plain four-token event such as `10 OPEN a b` is therefore
a no-op as written. The model follows the code here (`Events.TimestampedLineIgnored`), not
the reading in which `10 OPEN a b` adds an edge between `a` and `b`.

## Model

| member | source | states |
|---|---|---|
| `CommandLine.GroupArgs` | src/legion/Main.java:28-45 | the argument loop returns the option map of the fold `Group`, or the same refusal: an empty argument, a lone `-`, or a bare word before any option |
| `CommandLine.GroupKeys` | src/legion/Main.java:31-45 | after an accepted loop, a name has an entry exactly when `-name` is among the arguments |
| `CommandLine.GroupValues` | src/legion/Main.java:39-40 | every value listed under an option is a bare word of the command line |
| `CommandLine.StrayFirstWord` | src/legion/Main.java:41-43 | a first argument that does not start with `-` is refused as illegal usage |
| `CommandLine.RejectionSticks` | src/legion/Main.java:32-43 | once an argument is refused, the later arguments do not matter |
| `CommandLine.RepeatedOption` | src/legion/Main.java:37-38 | repeating `-x` replaces the values given earlier under `x` with an empty list |
| `CommandLine.Validate` | src/legion/Main.java:47-62 | settings are accepted exactly when `-o`, `-v` and `-f` are all present with a value, the layout is circle/isom/kk and the mode is final/interval; the settings are those first values; a missing option gives the usage text |
| `CommandLine.ReadSettings` | src/legion/Main.java:28-62 | the whole front end: a refused argument loop gives its refusal; accepted settings come from a command line holding `-o`, `-v` and `-f`, and the file is a non-empty bare word of that command line |
| `CommandLine.DocumentedForm` | src/legion/Main.java:28-62 | `-o L -v M -f F` groups to one value per option, and is accepted exactly when L and M are known choices |
| `CommandLine.UsageExample` | src/legion/Main.java:85 | the usage text's example selects ISOM, final mode and `overlay.txt` |
| `Replay.RetainEventLines` | src/legion/Main.java:93-98 | the retained set is exactly the input lines containing `OPEN` or `CLOSE` |
| `Replay.RetainedOrder` | src/legion/Main.java:93-98 | the replay visits exactly the retained lines, each once, in strictly increasing `compareTo` order |
| `SortedStrings.AscendingFacts` | src/legion/Main.java:177 | `TreeSet` iteration has one entry per element, the same members as the set, and strictly increasing order |
| `SortedStrings.TakeLeast` | src/legion/Main.java:177 | the next element iteration hands out is the least remaining one |
| `Replay.NewSeededGraph` | src/legion/Main.java:100-102 | the new graph holds the two bootstrap vertices and no edge |
| `Replay.BootstrapPersists` | src/legion/Main.java:100-102 | both bootstrap vertices are present after a replay in either mode, whatever the lines |
| `Replay.FinalKeepsVertices` | src/legion/Main.java:201-208 | final mode never removes a vertex, and keeps every edge between two vertices |
| `Replay.PacedKeepsVertices` | src/legion/Main.java:176-199 | interval mode never removes a vertex, and keeps every edge between two vertices |
| `Topology.Graph.AddVertex` | src/legion/Main.java:271-274 | `addVertex` adds the vertex and nothing else |
| `Topology.Graph.AddEdge` | src/legion/Main.java:275-276 | `addEdge` stores the link and its endpoints under a new id, and does nothing under a taken id |
| `Topology.Graph.RemoveEdge` | src/legion/Main.java:279-280 | `removeEdge` drops the id and keeps every vertex |
| `Topology.NeighbourSymmetric` | src/legion/Main.java:123-124 | `b` is among the predecessors and successors of `a` exactly when `a` is among those of `b` |
| `Topology.NeighboursIffDegree` | src/legion/Main.java:123-124 | a vertex has a neighbour exactly when its degree is positive |
| `Topology.DegreeWithEdge` | src/legion/Main.java:275-276 | a new edge id raises the degree of each endpoint by one, and no other degree |
| `Topology.DegreeWithoutEdge` | src/legion/Main.java:279-280 | removing a present id lowers the degree of each endpoint by one |
| `Topology.UpdatesPreserveWellFormed` | src/legion/Main.java:270-281 | the three updates keep every edge between two vertices and never drop a vertex |
| `Events.Unwrap` | src/legion/Main.java:263-266 | the unwrapped text no longer contains `Overlay`; a text without `Overlay` is passed on unchanged |
| `Events.UnwrapStepShrinks` | src/legion/Main.java:264 | cutting the first token and trimming makes the text strictly shorter, so the recursion ends |
| `Events.UnwrapNeverFails` | src/legion/Main.java:263-266 | the unwrapping never reads a missing token |
| `Events.UnwrapJoined` | src/legion/Main.java:263-268 | a line of words with `Overlay` in word `j` and in no later word becomes exactly the words after word `j`, and those are the tokens `parse` then acts on |
| `Events.UnwrapFirstWord` | src/legion/Main.java:263-264 | on a line of words that contains `Overlay`, one round of the unwrapping drops the first word |
| `JavaString.ContainsJoin` | src/legion/Main.java:263 | a text found in one of the words is found in the line the words make when joined by spaces |
| `Events.Parse` | src/legion/Main.java:262-282 | `parse` changes the graph to `ApplyLine` of the old graph, and ends as `ApplyLine` says |
| `Events.ParseTokens` | src/legion/Main.java:268-281 | the token-array part of `parse` changes the graph to `ApplyTokens` of the old graph |
| `Events.OpenConnects` | src/legion/Main.java:270-277 | an OPEN with four tokens ends normally; its two endpoints become vertices and both ids exist; nothing is removed; only those two vertices and two ids are new |
| `Events.OpenDegree` | src/legion/Main.java:275-276 | an OPEN whose two ids are new and distinct raises each endpoint's degree by two |
| `Events.CloseDisconnects` | src/legion/Main.java:278-281 | a CLOSE with four tokens removes exactly the two ids; it is a no-op when both are absent |
| `Events.ShortOpenThrows` | src/legion/Main.java:270-274 | an OPEN with fewer than four tokens throws on `line[3]`, after adding `line[1]` if present, and adds no edge |
| `Events.ApplyIdempotent` | src/legion/Main.java:270-281 | applying the same line twice has the same effect and outcome as applying it once |
| `Events.ApplyKeepsVertices` | src/legion/Main.java:262-282 | a line never removes a vertex or leaves an edge with a missing endpoint |
| `Events.TimestampedLineIgnored` | src/legion/Main.java:263-270 | a plain line whose first token is neither OPEN nor CLOSE leaves the graph unchanged, with no exception |
| `ReplayClock.Wrap` | src/legion/Main.java:185-189 | the two's-complement `long` that a Java computation with a given exact result produces is always a `long` |
| `ReplayClock.WrapUnique` | src/legion/Main.java:185-189 | the wrapped value is the one `long` that differs from the exact result by a whole multiple of 2^64; in particular a result that fits is kept |
| `ReplayClock.Sub64` | src/legion/Main.java:185-189 | `time - last` on two longs is a `long`, and the exact difference whenever that fits |
| `ReplayClock.SkipIdleTime` | src/legion/Main.java:185-188 | the skip loop ends with the closed-form clock; the gap left is at most 3000; a gap of at most 3000 leaves the clock alone, and a longer one is cut to more than 1000 |
| `ReplayClock.PauseBounds` | src/legion/Main.java:181-189 | a sleep for a gap of at most 3000 is the gap itself; a longer gap gives a sleep in (1000, 3000], shorter than the gap, that differs from it by whole steps of 2000 |
| `ReplayClock.ForwardSkip` | src/legion/Main.java:185-189 | for an event at or after a positive clock, the skipped clock lies between 0 and the event time, and the sleep is their difference |
| `Replay.ReplayFinal` | src/legion/Main.java:201-208 | the final-mode loop leaves the graph that the fold `FinalReplay` gives over the lines in iteration order |
| `Replay.Timestamp` | src/legion/Main.java:180 | the timestamp is a `long`; a line that splits into no token throws out-of-bounds, and a first token `Long.valueOf` refuses throws a number-format error |
| `Replay.StampedTimestamp` | src/legion/Main.java:180 | a line made of a non-negative decimal `long` and then words has that number as its timestamp |
| `Replay.PacedStep` | src/legion/Main.java:178-198 | one turn of the interval loop: a line without OPEN or CLOSE changes nothing; otherwise the graph is kept or becomes `parse`'s result, at most one sleep is appended, and an appended sleep is non-negative and comes with the line parsed; `last` stays a `long`; `Replay.PacedEvent` gives the exact clock and sleep rules |
| `Replay.PacedEvent` | src/legion/Main.java:180-195 | for an event line with a timestamp: the first event (`last == 0`) is parsed with no sleep; a later one appends the sleep `Pause(time, last)`, parses the line and sets `last` to its time, and a gap of at most 3000 is slept whole; a negative pause throws, keeping only the skipped clock |
| `Replay.ReplayPaced` | src/legion/Main.java:176-199 | the interval-mode loop leaves the graph and the sleeps that the fold `PacedReplay` gives |
| `Replay.PacedSleepsBounded` | src/legion/Main.java:181-191 | every sleep in interval mode lies in [0, 3000], and the clock stays a `long` |
| `Replay.PacedMatchesFinal` | src/legion/Main.java:176-208 | when the timestamps are non-negative and never decrease, interval mode ends with the same graph as final mode |
| `Replay.ChronologicalStep` | src/legion/Main.java:178-194 | a line at or after the clock is applied as in final mode, and leaves the clock at or before its own time |
| `Replay.BackwardStampSkipsEvent` | src/legion/Main.java:185-198 | an event whose timestamp is behind the clock makes the sleep throw; it is skipped, and nothing else changes |
| `Classifier.VertexPaint` | src/legion/Main.java:116-134 | the colour is `Classify`: red exactly for ids containing `localhost`, green exactly when no neighbour contains 8002 or 8004, otherwise decided by the least such neighbour; the graph is only read |
| `Classifier.ClassifyWitness` | src/legion/Main.java:125-131 | blue means some neighbour contains 8002 and no neighbour before it contains 8002 or 8004; orange the same for 8004 without 8002 |
| `Classifier.NeighbourOf8002` | src/legion/Main.java:120-131 | a non-bootstrap vertex linked to `localhost:8002` is blue or orange, and blue when no neighbour has 8004 without 8002 |
| `Classifier.BootstrapIsRed` | src/legion/Main.java:120-121 | both bootstrap vertices are red |
| `Histogram.DegreeHistogram` | src/legion/Main.java:245-253 | the keys are the degrees that occur; each count is the number of vertices of that degree, and at least 1; the counts add up to the number of vertices; the map equals the class sizes whatever the visiting order |
| `Histogram.CountStep` | src/legion/Main.java:247-252 | one turn of the loop keeps the map the histogram of the vertices seen so far |
| `Histogram.TotalUpdate` | src/legion/Main.java:252 | overwriting one count changes the sum by the difference |
| `Histogram.DegreeClassesPartition` | src/legion/Main.java:246-253 | every vertex falls into the class of its own degree, classes of different degrees are disjoint, and the class sizes add up to the number of vertices |
| `Histogram.ClassSizesCount` | src/legion/Main.java:246-253 | the map from each occurring degree to its class size is a histogram of the vertex set: right keys, counts of at least 1, total equal to the vertex count |
| `Histogram.CountsUnique` | src/legion/Main.java:246-253 | a vertex set has only one histogram, so the loop's result does not depend on the order it visits the vertices |
| `Viewer.ReplayLog` | src/legion/Main.java:90-253 | `parseFile` builds a new graph equal to the chosen mode's replay of the seeded graph; it holds both bootstrap vertices and no dangling edge; the sleeps are in range (none in final mode); the histogram counts the final graph |
| `JavaString.ContainsAt` | src/legion/Main.java:96 | `contains` holds exactly when the substring occurs at some position |
| `JavaString.SplitFacts` | src/legion/Main.java:268 | `split(" ")` gives the space-separated segments with trailing empty ones dropped; no piece holds a space; the result is empty exactly for a non-empty string of spaces; when the string holds a space, the last piece is never empty |
| `JavaString.SplitOfJoin` | src/legion/Main.java:268 | splitting words joined by single spaces gives the words back |
| `JavaString.JoinSegments` | src/legion/Main.java:264 | the segments joined by single spaces are the original string, and none holds a space |
| `JavaString.TrimFacts` | src/legion/Main.java:264 | `trim` returns the middle of the string: only blanks are removed at either end, and the result neither starts nor ends with one |
| `JavaString.BelowTotal` | src/legion/Main.java:93 | `compareTo` orders any two different strings |
| `JavaString.BelowTransitive` | src/legion/Main.java:93 | the `compareTo` order is transitive |
| `JavaString.ParseLong` | src/legion/Main.java:180 | a parsed number is within the range of a `long` |
| `JavaString.ParseShowRoundTrip` | src/legion/Main.java:180 | the decimal text of any non-negative `long` parses back to it |
| `JavaString.ParseLongShape` | src/legion/Main.java:180 | text that parses is an optional sign followed by at least one digit |

## Left out

- The Swing window, JUNG layouts and rendering, and `updateUI` (lines 104-114, 140-175, 193, 195, 210-241) are left out: they are GUI code with no effect on the graph.
- Opening and reading the file, the existence check and `FileNotFoundException` (lines 62-75, 91-95) are left out: the lines of the file are a parameter of `Viewer.ReplayLog`.
- `Thread.sleep` is not performed: interval mode returns the sleeps it would make, in order.
- Console output, usage text and stack traces are left out: they are output only.
- JUNG internals are left out. The real `SparseGraph` throws when an edge id is reused with different endpoints; the model treats every reuse as a no-op. JUNG may also refuse a second undirected edge between two vertices that are already connected; the model accepts it.
- Events.OpenDegree: assumes `addEdge` stores the reverse edge `b-a` (line 276) as a second edge. If `SparseGraph` refuses a second undirected edge between vertices already connected, an OPEN of two distinct endpoints whose edge ids no other pair of endpoints produces adds 1, not 2, to each endpoint's degree. When every OPEN is of that kind, every degree, and so every key of the degree histogram, would be half the model's. A self-loop `OPEN x -> x` is not affected: both of its ids are `x-x`, so the model already stores one edge and adds 1 to the degree of `x`.
- Classifier.VertexPaint: for an id that is not a vertex, JUNG returns no neighbour collection and `addAll` throws. The model gives that id no neighbours. The renderer only asks about vertices.
- JavaString.ParseLong: accepts ASCII digits only. Java also accepts other Unicode decimal digits.
- JavaString.Below: compares code points. Java's `compareTo` compares UTF-16 units, which can order characters outside the Basic Multilingual Plane differently.
- CommandLine.Validate: `main` goes on from the file path to open the file; that step is I/O and not modelled.
- Nothing runs concurrently in the core; the Swing event thread that paints the graph during interval mode is not modelled.

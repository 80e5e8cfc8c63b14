/** The statistics printed after the replay: vertex count, edge count and a map from degree
    to the number of vertices with that degree. */
module Histogram {
  import opened Topology

  /** The vertices among `vs` whose degree is `d`. */
  function OfDegree(t: Topo, vs: set<string>, d: nat): set<string>
  {
    set v | v in vs && Degree(t, v) == d
  }

  /** The degrees that occur among `vs`. */
  function DegreesIn(t: Topo, vs: set<string>): set<nat>
  {
    set v | v in vs :: Degree(t, v)
  }

  /** The histogram as a value: each degree that occurs, with the size of its class. */
  function ClassSizes(t: Topo, vs: set<string>): map<nat, nat>
  {
    map d | d in DegreesIn(t, vs) :: |OfDegree(t, vs, d)|
  }

  ghost function AnyKey(m: map<nat, nat>): nat
    requires m != map[]
  {
    var k :| k in m; k
  }

  /** The sum of all the counts in the map. */
  ghost function Total(m: map<nat, nat>): int
    decreases |m.Keys|
  {
    if m == map[] then 0
    else
      var k := AnyKey(m);
      assert (m - {k}).Keys == m.Keys - {k};
      m[k] + Total(m - {k})
  }

  /** The sum can be taken starting from any key. */
  lemma {:induction false} TotalRemove(m: map<nat, nat>, k: nat)
    requires k in m
    ensures Total(m) == m[k] + Total(m - {k})
    decreases |m.Keys|
  {
    var j := AnyKey(m);
    if j != k {
      assert (m - {j}).Keys == m.Keys - {j};
      assert (m - {k}).Keys == m.Keys - {k};
      TotalRemove(m - {j}, k);
      TotalRemove(m - {k}, j);
      assert m - {j} - {k} == m - {k} - {j};
    }
  }

  /** Overwriting one count changes the sum by the difference. */
  lemma TotalUpdate(m: map<nat, nat>, k: nat, v: nat)
    ensures Total(m[k := v]) == Total(m) - (if k in m then m[k] else 0) + v
  {
    var m' := m[k := v];
    TotalRemove(m', k);
    assert m' - {k} == m - {k};
    if k in m {
      TotalRemove(m, k);
    } else {
      assert m - {k} == m;
    }
  }

  /** The histogram loop over all vertices: look up the count for the vertex's degree
      (0 if absent), add one, store it back. */
  method DegreeHistogram(g: Graph) returns (counter: map<nat, nat>)
    ensures Counts(g.Model(), g.vertices, counter)
    ensures counter == ClassSizes(g.Model(), g.vertices)
  {
    var t := g.Model();
    counter := map[];
    var rest := t.vertices;
    ghost var done: set<string> := {};
    while rest != {}
      invariant done + rest == t.vertices && done !! rest
      invariant Counts(t, done, counter)
      decreases |rest|
    {
      var vertex :| vertex in rest;
      var amount := 0;
      var degree := Degree(t, vertex);
      if degree in counter {
        amount := counter[degree];
      }
      amount := amount + 1;
      CountStep(t, counter, done, vertex, amount);
      counter := counter[degree := amount];
      rest := rest - {vertex};
      done := done + {vertex};
    }
    assert done == t.vertices;
    CountsUnique(t, done, counter);
  }

  /** `counter` is the histogram of the vertices in `done`. */
  ghost predicate Counts(t: Topo, done: set<string>, counter: map<nat, nat>)
  {
    && counter.Keys == DegreesIn(t, done)
    && (forall d :: d in counter ==> counter[d] == |OfDegree(t, done, d)| >= 1)
    && Total(counter) == |done|
  }

  /** One turn of the histogram loop: counting one more vertex keeps the map the histogram
      of the vertices seen so far. */
  lemma CountStep(t: Topo, counter: map<nat, nat>, done: set<string>, vertex: string, amount: nat)
    requires vertex !in done && Counts(t, done, counter)
    requires amount == (if Degree(t, vertex) in counter then counter[Degree(t, vertex)] else 0) + 1
    ensures Counts(t, done + {vertex}, counter[Degree(t, vertex) := amount])
  {
    var d := Degree(t, vertex);
    var c := counter[d := amount];
    var done' := done + {vertex};
    AbsentDegree(t, counter, done, d);
    ClassesStep(t, counter, done, vertex, amount);
    DegreesInAdd(t, done, vertex);
    assert c.Keys == DegreesIn(t, done');
    TotalStep(counter, |done|, d, amount);
    assert |done'| == |done| + 1;
  }

  /** A degree with no entry yet has no vertex among those already counted. */
  lemma AbsentDegree(t: Topo, counter: map<nat, nat>, done: set<string>, d: nat)
    requires counter.Keys == DegreesIn(t, done)
    ensures d !in counter ==> OfDegree(t, done, d) == {}
  {
  }

  lemma TotalStep(counter: map<nat, nat>, n: nat, d: nat, amount: nat)
    requires Total(counter) == n
    requires amount == (if d in counter then counter[d] else 0) + 1
    ensures Total(counter[d := amount]) == n + 1
  {
    TotalUpdate(counter, d, amount);
  }

  lemma ClassesStep(t: Topo, counter: map<nat, nat>, done: set<string>, vertex: string, amount: nat)
    requires vertex !in done
    requires forall d :: d in counter ==> counter[d] == |OfDegree(t, done, d)| >= 1
    requires Degree(t, vertex) !in counter ==> OfDegree(t, done, Degree(t, vertex)) == {}
    requires amount == (if Degree(t, vertex) in counter then counter[Degree(t, vertex)] else 0) + 1
    ensures var c := counter[Degree(t, vertex) := amount];
      forall e :: e in c ==> c[e] == |OfDegree(t, done + {vertex}, e)| >= 1
  {
    var c := counter[Degree(t, vertex) := amount];
    forall e | e in c ensures c[e] == |OfDegree(t, done + {vertex}, e)| >= 1 {
      OfDegreeAdd(t, done, vertex, e);
    }
  }

  lemma OfDegreeAdd(t: Topo, done: set<string>, vertex: string, e: nat)
    requires vertex !in done
    ensures OfDegree(t, done + {vertex}, e) == OfDegree(t, done, e) + (if Degree(t, vertex) == e then {vertex} else {})
    ensures |OfDegree(t, done + {vertex}, e)| == |OfDegree(t, done, e)| + (if Degree(t, vertex) == e then 1 else 0)
  {
  }

  lemma DegreesInAdd(t: Topo, done: set<string>, vertex: string)
    ensures DegreesIn(t, done + {vertex}) == DegreesIn(t, done) + {Degree(t, vertex)}
  {
  }

  /** A histogram of a vertex set is determined by the set: it is the map of class sizes. */
  lemma CountsUnique(t: Topo, vs: set<string>, counter: map<nat, nat>)
    requires Counts(t, vs, counter)
    ensures counter == ClassSizes(t, vs)
  {
  }

  /** The class sizes are a histogram of the vertex set; in particular they add up to the
      number of vertices. */
  lemma {:induction false} ClassSizesCount(t: Topo, vs: set<string>)
    ensures Counts(t, vs, ClassSizes(t, vs))
    decreases |vs|
  {
    if vs == {} {
      assert ClassSizes(t, vs) == map[];
    } else {
      var v :| v in vs;
      var rest := vs - {v};
      ClassSizesCount(t, rest);
      var counter := ClassSizes(t, rest);
      var d := Degree(t, v);
      var amount := (if d in counter then counter[d] else 0) + 1;
      CountStep(t, counter, rest, v, amount);
      assert rest + {v} == vs;
      CountsUnique(t, vs, counter[d := amount]);
    }
  }

  /** Every vertex is counted under exactly one degree: the degree classes split the vertex
      set, and the class sizes add up to the number of vertices. */
  lemma DegreeClassesPartition(t: Topo, v: string, d: nat, e: nat)
    requires v in t.vertices
    ensures v in OfDegree(t, t.vertices, Degree(t, v))
    ensures d != e ==> OfDegree(t, t.vertices, d) !! OfDegree(t, t.vertices, e)
    ensures Total(ClassSizes(t, t.vertices)) == |t.vertices|
  {
    ClassSizesCount(t, t.vertices);
  }
}

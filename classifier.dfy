/** The vertex fill colour (`vertexPaint.transform`): bootstrap vertices are red; any other
    vertex takes its colour from the first neighbour, in `TreeSet` order, that mentions port
    8002 (blue) or 8004 (orange); a vertex with no such neighbour is green. */
module Classifier {
  import opened JavaString
  import opened SortedStrings
  import opened Topology

  datatype Colour = Red | Blue | Orange | Green

  /** A neighbour that decides the colour: it mentions 8002 or 8004. */
  predicate Marked(s: string)
  {
    Contains(s, "8002") || Contains(s, "8004")
  }

  function MarkedOf(nbrs: set<string>): set<string>
  {
    set s | s in nbrs && Marked(s)
  }

  /** The colour, stated through the least marked neighbour; 8002 is tested before 8004 on
      that neighbour. */
  ghost function Classify(id: string, nbrs: set<string>): Colour
  {
    if Contains(id, "localhost") then Red
    else if MarkedOf(nbrs) == {} then Green
    else if Contains(Least(MarkedOf(nbrs)), "8002") then Blue
    else Orange
  }

  /** The transformer: build the sorted neighbour set and return at the first marked one. The
      graph is only read. */
  method VertexPaint(g: Graph, i: string) returns (c: Colour)
    ensures c == Classify(i, Neighbours(g.Model(), i))
    ensures c == Red <==> Contains(i, "localhost")
    ensures c == Green <==> !Contains(i, "localhost") && MarkedOf(Neighbours(g.Model(), i)) == {}
  {
    if Contains(i, "localhost") {
      return Red;
    }
    var neighbours := Neighbours(g.Model(), i);
    var rest := neighbours;
    while rest != {}
      invariant rest <= neighbours
      invariant forall s :: s in neighbours && s !in rest ==> !Marked(s)
      decreases |rest|
    {
      var s := TakeLeast(rest);
      if Contains(s, "8002") || Contains(s, "8004") {
        assert IsLeast(s, MarkedOf(neighbours));
        LeastUnique(s, Least(MarkedOf(neighbours)), MarkedOf(neighbours));
        if Contains(s, "8002") {
          return Blue;
        }
        return Orange;
      }
      rest := rest - {s};
    }
    assert MarkedOf(neighbours) == {};
    return Green;
  }

  /** Blue means some neighbour mentions 8002 and no neighbour before it mentions 8002 or
      8004; orange the same with a neighbour that mentions 8004 but not 8002. */
  lemma ClassifyWitness(id: string, nbrs: set<string>)
    ensures Classify(id, nbrs) == Blue ==>
      exists s :: s in nbrs && Contains(s, "8002")
        && forall y :: y in nbrs && Below(y, s) ==> !Marked(y)
    ensures Classify(id, nbrs) == Orange ==>
      exists s :: s in nbrs && Contains(s, "8004") && !Contains(s, "8002")
        && forall y :: y in nbrs && Below(y, s) ==> !Marked(y)
  {
    if MarkedOf(nbrs) != {} {
      var s := Least(MarkedOf(nbrs));
      forall y | y in nbrs && Below(y, s) ensures !Marked(y) {
        if Marked(y) {
          BelowIrreflexive(s);
          assert y in MarkedOf(nbrs) && y != s;
          BelowAsymmetric(y, s);
        }
      }
    }
  }

  /** A vertex that is not a bootstrap vertex and is linked to bootstrap vertex
      `localhost:8002` is blue or orange, never green; it is blue when no neighbour mentions
      8004 without also mentioning 8002. */
  lemma NeighbourOf8002(id: string, nbrs: set<string>)
    requires !Contains(id, "localhost") && "localhost:8002" in nbrs
    ensures Classify(id, nbrs) in {Blue, Orange}
    ensures (forall y :: y in nbrs && Contains(y, "8004") ==> Contains(y, "8002")) ==> Classify(id, nbrs) == Blue
  {
    assert Contains("localhost:8002", "8002") by {
      assert OccursAt("localhost:8002", "8002", 10);
      ContainsAt("localhost:8002", "8002");
    }
    assert "localhost:8002" in MarkedOf(nbrs);
  }

  /** The two bootstrap vertices are always red. */
  lemma BootstrapIsRed(nbrs: set<string>)
    ensures Classify("localhost:8002", nbrs) == Red && Classify("localhost:8004", nbrs) == Red
  {
    assert "localhost" <= "localhost:8002" && "localhost" <= "localhost:8004";
  }
}

/** A `TreeSet<String>`: a set of strings visited in ascending `compareTo` order. Iterating
    it means taking the least remaining element again and again. */
module SortedStrings {
  import opened JavaString

  /** `m` is the least element of `s` in `compareTo` order. */
  predicate IsLeast(m: string, s: set<string>)
  {
    m in s && forall y :: y in s && y != m ==> Below(m, y)
  }

  /** Every non-empty finite set of strings has a least element. */
  lemma {:induction false} LeastExists(s: set<string>)
    requires s != {}
    ensures exists m :: IsLeast(m, s)
    decreases |s|
  {
    var x :| x in s;
    if s != {x} {
      LeastExists(s - {x});
      var m :| IsLeast(m, s - {x});
      if Below(m, x) {
        assert IsLeast(m, s);
      } else {
        BelowTotal(m, x);
        forall y | y in s && y != x ensures Below(x, y) {
          if y != m { BelowTransitive(x, m, y); }
        }
        assert IsLeast(x, s);
      }
    } else {
      assert IsLeast(x, s);
    }
  }

  /** There is only one least element. */
  lemma LeastUnique(m: string, n: string, s: set<string>)
    requires IsLeast(m, s) && IsLeast(n, s)
    ensures m == n
  {
    if m != n {
      BelowAsymmetric(m, n);
    }
  }

  ghost function Least(s: set<string>): (m: string)
    requires s != {}
    ensures IsLeast(m, s)
  {
    LeastExists(s);
    var m :| IsLeast(m, s); m
  }

  /** The elements of `s` in the order a `TreeSet` iterates them. */
  ghost function Ascending(s: set<string>): (r: seq<string>)
    decreases |s|
  {
    if s == {} then [] else var m := Least(s); [m] + Ascending(s - {m})
  }

  /** Iteration visits every element exactly once and in strictly increasing order: identical
      strings collapse to one visit. */
  lemma {:induction false} AscendingFacts(s: set<string>)
    ensures |Ascending(s)| == |s|
    ensures forall x :: x in Ascending(s) <==> x in s
    ensures forall i, j :: 0 <= i < j < |Ascending(s)| ==> Below(Ascending(s)[i], Ascending(s)[j])
    decreases |s|
  {
    if s != {} {
      var m := Least(s);
      var rest := s - {m};
      AscendingFacts(rest);
      var r := Ascending(s);
      assert r == [m] + Ascending(rest);
      forall i, j | 0 <= i < j < |r| ensures Below(r[i], r[j]) {
        if i == 0 {
          assert r[j] == Ascending(rest)[j - 1];
          assert r[j] in rest;
        } else {
          assert r[i] == Ascending(rest)[i - 1] && r[j] == Ascending(rest)[j - 1];
        }
      }
    }
  }

  /** One step of iteration: the first element is the least one and the rest is the iteration
      of the remaining elements. */
  lemma AscendingUnfold(s: set<string>, m: string)
    requires IsLeast(m, s)
    ensures Ascending(s) == [m] + Ascending(s - {m})
  {
    LeastUnique(m, Least(s), s);
  }

  /** The next element a `TreeSet` iterator hands out: the least one still to visit. */
  method TakeLeast(s: set<string>) returns (m: string)
    requires s != {}
    ensures IsLeast(m, s)
  {
    LeastExists(s);
    m :| IsLeast(m, s);
  }
}

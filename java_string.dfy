/** The few java.lang.String / java.lang.Long operations the log replay relies on,
    on strings modelled as seq<char>. */
module JavaString {

  datatype Option<T> = None | Some(value: T)

  /** `s.contains(sub)`: `sub` occurs somewhere in `s`. */
  predicate Contains(s: string, sub: string)
    decreases |s|
  {
    sub <= s || (|s| > 0 && Contains(s[1..], sub))
  }

  /** `sub` sits in `s` starting at index `i`. */
  predicate OccursAt(s: string, sub: string, i: int)
  {
    0 <= i <= |s| - |sub| && s[i..i + |sub|] == sub
  }

  /** `Contains` agrees with the positional definition of a substring, in both directions. */
  lemma {:induction false} ContainsAt(s: string, sub: string)
    ensures Contains(s, sub) <==> exists i :: OccursAt(s, sub, i)
    decreases |s|
  {
    if sub <= s {
      assert OccursAt(s, sub, 0);
    } else if |s| > 0 {
      ContainsAt(s[1..], sub);
      if Contains(s[1..], sub) {
        var i :| OccursAt(s[1..], sub, i);
        assert s[i + 1..i + 1 + |sub|] == s[1..][i..i + |sub|];
        assert OccursAt(s, sub, i + 1);
      }
      if exists i :: OccursAt(s, sub, i) {
        var i :| OccursAt(s, sub, i);
        assert i != 0;
        assert s[1..][i - 1..i - 1 + |sub|] == s[i..i + |sub|];
        assert OccursAt(s[1..], sub, i - 1);
      }
    }
  }

  /** A string that contains `sub` is at least as long as `sub`. */
  lemma {:induction false} ContainsLength(s: string, sub: string)
    requires Contains(s, sub)
    ensures |sub| <= |s|
    decreases |s|
  {
    if !(sub <= s) {
      ContainsLength(s[1..], sub);
    }
  }

  // ---------------------------------------------------------------------------
  // String.split(" ")

  /** The pieces between single spaces, empty pieces included (so there is always one). */
  function Segments(s: string): (r: seq<string>)
    ensures |r| >= 1
    decreases |s|
  {
    if s == [] then [""]
    else
      var rest := Segments(s[1..]);
      if s[0] == ' ' then [""] + rest else [[s[0]] + rest[0]] + rest[1..]
  }

  /** Glue pieces back together with one space between neighbours. */
  function JoinSpaces(xs: seq<string>): string
    requires |xs| >= 1
    decreases |xs|
  {
    if |xs| == 1 then xs[0] else xs[0] + " " + JoinSpaces(xs[1..])
  }

  predicate SpaceFree(x: string) { ' ' !in x }

  /** Splitting at spaces and joining with spaces gives the string back, and no piece holds a space. */
  lemma {:induction false} JoinSegments(s: string)
    ensures JoinSpaces(Segments(s)) == s
    ensures forall k :: 0 <= k < |Segments(s)| ==> SpaceFree(Segments(s)[k])
    decreases |s|
  {
    if s != [] {
      var rest := Segments(s[1..]);
      JoinSegments(s[1..]);
      if s[0] == ' ' {
        assert Segments(s) == [""] + rest;
        assert Segments(s)[1..] == rest;
        assert JoinSpaces(Segments(s)) == "" + " " + JoinSpaces(rest);
      } else {
        var r := [[s[0]] + rest[0]] + rest[1..];
        assert Segments(s) == r;
        if |rest| == 1 {
          assert JoinSpaces(r) == [s[0]] + rest[0];
        } else {
          assert r[1..] == rest[1..];
          assert JoinSpaces(rest) == rest[0] + " " + JoinSpaces(rest[1..]);
          assert JoinSpaces(r) == ([s[0]] + rest[0]) + " " + JoinSpaces(rest[1..]);
        }
        forall k | 0 <= k < |r| ensures SpaceFree(r[k]) {
          if k == 0 {
            assert SpaceFree(rest[0]);
          } else {
            assert r[k] == rest[k];
          }
        }
      }
    }
  }

  /** Joining space-free pieces with spaces and splitting again gives the same pieces back. */
  lemma {:induction false} SegmentsOfJoin(xs: seq<string>)
    requires |xs| >= 1
    requires forall k :: 0 <= k < |xs| ==> SpaceFree(xs[k])
    ensures Segments(JoinSpaces(xs)) == xs
    decreases |xs|
  {
    if |xs| == 1 {
      SegmentsOfSpaceFree(xs[0]);
    } else {
      SegmentsOfJoin(xs[1..]);
      SegmentsOfPrefix(xs[0], JoinSpaces(xs[1..]));
    }
  }

  /** A space-free string is one piece. */
  lemma {:induction false} SegmentsOfSpaceFree(x: string)
    requires SpaceFree(x)
    ensures Segments(x) == [x]
    decreases |x|
  {
    if x != [] {
      SegmentsOfSpaceFree(x[1..]);
      assert [x[0]] + x[1..] == x;
    }
  }

  /** A space-free head followed by a space starts a new piece after the head. */
  lemma {:induction false} SegmentsOfPrefix(x: string, y: string)
    requires SpaceFree(x)
    ensures Segments(x + " " + y) == [x] + Segments(y)
    decreases |x|
  {
    if x == [] {
      assert x + " " + y == [' '] + y;
      assert ([' '] + y)[1..] == y;
    } else {
      SegmentsOfPrefix(x[1..], y);
      assert (x + " " + y)[1..] == x[1..] + " " + y;
      assert [x[0]] + x[1..] == x;
    }
  }

  /** Drop empty strings from the end, as `split` does with limit 0. */
  function DropTrailingEmpty(xs: seq<string>): (r: seq<string>)
    ensures r <= xs
    ensures r != [] ==> r[|r| - 1] != ""
    ensures forall k :: |r| <= k < |xs| ==> xs[k] == ""
    decreases |xs|
  {
    if xs == [] then []
    else if xs[|xs| - 1] == "" then DropTrailingEmpty(xs[..|xs| - 1])
    else xs
  }

  /** `s.split(" ")`: when no space occurs the string itself is the only element;
      otherwise the pieces between spaces, with trailing empty pieces removed. */
  function Split(s: string): (r: seq<string>)
  {
    if ' ' !in s then [s] else DropTrailingEmpty(Segments(s))
  }

  /** What `split` returns, stated without reference to how it is computed: the result is a
      prefix of the pieces, every piece it leaves out is empty, every element is space-free,
      it is empty only for a non-empty string of spaces, and when `s` holds a space no empty
      piece is left at the end. */
  lemma SplitFacts(s: string)
    ensures Split(s) <= Segments(s)
    ensures forall k :: |Split(s)| <= k < |Segments(s)| ==> Segments(s)[k] == ""
    ensures ' ' in s && Split(s) != [] ==> Split(s)[|Split(s)| - 1] != ""
    ensures forall k :: 0 <= k < |Split(s)| ==> SpaceFree(Split(s)[k])
    ensures Split(s) == [] <==> (s != [] && forall k :: 0 <= k < |s| ==> s[k] == ' ')
  {
    SplitPrefix(s);
    SplitSpaceFree(s);
    SplitEmpty(s);
  }

  lemma SplitPrefix(s: string)
    ensures Split(s) <= Segments(s)
    ensures forall k :: |Split(s)| <= k < |Segments(s)| ==> Segments(s)[k] == ""
  {
    if ' ' !in s {
      SegmentsOfSpaceFree(s);
    }
  }

  lemma SplitSpaceFree(s: string)
    ensures forall k :: 0 <= k < |Split(s)| ==> SpaceFree(Split(s)[k])
  {
    JoinSegments(s);
    SplitPrefix(s);
    var r := Split(s);
    forall k | 0 <= k < |r| ensures SpaceFree(r[k]) {
      assert r[k] == Segments(s)[k];
    }
  }

  lemma SplitEmpty(s: string)
    ensures Split(s) == [] <==> (s != [] && forall k :: 0 <= k < |s| ==> s[k] == ' ')
  {
    if ' ' in s {
      SplitPrefix(s);
      var r := Split(s);
      if r == [] {
        AllEmptySegments(s);
      } else {
        assert r[|r| - 1] == Segments(s)[|r| - 1] != "";
        NonEmptySegmentHasNonSpace(s, |r| - 1);
      }
    } else if s != [] {
      assert s[0] in s;
    }
  }

  /** If every piece is empty the string consists of spaces only. */
  lemma {:induction false} AllEmptySegments(s: string)
    requires forall k :: 0 <= k < |Segments(s)| ==> Segments(s)[k] == ""
    ensures forall k :: 0 <= k < |s| ==> s[k] == ' '
    decreases |s|
  {
    if s != [] {
      var rest := Segments(s[1..]);
      if s[0] != ' ' {
        assert Segments(s)[0] == [s[0]] + rest[0];
        assert false;
      }
      assert Segments(s) == [""] + rest;
      forall k | 0 <= k < |rest| ensures rest[k] == "" {
        assert Segments(s)[k + 1] == rest[k];
      }
      AllEmptySegments(s[1..]);
      forall k | 0 <= k < |s| ensures s[k] == ' ' {
        if k > 0 { assert s[k] == s[1..][k - 1]; }
      }
    }
  }

  /** A non-empty piece witnesses a character that is not a space. */
  lemma {:induction false} NonEmptySegmentHasNonSpace(s: string, k: nat)
    requires k < |Segments(s)| && Segments(s)[k] != ""
    ensures exists i :: 0 <= i < |s| && s[i] != ' '
    decreases |s|
  {
    var rest := Segments(s[1..]);
    if s[0] != ' ' {
      assert s[0] != ' ';
    } else {
      assert Segments(s) == [""] + rest;
      assert k > 0 && Segments(s)[k] == rest[k - 1];
      NonEmptySegmentHasNonSpace(s[1..], k - 1);
      var i :| 0 <= i < |s[1..]| && s[1..][i] != ' ';
      assert s[i + 1] != ' ';
    }
  }

  /** The first piece is the text before the first space (all of `s` when there is none). */
  lemma {:induction false} FirstSegment(s: string)
    ensures Segments(s)[0] <= s
    ensures SpaceFree(Segments(s)[0])
    ensures |Segments(s)[0]| < |s| ==> s[|Segments(s)[0]|] == ' '
    decreases |s|
  {
    if s != [] && s[0] != ' ' {
      FirstSegment(s[1..]);
      var rest := Segments(s[1..]);
      assert Segments(s)[0] == [s[0]] + rest[0];
      assert s == [s[0]] + s[1..];
    }
  }

  /** Joining space-free, non-empty tokens with single spaces and calling `split` gives the
      tokens back: the inverse of writing an event line. */
  lemma SplitOfJoin(xs: seq<string>)
    requires |xs| >= 1
    requires forall k :: 0 <= k < |xs| ==> SpaceFree(xs[k]) && xs[k] != ""
    ensures Split(JoinSpaces(xs)) == xs
  {
    SegmentsOfJoin(xs);
    var s := JoinSpaces(xs);
    if ' ' !in s {
      SegmentsOfSpaceFree(s);
    } else {
      assert xs[|xs| - 1] != "";
    }
  }

  // ---------------------------------------------------------------------------
  // String.trim()

  /** A character `trim` removes: any code point at or below U+0020. */
  predicate Blank(c: char) { c <= ' ' }

  function TrimStart(s: string): (r: string)
    ensures |r| <= |s|
    decreases |s|
  {
    if s != [] && Blank(s[0]) then TrimStart(s[1..]) else s
  }

  function TrimEnd(s: string): (r: string)
    ensures |r| <= |s|
    decreases |s|
  {
    if s != [] && Blank(s[|s| - 1]) then TrimEnd(s[..|s| - 1]) else s
  }

  /** `s.trim()`. */
  function Trim(s: string): (r: string)
  {
    TrimEnd(TrimStart(s))
  }

  /** `trim` keeps a contiguous piece of its input, removes only blanks, and leaves no blank
      at either end. */
  lemma {:induction false} TrimFacts(s: string)
    ensures exists i, j ::
      && 0 <= i <= j <= |s| && Trim(s) == s[i..j]
      && (forall k :: 0 <= k < i ==> Blank(s[k]))
      && (forall k :: j <= k < |s| ==> Blank(s[k]))
    ensures Trim(s) != [] ==> !Blank(Trim(s)[0]) && !Blank(Trim(s)[|Trim(s)| - 1])
  {
    var i := TrimStartFacts(s);
    var j := TrimEndFacts(s[i..]);
    assert Trim(s) == s[i..][..j] == s[i..i + j];
    forall k | i + j <= k < |s| ensures Blank(s[k]) {
      assert s[k] == s[i..][k - i];
    }
    if Trim(s) != [] {
      assert Trim(s)[0] == s[i..][0];
    }
  }

  lemma {:induction false} TrimStartFacts(s: string) returns (i: nat)
    ensures i <= |s| && TrimStart(s) == s[i..]
    ensures forall k :: 0 <= k < i ==> Blank(s[k])
    ensures TrimStart(s) != [] ==> !Blank(TrimStart(s)[0])
    decreases |s|
  {
    if s != [] && Blank(s[0]) {
      var i' := TrimStartFacts(s[1..]);
      i := i' + 1;
      assert s[1..][i'..] == s[i..];
      forall k | 0 <= k < i ensures Blank(s[k]) {
        if k > 0 { assert s[k] == s[1..][k - 1]; }
      }
    } else {
      i := 0;
    }
  }

  lemma {:induction false} TrimEndFacts(s: string) returns (j: nat)
    ensures j <= |s| && TrimEnd(s) == s[..j]
    ensures forall k :: j <= k < |s| ==> Blank(s[k])
    ensures TrimEnd(s) != [] ==> !Blank(TrimEnd(s)[|TrimEnd(s)| - 1])
    decreases |s|
  {
    if s != [] && Blank(s[|s| - 1]) {
      j := TrimEndFacts(s[..|s| - 1]);
      assert s[..|s| - 1][..j] == s[..j];
      forall k | j <= k < |s| ensures Blank(s[k]) {
        if k < |s| - 1 { assert s[k] == s[..|s| - 1][k]; }
      }
    } else {
      j := |s|;
      assert s[..j] == s;
    }
  }

  /** A string starting with a blank gets strictly shorter under `trim`. */
  lemma LeadingBlankShrinks(s: string)
    requires s != [] && Blank(s[0])
    ensures |Trim(s)| < |s|
  {
    assert TrimStart(s) == TrimStart(s[1..]);
  }

  /** A token of a written log line: not empty, and free of the blanks `trim` removes (so
      free of spaces too). */
  predicate Word(x: string)
  {
    x != "" && forall k :: 0 <= k < |x| ==> !Blank(x[k])
  }

  /** Words joined by single spaces neither start nor end with a blank. */
  lemma {:induction false} JoinEnds(xs: seq<string>)
    requires |xs| >= 1 && forall k :: 0 <= k < |xs| ==> Word(xs[k])
    ensures JoinSpaces(xs) != [] && !Blank(JoinSpaces(xs)[0])
    ensures !Blank(JoinSpaces(xs)[|JoinSpaces(xs)| - 1])
    decreases |xs|
  {
    assert Word(xs[0]);
    if |xs| > 1 {
      JoinEnds(xs[1..]);
      var rest := JoinSpaces(xs[1..]);
      assert JoinSpaces(xs) == xs[0] + " " + rest;
      assert JoinSpaces(xs)[|JoinSpaces(xs)| - 1] == rest[|rest| - 1];
    }
  }

  /** Cutting the first word off a joined line leaves the separating space and the rest. */
  lemma JoinAfterFirst(xs: seq<string>)
    requires |xs| >= 2
    ensures JoinSpaces(xs)[|xs[0]|..] == " " + JoinSpaces(xs[1..])
  {
    var rest := JoinSpaces(xs[1..]);
    assert JoinSpaces(xs) == xs[0] + (" " + rest);
  }

  /** Words joined by single spaces split back into the words. */
  lemma SplitOfWords(xs: seq<string>)
    requires |xs| >= 1 && forall k :: 0 <= k < |xs| ==> Word(xs[k])
    ensures Split(JoinSpaces(xs)) == xs
  {
    forall k | 0 <= k < |xs| ensures SpaceFree(xs[k]) && xs[k] != "" {
      assert Word(xs[k]);
    }
    SplitOfJoin(xs);
  }

  /** `trim` leaves words joined by single spaces alone, and strips the one space in front. */
  lemma TrimJoin(xs: seq<string>)
    requires |xs| >= 1 && forall k :: 0 <= k < |xs| ==> Word(xs[k])
    ensures Trim(" " + JoinSpaces(xs)) == JoinSpaces(xs)
  {
    JoinEnds(xs);
    var j := JoinSpaces(xs);
    assert (" " + j)[1..] == j;
    assert TrimStart(" " + j) == TrimStart(j) == j;
  }

  lemma {:induction false} ContainsRight(a: string, b: string, sub: string)
    requires Contains(b, sub)
    ensures Contains(a + b, sub)
    decreases |a|
  {
    if a == [] {
      assert a + b == b;
    } else {
      assert (a + b)[1..] == a[1..] + b;
      ContainsRight(a[1..], b, sub);
    }
  }

  lemma ContainsLeft(a: string, b: string, sub: string)
    requires Contains(a, sub)
    ensures Contains(a + b, sub)
  {
    ContainsAt(a, sub);
    var i :| OccursAt(a, sub, i);
    assert (a + b)[i..i + |sub|] == a[i..i + |sub|];
    assert OccursAt(a + b, sub, i);
    ContainsAt(a + b, sub);
  }

  /** A text found in one of the words is found in the joined line. */
  lemma {:induction false} ContainsJoin(xs: seq<string>, j: nat, sub: string)
    requires j < |xs| && Contains(xs[j], sub)
    ensures Contains(JoinSpaces(xs), sub)
    decreases j
  {
    if |xs| > 1 {
      var rest := JoinSpaces(xs[1..]);
      assert JoinSpaces(xs) == (xs[0] + " ") + rest;
      if j == 0 {
        ContainsLeft(xs[0], " ", sub);
        ContainsLeft(xs[0] + " ", rest, sub);
      } else {
        ContainsJoin(xs[1..], j - 1, sub);
        ContainsRight(xs[0] + " ", rest, sub);
      }
    }
  }

  // ---------------------------------------------------------------------------
  // String.compareTo

  /** `a.compareTo(b) < 0`: the first differing character decides, otherwise the shorter
      string comes first. */
  predicate Below(a: string, b: string)
    decreases |a|
  {
    if a == [] then b != []
    else if b == [] then false
    else if a[0] != b[0] then a[0] < b[0]
    else Below(a[1..], b[1..])
  }

  lemma {:induction false} BelowIrreflexive(a: string)
    ensures !Below(a, a)
    decreases |a|
  {
    if a != [] { BelowIrreflexive(a[1..]); }
  }

  lemma {:induction false} BelowTransitive(a: string, b: string, c: string)
    requires Below(a, b) && Below(b, c)
    ensures Below(a, c)
    decreases |a|
  {
    if a != [] && b != [] && c != [] && a[0] == b[0] && b[0] == c[0] {
      BelowTransitive(a[1..], b[1..], c[1..]);
    }
  }

  /** Two different strings are always ordered one way or the other. */
  lemma {:induction false} BelowTotal(a: string, b: string)
    requires a != b
    ensures Below(a, b) || Below(b, a)
    decreases |a|
  {
    if a != [] && b != [] && a[0] == b[0] {
      assert a == [a[0]] + a[1..] && b == [b[0]] + b[1..];
      BelowTotal(a[1..], b[1..]);
    }
  }

  lemma {:induction false} BelowAsymmetric(a: string, b: string)
    requires Below(a, b)
    ensures !Below(b, a)
  {
    if Below(b, a) {
      BelowTransitive(a, b, a);
      BelowIrreflexive(a);
    }
  }

  // ---------------------------------------------------------------------------
  // Long.parseLong

  const MinLong: int := -0x8000_0000_0000_0000
  const MaxLong: int := 0x7fff_ffff_ffff_ffff

  predicate IsLong(x: int) { MinLong <= x <= MaxLong }

  predicate IsDigit(c: char) { '0' <= c <= '9' }

  predicate AllDigits(s: string) { forall k :: 0 <= k < |s| ==> IsDigit(s[k]) }

  /** The number a string of decimal digits denotes. */
  function DigitsValue(s: string): (n: nat)
    requires AllDigits(s)
    decreases |s|
  {
    if s == [] then 0 else DigitsValue(s[..|s| - 1]) * 10 + (s[|s| - 1] - '0') as int
  }

  /** Decimal rendering of a natural number, without leading zeros. */
  function ShowNat(n: nat): (s: string)
    decreases n
  {
    if n < 10 then [('0' as int + n) as char] else ShowNat(n / 10) + [('0' as int + n % 10) as char]
  }

  /** `Long.parseLong(s)`: an optional sign then one or more decimal digits, whose value must
      fit in 64 bits; anything else is a NumberFormatException, modelled as None. */
  function ParseLong(s: string): (r: Option<int>)
    ensures r.Some? ==> IsLong(r.value)
  {
    if s == [] then None
    else if s[0] == '-' || s[0] == '+' then
      if |s| == 1 || !AllDigits(s[1..]) then None
      else
        var d: int := DigitsValue(s[1..]);
        var v := if s[0] == '-' then -d else d;
        if IsLong(v) then Some(v) else None
    else if AllDigits(s) then
      var v := DigitsValue(s);
      if v <= MaxLong then Some(v) else None
    else None
  }

  /** Rendering a number as digits and reading it back gives the number. */
  lemma {:induction false} DigitsOfShow(n: nat)
    ensures AllDigits(ShowNat(n)) && ShowNat(n) != []
    ensures DigitsValue(ShowNat(n)) == n
    decreases n
  {
    if n >= 10 {
      DigitsOfShow(n / 10);
      var s := ShowNat(n);
      assert s[..|s| - 1] == ShowNat(n / 10);
    }
  }

  /** `Long.parseLong` reads back every non-negative long written in decimal. */
  lemma ParseShowRoundTrip(n: nat)
    requires n <= MaxLong
    ensures ParseLong(ShowNat(n)) == Some(n)
  {
    DigitsOfShow(n);
  }

  /** `Long.parseLong` accepts a string only if it is a sign followed by digits, or digits. */
  lemma ParseLongShape(s: string)
    requires ParseLong(s).Some?
    ensures s != []
    ensures AllDigits(s) || ((s[0] == '-' || s[0] == '+') && |s| >= 2 && AllDigits(s[1..]))
  {
  }
}

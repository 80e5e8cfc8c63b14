/** The command line of the viewer: `-x` opens a new option whose values are the bare words
    that follow it, and the options `-o`, `-v` and `-f` choose the layout, the replay mode and
    the log file. */
module CommandLine {
  import opened JavaString

  /** Why `main` gives up before reading the log. */
  datatype Rejection =
    | EmptyArgument           // `charAt(0)` on an empty argument throws
    | LoneDash(arg: string)   // "Error at argument -"
    | IllegalUsage            // a bare word before any option
    | Usage                   // the usage text: a missing option or an unknown choice
    | MissingValue            // `get(0)` on an option given without a value throws

  datatype Checked<T> = Accepted(value: T) | Rejected(why: Rejection)

  /** The option map being built, and the option the next bare word belongs to. */
  datatype Grouping = Grouping(params: map<string, seq<string>>, current: Option<string>)

  /** The current option, when there is one, has an entry. */
  predicate Linked(gr: Grouping)
  {
    gr.current.Some? ==> gr.current.value in gr.params
  }

  /** One argument of the loop: an option replaces any earlier list under its name with a
      new empty one and becomes current; a bare word joins the current option's list. */
  function GroupStep(gr: Grouping, a: string): (r: Checked<Grouping>)
    requires Linked(gr)
    ensures r.Accepted? ==> Linked(r.value)
  {
    if |a| == 0 then Rejected(EmptyArgument)
    else if a[0] == '-' then
      if |a| < 2 then Rejected(LoneDash(a))
      else Accepted(Grouping(gr.params[a[1..] := []], Some(a[1..])))
    else if gr.current.Some? then
      var k := gr.current.value;
      Accepted(gr.(params := gr.params[k := gr.params[k] + [a]]))
    else Rejected(IllegalUsage)
  }

  /** The whole argument loop, as a fold from the left. */
  function Group(args: seq<string>): (r: Checked<Grouping>)
    ensures r.Accepted? ==> Linked(r.value)
    decreases |args|
  {
    if args == [] then Accepted(Grouping(map[], None))
    else match Group(args[..|args| - 1])
      case Rejected(why) => Rejected(why)
      case Accepted(gr) => GroupStep(gr, args[|args| - 1])
  }

  /** The argument loop of `main`, building the option map in place. */
  method GroupArgs(args: seq<string>) returns (r: Checked<map<string, seq<string>>>)
    ensures r.Accepted? <==> Group(args).Accepted?
    ensures r.Accepted? ==> r.value == Group(args).value.params
    ensures r.Rejected? ==> r.why == Group(args).why
  {
    var params: map<string, seq<string>> := map[];
    var options: Option<string> := None;
    var i := 0;
    while i < |args|
      invariant 0 <= i <= |args|
      invariant Group(args[..i]) == Accepted(Grouping(params, options))
    {
      var a := args[i];
      assert args[..i + 1][..i] == args[..i];
      if |a| == 0 {
        RejectionSticks(args, i + 1);
        return Rejected(EmptyArgument);
      }
      if a[0] == '-' {
        if |a| < 2 {
          RejectionSticks(args, i + 1);
          return Rejected(LoneDash(a));
        }
        options := Some(a[1..]);
        params := params[a[1..] := []];
      } else if options.Some? {
        params := params[options.value := params[options.value] + [a]];
      } else {
        RejectionSticks(args, i + 1);
        return Rejected(IllegalUsage);
      }
      i := i + 1;
    }
    assert args[..|args|] == args;
    return Accepted(params);
  }

  /** Once an argument is refused the rest of the command line is not looked at. */
  lemma {:induction false} RejectionSticks(args: seq<string>, n: nat)
    requires n <= |args| && Group(args[..n]).Rejected?
    ensures Group(args) == Group(args[..n])
    decreases |args| - n
  {
    if n < |args| {
      assert args[..n + 1][..n] == args[..n];
      RejectionSticks(args, n + 1);
    } else {
      assert args[..n] == args;
    }
  }

  /** After a successful loop, a name has an entry exactly when `-name` was among the
      arguments. */
  lemma {:induction false} GroupKeys(args: seq<string>, k: string)
    requires Group(args).Accepted?
    ensures k in Group(args).value.params <==> "-" + k in args
    decreases |args|
  {
    if args != [] {
      var init := args[..|args| - 1];
      var a := args[|args| - 1];
      assert args == init + [a];
      GroupKeys(init, k);
      if a[0] == '-' {
        assert a == "-" + a[1..];
        assert a == "-" + k <==> a[1..] == k;
      } else {
        assert a != "-" + k;
      }
    }
  }

  /** The values listed under an option are all bare words of the command line. */
  lemma {:induction false} GroupValues(args: seq<string>, k: string, w: string)
    requires Group(args).Accepted? && k in Group(args).value.params && w in Group(args).value.params[k]
    ensures w in args && w != "" && w[0] != '-'
    decreases |args|
  {
    if args != [] {
      var init := args[..|args| - 1];
      var a := args[|args| - 1];
      assert args == init + [a];
      var gr := Group(init).value;
      if a[0] == '-' {
        assert k != a[1..] && k in gr.params;
        GroupValues(init, k, w);
      } else if !(k == gr.current.value && w == a) {
        assert k in gr.params && w in gr.params[k];
        GroupValues(init, k, w);
      }
    }
  }

  /** A bare word at the very start is refused as illegal usage. */
  lemma {:induction false} StrayFirstWord(args: seq<string>)
    requires |args| >= 1 && args[0] != "" && args[0][0] != '-'
    ensures Group(args) == Rejected(IllegalUsage)
    decreases |args|
  {
    if |args| > 1 {
      var init := args[..|args| - 1];
      assert init[0] == args[0];
      StrayFirstWord(init);
    } else {
      assert args[..0] == [];
    }
  }

  datatype Layout = Circle | Isom | KK
  datatype Mode = Final | Interval

  /** What `main` passes on to `parseFile`. */
  datatype Settings = Settings(layout: Layout, mode: Mode, file: string)

  function LayoutNamed(name: string): Option<Layout>
  {
    if name == "circle" then Some(Circle)
    else if name == "isom" then Some(Isom)
    else if name == "kk" then Some(KK)
    else None
  }

  function ModeNamed(name: string): Option<Mode>
  {
    if name == "final" then Some(Final)
    else if name == "interval" then Some(Interval)
    else None
  }

  /** The checks after the loop, in the order `main` makes them: all three options present,
      first value of `-o` and of `-v` read, each compared with its choices, and only then the
      first value of `-f` read. */
  function Validate(params: map<string, seq<string>>): (r: Checked<Settings>)
    ensures r.Accepted? <==>
      && "o" in params && "v" in params && "f" in params
      && |params["o"]| > 0 && |params["v"]| > 0 && |params["f"]| > 0
      && LayoutNamed(params["o"][0]).Some? && ModeNamed(params["v"][0]).Some?
    ensures r.Accepted? ==>
      && LayoutNamed(params["o"][0]) == Some(r.value.layout)
      && ModeNamed(params["v"][0]) == Some(r.value.mode)
      && r.value.file == params["f"][0]
    ensures !("o" in params && "v" in params && "f" in params) ==> r == Rejected(Usage)
  {
    if !("o" in params && "v" in params && "f" in params) then Rejected(Usage)
    else if |params["o"]| == 0 || |params["v"]| == 0 then Rejected(MissingValue)
    else
      match (LayoutNamed(params["o"][0]), ModeNamed(params["v"][0]))
      case (None, _) => Rejected(Usage)
      case (_, None) => Rejected(Usage)
      case (Some(layout), Some(mode)) =>
        if |params["f"]| == 0 then Rejected(MissingValue)
        else Accepted(Settings(layout, mode, params["f"][0]))
  }

  /** The whole front end of `main`, short of opening the file. */
  function ReadSettings(args: seq<string>): (r: Checked<Settings>)
    ensures Group(args).Rejected? ==> r == Rejected(Group(args).why)
    ensures r.Accepted? ==> "-o" in args && "-v" in args && "-f" in args
    ensures r.Accepted? ==> r.value.file in args && r.value.file != "" && r.value.file[0] != '-'
  {
    match Group(args)
    case Rejected(why) => Rejected(why)
    case Accepted(gr) =>
      var r := Validate(gr.params);
      if r.Rejected? then r
      else
        GroupKeys(args, "o");
        GroupKeys(args, "v");
        GroupKeys(args, "f");
        GroupValues(args, "f", r.value.file);
        assert "-" + "o" == "-o" && "-" + "v" == "-v" && "-" + "f" == "-f";
        r
  }

  /** The documented command line `-o <layout> -v <mode> -f <file>` gives each option its
      one value, and is accepted exactly when the layout and the mode are known choices. */
  lemma DocumentedForm(o: string, v: string, f: string)
    requires o != "" && o[0] != '-' && v != "" && v[0] != '-' && f != "" && f[0] != '-'
    ensures var args := ["-o", o, "-v", v, "-f", f];
      && Group(args).Accepted?
      && Group(args).value.params == map["o" := [o], "v" := [v], "f" := [f]]
      && ReadSettings(args) ==
           if LayoutNamed(o).Some? && ModeNamed(v).Some?
           then Accepted(Settings(LayoutNamed(o).value, ModeNamed(v).value, f))
           else Rejected(Usage)
  {
    DocumentedGroup(o, v, f);
  }

  lemma DocumentedGroup(o: string, v: string, f: string)
    requires o != "" && o[0] != '-' && v != "" && v[0] != '-' && f != "" && f[0] != '-'
    ensures Group(["-o", o, "-v", v, "-f", f]) == Accepted(Grouping(map["o" := [o], "v" := [v], "f" := [f]], Some("f")))
  {
    assert "-" + "o" == "-o" && "-" + "v" == "-v" && "-" + "f" == "-f";
    var a := ["-o", o, "-v", v, "-f", f];
    var g2 := OptionWithValue([], "o", o);
    assert [] + ["-o", o] == a[..2];
    var g4 := OptionWithValue(a[..2], "v", v);
    assert a[..2] + ["-v", v] == a[..4];
    var g6 := OptionWithValue(a[..4], "f", f);
    assert a[..4] + ["-f", f] == a;
  }

  /** The example of the usage text selects the ISOM layout, final mode and `overlay.txt`. */
  lemma UsageExample()
    ensures ReadSettings(["-o", "isom", "-v", "final", "-f", "overlay.txt"]) == Accepted(Settings(Isom, Final, "overlay.txt"))
  {
    DocumentedForm("isom", "final", "overlay.txt");
  }

  /** An option followed by one value, appended to an accepted command line, records that
      value under the option's name. */
  lemma OptionWithValue(args: seq<string>, k: string, w: string) returns (gr: Grouping)
    requires Group(args).Accepted? && k != "" && w != "" && w[0] != '-'
    ensures Group(args + ["-" + k, w]) == Accepted(gr)
    ensures gr == Grouping(Group(args).value.params[k := [w]], Some(k))
  {
    var a := "-" + k;
    var more := args + [a, w];
    assert more[..|more| - 1] == args + [a];
    assert (args + [a])[..|args|] == args;
    assert a[0] == '-' && a[1..] == k;
    var started := Grouping(Group(args).value.params[k := []], Some(k));
    assert Group(args + [a]) == Accepted(started);
    assert started.params[k] + [w] == [w];
    assert more[|more| - 1] == w && |w| > 0;
    assert started.params[k := [w]] == Group(args).value.params[k := [w]];
    gr := Grouping(Group(args).value.params[k := [w]], Some(k));
  }

  /** A later `-x` discards the values given to an earlier `-x`. */
  lemma RepeatedOption(args: seq<string>, k: string)
    requires Group(args).Accepted? && k != ""
    ensures Group(args + ["-" + k]).Accepted?
    ensures Group(args + ["-" + k]).value.params == Group(args).value.params[k := []]
  {
    var a := "-" + k;
    assert (args + [a])[..|args|] == args;
    assert a[1..] == k;
  }
}

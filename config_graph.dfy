/** `Graph::from_config` of src/graph/mod.rs: a line-oriented reader that
    maps each declared path to a node holding the `dep` values and the raw
    `run` text of the lines that follow it, and refuses a path declared
    twice. */
module ConfigGraph {
  import opened Wrappers
  import opened Text
  import opened Folds

  /** A node of the graph: its path, its inputs and its commands as text. */
  datatype PathNode = PathNode(path: string, inputs: seq<string>, cmds: seq<string>)

  /** The panics of `from_config`, with the zero-based line number. */
  datatype ConfigError =
    | MissingValue(line: nat, keyword: string)
    | DuplicatePath(line: nat, value: string)
    | DepBeforePath(line: nat)
    | RunBeforePath(line: nat)
    | UnknownKeyword(line: nat, keyword: string)

  /** A configuration line as `from_config` splits it: blank, a keyword with
      nothing after it, or a keyword, its value and the raw text after the
      keyword's length (what `run` stores). */
  datatype Line =
    | Blank
    | NoValue(keyword: string)
    | Entry(keyword: string, value: string, raw: string)

  /** The value starts at the first non-whitespace character found after
      skipping as many characters as the keyword is long, counted from the
      start of the line. */
  function Classify(line: string): (c: Line)
    ensures c.Blank? <==> AllWhitespace(line)
    ensures c.NoValue? ==> c.keyword == FirstWord(line).value
    ensures !c.Blank? ==> (c.NoValue? <==> AllWhitespace(line[|FirstWord(line).value|..]))
    ensures c.Entry? ==> c.keyword == FirstWord(line).value
    ensures c.Entry? ==> c.value != [] && !IsWhitespace(c.value[0])
    ensures c.Entry? ==> |c.keyword| <= |line| && c.raw == line[|c.keyword|..]
    ensures c.Entry? ==> exists k | |c.keyword| <= k < |line| :: c.value == line[k..]
                                  && AllWhitespace(line[|c.keyword|..k])
  {
    match FirstWord(line)
    case None => Blank
    case Some(keyword) =>
      var rest := line[|keyword|..];
      var k := LeadingWhitespace(rest);
      if k == |rest| then
        assert rest[..k] == rest;
        assert AllWhitespace(line[|keyword|..]);
        NoValue(keyword)
      else
        var i := |keyword| + k;
        assert line[i..][0] == rest[k];
        assert line[|keyword|..i] == rest[..k];
        assert AllWhitespace(line[|keyword|..i]) && |keyword| <= i < |line|;
        Entry(keyword, line[i..], rest)
  }

  /** The nodes built so far and the path that `dep` and `run` lines add to
      ("" before any path). */
  datatype GraphState = GraphState(nodes: map<string, PathNode>, active: string)

  const Start := GraphState(map[], "")

  /** One line of the configuration. It panics exactly when the keyword has
      no value, when it is none of `path`, `dep` and `run`, when it is a
      `path` already taken, or when it is a `dep` or `run` before any path. */
  function Step(s: GraphState, lineno: nat, line: string): (r: Result<GraphState, ConfigError>)
    ensures r.Err? ==> r.error.line == lineno
    ensures AllWhitespace(line) ==> r == Ok(s)
    ensures r.Err? <==> var c := Classify(line);
      || c.NoValue?
      || (&& c.Entry?
          && (|| c.keyword !in {"path", "dep", "run"}
              || (c.keyword == "path" && c.value in s.nodes)
              || (c.keyword in {"dep", "run"} && s.active !in s.nodes)))
  {
    match Classify(line)
    case Blank => Ok(s)
    case NoValue(keyword) => Err(MissingValue(lineno, keyword))
    case Entry(keyword, value, raw) =>
      if keyword == "path" then
        if value in s.nodes then Err(DuplicatePath(lineno, value))
        else Ok(GraphState(s.nodes[value := PathNode(value, [], [])], value))
      else if keyword == "dep" then
        if s.active in s.nodes then
          var n := s.nodes[s.active];
          Ok(s.(nodes := s.nodes[s.active := n.(inputs := n.inputs + [value])]))
        else Err(DepBeforePath(lineno))
      else if keyword == "run" then
        if s.active in s.nodes then
          var n := s.nodes[s.active];
          Ok(s.(nodes := s.nodes[s.active := n.(cmds := n.cmds + [raw])]))
        else Err(RunBeforePath(lineno))
      else Err(UnknownKeyword(lineno, keyword))
  }

  /** The nodes `from_config` returns, or its panic. */
  function FromConfigOf(config: string): Result<map<string, PathNode>, ConfigError> {
    var lines := Lines(config);
    match Run(Step, Start, lines, |lines|)
    case Err(e) => Err(e)
    case Ok(s) => Ok(s.nodes)
  }

  /** `Graph::from_config`: the loop over the lines, updating the node map
      and the active path until a line panics. */
  method FromConfig(config: string) returns (r: Result<map<string, PathNode>, ConfigError>)
    ensures r == FromConfigOf(config)
  {
    var lines := Lines(config);
    var nodes: map<string, PathNode> := map[];
    var active: string := "";
    for lineno := 0 to |lines|
      invariant Run(Step, Start, lines, lineno) == Ok(GraphState(nodes, active))
    {
      RunNext(Step, Start, lines, lineno);
      var next := ReadLine(nodes, active, lineno, lines[lineno]);
      if next.Err? {
        RunErrSticky(Step, Start, lines, lineno + 1, |lines|, next.error);
        return Err(next.error);
      }
      nodes, active := next.value.nodes, next.value.active;
    }
    return Ok(nodes);
  }

  /** The body of `from_config`'s loop for one line: the node map and the
      active path after it, or its panic. */
  method ReadLine(nodes: map<string, PathNode>, active: string, lineno: nat, line: string)
    returns (r: Result<GraphState, ConfigError>)
    ensures r == Step(GraphState(nodes, active), lineno, line)
  {
    match Classify(line) {
      case Blank =>
        return Ok(GraphState(nodes, active));
      case NoValue(keyword) =>
        return Err(MissingValue(lineno, keyword));
      case Entry(keyword, value, raw) =>
        if keyword == "path" {
          if value in nodes {
            return Err(DuplicatePath(lineno, value));
          }
          return Ok(GraphState(nodes[value := PathNode(value, [], [])], value));
        } else if keyword == "dep" {
          if active !in nodes {
            return Err(DepBeforePath(lineno));
          }
          var n := nodes[active];
          return Ok(GraphState(nodes[active := n.(inputs := n.inputs + [value])], active));
        } else if keyword == "run" {
          if active !in nodes {
            return Err(RunBeforePath(lineno));
          }
          var n := nodes[active];
          return Ok(GraphState(nodes[active := n.(cmds := n.cmds + [raw])], active));
        }
        return Err(UnknownKeyword(lineno, keyword));
    }
  }

  // ------------------------------------------------------ specification

  /** The values of the `path` lines, in file order. */
  function PathValues(lines: seq<string>): (ps: seq<string>)
    ensures forall i | 0 <= i < |ps| :: ps[i] != []
  {
    if lines == [] then []
    else
      var c := Classify(lines[|lines| - 1]);
      PathValues(lines[..|lines| - 1]) + if c.Entry? && c.keyword == "path" then [c.value] else []
  }

  /** The path the next `dep` or `run` line belongs to: the last path
      declared, or "" before any. */
  function Active(lines: seq<string>): string {
    var ps := PathValues(lines);
    if ps == [] then "" else ps[|ps| - 1]
  }

  /** The values of the `dep` lines that follow the declaration of path p
      and come before the next `path` line, in file order. */
  function InputsOf(lines: seq<string>, p: string): seq<string> {
    if lines == [] then []
    else
      var init := lines[..|lines| - 1];
      var c := Classify(lines[|lines| - 1]);
      InputsOf(init, p) + if c.Entry? && c.keyword == "dep" && Active(init) == p then [c.value] else []
  }

  /** The raw text of the `run` lines of path p, in file order. */
  function CmdsOf(lines: seq<string>, p: string): seq<string> {
    if lines == [] then []
    else
      var init := lines[..|lines| - 1];
      var c := Classify(lines[|lines| - 1]);
      CmdsOf(init, p) + if c.Entry? && c.keyword == "run" && Active(init) == p then [c.raw] else []
  }

  predicate Distinct(ps: seq<string>) {
    forall i, j | 0 <= i < j < |ps| :: ps[i] != ps[j]
  }

  /** The state after a prefix of the lines, described without the loop:
      one node per declared path, holding the inputs and commands of its
      section; the active path is the last declared; no path is repeated. */
  predicate Describes(lines: seq<string>, s: GraphState) {
    && s.nodes.Keys == (set i | 0 <= i < |PathValues(lines)| :: PathValues(lines)[i])
    && Distinct(PathValues(lines))
    && s.active == Active(lines)
    && forall p | p in s.nodes :: s.nodes[p] == PathNode(p, InputsOf(lines, p), CmdsOf(lines, p))
  }

  /** A path that is not declared has nothing in its section. */
  lemma {:induction false} UndeclaredHasNothing(lines: seq<string>, p: string)
    requires forall i | 0 <= i < |PathValues(lines)| :: PathValues(lines)[i] != p
    requires p != []
    ensures InputsOf(lines, p) == [] && CmdsOf(lines, p) == []
  {
    if lines != [] {
      var init := lines[..|lines| - 1];
      var ps := PathValues(init);
      assert forall i | 0 <= i < |ps| :: ps[i] == PathValues(lines)[i];
      UndeclaredHasNothing(init, p);
    }
  }

  lemma StepDescribes(lines: seq<string>, n: nat, s: GraphState)
    requires n < |lines| && Describes(lines[..n], s) && Step(s, n, lines[n]).Ok?
    ensures Describes(lines[..n + 1], Step(s, n, lines[n]).value)
  {
    var init := lines[..n];
    var all := lines[..n + 1];
    assert all[..n] == init && all[n] == lines[n];
    var c := Classify(lines[n]);
    var s' := Step(s, n, lines[n]).value;
    var ps := PathValues(init);
    if c.Entry? && c.keyword == "path" {
      PathStep(init, all, s, s', c.value);
    } else {
      assert PathValues(all) == ps + [];
      assert PathValues(all) == ps;
      if c.Entry? && (c.keyword == "dep" || c.keyword == "run") {
        SectionStep(init, all, s, s', c);
      } else {
        assert s' == s;
        forall p | p in s.nodes ensures InputsOf(all, p) == InputsOf(init, p) && CmdsOf(all, p) == CmdsOf(init, p) {
          SectionLast(init, all, p);
          assert InputsOf(all, p) == InputsOf(init, p) + [];
          assert CmdsOf(all, p) == CmdsOf(init, p) + [];
        }
      }
    }
  }

  lemma PathStep(init: seq<string>, all: seq<string>, s: GraphState, s': GraphState, v: string)
    requires |all| == |init| + 1 && all[..|init|] == init
    requires var c := Classify(all[|init|]); c.Entry? && c.keyword == "path" && c.value == v
    requires Describes(init, s) && v !in s.nodes
    requires s' == GraphState(s.nodes[v := PathNode(v, [], [])], v)
    ensures Describes(all, s')
  {
    var ps := PathValues(init);
    assert PathValues(all) == ps + [v];
    assert forall i | 0 <= i < |ps| :: ps[i] != v by {
      forall i | 0 <= i < |ps| ensures ps[i] != v {
        assert ps[i] in s.nodes.Keys;
      }
    }
    DistinctAppend(ps, v);
    UndeclaredHasNothing(init, v);
    ValuesAppend(ps, v);
    assert s'.nodes.Keys == s.nodes.Keys + {v};
    PathStepNodes(init, all, s, s', v);
  }

  lemma DistinctAppend(ps: seq<string>, v: string)
    requires Distinct(ps) && forall i | 0 <= i < |ps| :: ps[i] != v
    ensures Distinct(ps + [v])
  {
  }

  /** The set of values of a sequence with one more element. */
  lemma ValuesAppend(ps: seq<string>, v: string)
    ensures (set i | 0 <= i < |ps + [v]| :: (ps + [v])[i]) == (set i | 0 <= i < |ps| :: ps[i]) + {v}
  {
    var a := set i | 0 <= i < |ps + [v]| :: (ps + [v])[i];
    var b := set i | 0 <= i < |ps| :: ps[i];
    forall x | x in b ensures x in a {
      var i :| 0 <= i < |ps| && ps[i] == x;
      assert (ps + [v])[i] == x;
    }
    assert (ps + [v])[|ps|] == v;
  }

  lemma PathStepNodes(init: seq<string>, all: seq<string>, s: GraphState, s': GraphState, v: string)
    requires |all| == |init| + 1 && all[..|init|] == init
    requires var c := Classify(all[|init|]); c.Entry? && c.keyword == "path" && c.value == v
    requires forall p | p in s.nodes :: s.nodes[p] == PathNode(p, InputsOf(init, p), CmdsOf(init, p))
    requires InputsOf(init, v) == [] && CmdsOf(init, v) == []
    requires s'.nodes == s.nodes[v := PathNode(v, [], [])]
    ensures forall p | p in s'.nodes :: s'.nodes[p] == PathNode(p, InputsOf(all, p), CmdsOf(all, p))
  {
    forall p | p in s'.nodes ensures s'.nodes[p] == PathNode(p, InputsOf(all, p), CmdsOf(all, p)) {
      PathLineKeepsSections(init, all, p);
      if p != v {
        assert s'.nodes[p] == s.nodes[p];
      }
    }
  }

  lemma PathLineKeepsSections(init: seq<string>, all: seq<string>, p: string)
    requires |all| == |init| + 1 && all[..|init|] == init
    requires var c := Classify(all[|init|]); c.Entry? && c.keyword == "path"
    ensures InputsOf(all, p) == InputsOf(init, p) && CmdsOf(all, p) == CmdsOf(init, p)
  {
    SectionLast(init, all, p);
    assert InputsOf(all, p) == InputsOf(init, p) + [];
    assert CmdsOf(all, p) == CmdsOf(init, p) + [];
  }

  /** The section of p after one more line. */
  lemma SectionLast(init: seq<string>, all: seq<string>, p: string)
    requires |all| == |init| + 1 && all[..|init|] == init
    ensures var c := Classify(all[|init|]);
      && InputsOf(all, p) == InputsOf(init, p) + (if c.Entry? && c.keyword == "dep" && Active(init) == p then [c.value] else [])
      && CmdsOf(all, p) == CmdsOf(init, p) + (if c.Entry? && c.keyword == "run" && Active(init) == p then [c.raw] else [])
  {
  }

  lemma SectionStep(init: seq<string>, all: seq<string>, s: GraphState, s': GraphState, c: Line)
    requires |all| == |init| + 1 && all[..|init|] == init && c == Classify(all[|init|])
    requires c.Entry? && (c.keyword == "dep" || c.keyword == "run")
    requires PathValues(all) == PathValues(init)
    requires Describes(init, s) && s.active in s.nodes
    requires s' == s.(nodes := s.nodes[s.active := if c.keyword == "dep"
                                  then s.nodes[s.active].(inputs := s.nodes[s.active].inputs + [c.value])
                                  else s.nodes[s.active].(cmds := s.nodes[s.active].cmds + [c.raw])])
    ensures Describes(all, s')
  {
    assert s'.nodes.Keys == s.nodes.Keys;
    SameValuesSameActive(init, all);
    SectionStepNodes(init, all, s, s', c);
  }

  lemma SameValuesSameActive(a: seq<string>, b: seq<string>)
    requires PathValues(a) == PathValues(b)
    ensures Active(a) == Active(b)
  {
  }

  lemma SectionStepNodes(init: seq<string>, all: seq<string>, s: GraphState, s': GraphState, c: Line)
    requires |all| == |init| + 1 && all[..|init|] == init && c == Classify(all[|init|])
    requires c.Entry? && (c.keyword == "dep" || c.keyword == "run")
    requires forall p | p in s.nodes :: s.nodes[p] == PathNode(p, InputsOf(init, p), CmdsOf(init, p))
    requires s.active == Active(init) && s.active in s.nodes
    requires s' == s.(nodes := s.nodes[s.active := if c.keyword == "dep"
                                  then s.nodes[s.active].(inputs := s.nodes[s.active].inputs + [c.value])
                                  else s.nodes[s.active].(cmds := s.nodes[s.active].cmds + [c.raw])])
    ensures forall p | p in s'.nodes :: s'.nodes[p] == PathNode(p, InputsOf(all, p), CmdsOf(all, p))
  {
    forall p | p in s'.nodes ensures s'.nodes[p] == PathNode(p, InputsOf(all, p), CmdsOf(all, p)) {
      SectionNode(init, all, c, s.active, p, s.nodes[p], s'.nodes[p]);
    }
  }

  /** One node after a `dep` or `run` line: the active one grows by the
      line, the others stay as they were. */
  lemma SectionNode(init: seq<string>, all: seq<string>, c: Line, active: string, p: string,
                    n: PathNode, n': PathNode)
    requires |all| == |init| + 1 && all[..|init|] == init && c == Classify(all[|init|])
    requires c.Entry? && (c.keyword == "dep" || c.keyword == "run") && Active(init) == active
    requires n == PathNode(p, InputsOf(init, p), CmdsOf(init, p))
    requires n' == if p != active then n
                   else if c.keyword == "dep" then n.(inputs := n.inputs + [c.value])
                   else n.(cmds := n.cmds + [c.raw])
    ensures n' == PathNode(p, InputsOf(all, p), CmdsOf(all, p))
  {
    SectionLast(init, all, p);
    if p != active {
      assert InputsOf(all, p) == InputsOf(init, p) + [];
      assert CmdsOf(all, p) == CmdsOf(init, p) + [];
    } else if c.keyword == "dep" {
      assert CmdsOf(all, p) == CmdsOf(init, p) + [];
    } else {
      assert InputsOf(all, p) == InputsOf(init, p) + [];
    }
  }

  lemma {:induction false} StepsDescribe(lines: seq<string>, n: nat)
    requires n <= |lines| && Run(Step, Start, lines, n).Ok?
    ensures Describes(lines[..n], Run(Step, Start, lines, n).value)
  {
    if n == 0 {
      assert lines[..0] == [];
    } else {
      StepsDescribe(lines, n - 1);
      StepDescribes(lines, n - 1, Run(Step, Start, lines, n - 1).value);
    }
  }

  /** What `from_config` returns: one node per `path` line, keyed by its
      value, no path declared twice, and each node holding, in file order,
      the values of the `dep` lines and the raw text of the `run` lines of
      its section. */
  lemma FromConfigDescribed(config: string)
    requires FromConfigOf(config).Ok?
    ensures var lines := Lines(config); var nodes := FromConfigOf(config).value;
      && nodes.Keys == (set i | 0 <= i < |PathValues(lines)| :: PathValues(lines)[i])
      && Distinct(PathValues(lines))
      && forall p | p in nodes :: nodes[p] == PathNode(p, InputsOf(lines, p), CmdsOf(lines, p))
  {
    var lines := Lines(config);
    assert lines[..|lines|] == lines;
    StepsDescribe(lines, |lines|);
  }

  /** A `dep` or `run` line before any `path` line makes `from_config`
      panic, reporting that line, when the lines before it are accepted. */
  lemma SectionBeforePathFails(config: string, k: nat)
    requires k < |Lines(config)| && Run(Step, Start, Lines(config), k).Ok?
    requires PathValues(Lines(config)[..k]) == []
    requires var c := Classify(Lines(config)[k]); c.Entry? && (c.keyword == "dep" || c.keyword == "run")
    ensures FromConfigOf(config) == Err(if Classify(Lines(config)[k]).keyword == "dep"
                                        then DepBeforePath(k) else RunBeforePath(k))
  {
    var lines := Lines(config);
    StepsDescribe(lines, k);
    var s := Run(Step, Start, lines, k).value;
    assert s.nodes.Keys == {};
    RunErrSticky(Step, Start, lines, k + 1, |lines|, if Classify(lines[k]).keyword == "dep" then DepBeforePath(k) else RunBeforePath(k));
  }

  /** A path declared a second time makes `from_config` panic at that line,
      when the lines before it are accepted. */
  lemma DuplicatePathFails(config: string, k: nat)
    requires k < |Lines(config)| && Run(Step, Start, Lines(config), k).Ok?
    requires var c := Classify(Lines(config)[k]);
      c.Entry? && c.keyword == "path" && c.value in PathValues(Lines(config)[..k])
    ensures FromConfigOf(config) == Err(DuplicatePath(k, Classify(Lines(config)[k]).value))
  {
    var lines := Lines(config);
    StepsDescribe(lines, k);
    var ps := PathValues(lines[..k]);
    var v := Classify(lines[k]).value;
    var i :| 0 <= i < |ps| && ps[i] == v;
    assert v in Run(Step, Start, lines, k).value.nodes.Keys;
    RunErrSticky(Step, Start, lines, k + 1, |lines|, DuplicatePath(k, v));
  }

  /** A keyword with only whitespace after its length makes `from_config`
      panic at that line, when the lines before it are accepted. */
  lemma MissingValueFails(config: string, k: nat)
    requires k < |Lines(config)| && Run(Step, Start, Lines(config), k).Ok?
    requires !AllWhitespace(Lines(config)[k])
    requires AllWhitespace(Lines(config)[k][|FirstWord(Lines(config)[k]).value|..])
    ensures FromConfigOf(config) == Err(MissingValue(k, FirstWord(Lines(config)[k]).value))
  {
    var lines := Lines(config);
    var c := Classify(lines[k]);
    assert c.NoValue?;
    RunFailsAt(Step, Start, lines, k, MissingValue(k, c.keyword));
  }

  /** A keyword other than `path`, `dep` and `run`, with a value, makes
      `from_config` panic at that line, when the lines before it are
      accepted. */
  lemma UnknownKeywordFails(config: string, k: nat)
    requires k < |Lines(config)| && Run(Step, Start, Lines(config), k).Ok?
    requires var c := Classify(Lines(config)[k]); c.Entry? && c.keyword !in {"path", "dep", "run"}
    ensures FromConfigOf(config) == Err(UnknownKeyword(k, FirstWord(Lines(config)[k]).value))
  {
    var lines := Lines(config);
    RunFailsAt(Step, Start, lines, k, UnknownKeyword(k, Classify(lines[k]).keyword));
  }
}

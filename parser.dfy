/** The recursive-descent parser of src/parser.rs. It reads the token stream
    of a config (`Lexer::Tokens`) node by node: `path <ident>`, then any
    number of `deps <num>...` and `run <exec> <arg>...` clauses, up to the
    next `path` or the end of the stream. Each node is appended to the graph
    and its path mapped to its index.

    The hasher is a parameter: `hash` maps the executable followed by the
    arguments, in order, to the command's hash, as feeding them one after
    the other into a `DefaultHasher` does. */
module Parser {
  import opened Wrappers
  import opened Wire
  import opened Token
  import opened Targets
  import Lexer

  /** The panics of `parse_node`. */
  datatype ParseError =
    | ExpectedPathKeyword
    | ExpectedPath(found: Option<Token>)
    | ExpectedExecutable(found: Option<Token>)
    | UnexpectedToken(token: Token)

  function Head(ts: seq<Token>): Option<Token> {
    if ts == [] then None else Some(ts[0])
  }

  /** rest is what is left of ts after some tokens were taken from its front. */
  predicate Suffix(rest: seq<Token>, ts: seq<Token>) {
    |rest| <= |ts| && rest == ts[|ts| - |rest|..]
  }

  /** The run of `Ident` tokens ts starts with, as texts, and what follows. */
  function SplitIdents(ts: seq<Token>): (r: (seq<string>, seq<Token>))
    ensures Suffix(r.1, ts) && |r.0| + |r.1| == |ts|
    ensures forall i | 0 <= i < |r.0| :: ts[i] == Ident(r.0[i])
    ensures r.1 == [] || !r.1[0].Ident?
  {
    if ts != [] && ts[0].Ident? then
      var (args, rest) := SplitIdents(ts[1..]);
      assert forall i | 1 <= i < 1 + |args| :: ts[i] == ts[1..][i - 1];
      ([ts[0].text] + args, rest)
    else ([], ts)
  }

  /** The run of `Num` tokens ts starts with, as values, and what follows. */
  function SplitNums(ts: seq<Token>): (r: (seq<nat>, seq<Token>))
    ensures Suffix(r.1, ts) && |r.0| + |r.1| == |ts|
    ensures forall i | 0 <= i < |r.0| :: ts[i] == Num(r.0[i])
    ensures r.1 == [] || !r.1[0].Num?
  {
    if ts != [] && ts[0].Num? then
      var (nums, rest) := SplitNums(ts[1..]);
      assert forall i | 1 <= i < 1 + |nums| :: ts[i] == ts[1..][i - 1];
      ([ts[0].value] + nums, rest)
    else ([], ts)
  }

  /** What follows a `run` keyword: the executable, then every following
      identifier as an argument. The command starts without a cached hash. */
  function ParseCommand(ts: seq<Token>, hash: seq<string> -> u64): (r: Result<(HashCommand, seq<Token>), ParseError>)
    ensures r.Ok? ==> Suffix(r.value.1, ts) && |r.value.1| < |ts|
    ensures r.Ok? ==> ts[0] == Ident(r.value.0.cmd.exec)
    ensures r.Ok? ==> forall i | 0 <= i < |ts| - |r.value.1| :: ts[i].Ident?
    ensures r.Ok? ==> r.value.0.hash == hash([r.value.0.cmd.exec] + r.value.0.cmd.args)
    ensures r.Ok? ==> r.value.0.cachedHash == None
    ensures r.Ok? ==> |r.value.0.cmd.args| == |ts| - |r.value.1| - 1
    ensures r.Ok? ==> forall i | 0 <= i < |r.value.0.cmd.args| :: ts[i + 1] == Ident(r.value.0.cmd.args[i])
    ensures r.Ok? ==> r.value.1 == [] || !r.value.1[0].Ident?
    ensures r.Err? <==> ts == [] || !ts[0].Ident?
  {
    if ts == [] || !ts[0].Ident? then Err(ExpectedExecutable(Head(ts)))
    else
      var exec := ts[0].text;
      var (args, rest) := SplitIdents(ts[1..]);
      assert forall i | 1 <= i < |ts| - |rest| :: ts[i] == ts[1..][i - 1];
      assert forall i | 0 <= i < |args| :: ts[i + 1] == ts[1..][i];
      Ok((HashCommand(Command(exec, args), hash([exec] + args), None), rest))
  }

  /** The body of a node: its clauses up to the next `Path` or the end of
      the stream, appended to `deps` and `cmds`; the `Path` is not taken. */
  function Body(ts: seq<Token>, hash: seq<string> -> u64, deps: seq<nat>, cmds: seq<HashCommand>)
    : (r: Result<(seq<nat>, seq<HashCommand>, seq<Token>), ParseError>)
    ensures r.Ok? ==> Suffix(r.value.2, ts)
    ensures r.Ok? ==> r.value.2 == [] || r.value.2[0] == Path
    ensures r.Ok? ==> forall i | 0 <= i < |ts| - |r.value.2| :: ts[i] != Path
    ensures ts != [] && ts[0] != Path && ts[0] != Run && ts[0] != Deps ==> r == Err(UnexpectedToken(ts[0]))
    ensures ts != [] && ts[0] == Run && (|ts| == 1 || !ts[1].Ident?) ==> r == Err(ExpectedExecutable(Head(ts[1..])))
    decreases |ts|
  {
    if ts == [] then Ok((deps, cmds, ts))
    else
      var t := ts[0];
      if t == Path then Ok((deps, cmds, ts))
      else match t
      case Run =>
        (match ParseCommand(ts[1..], hash)
         case Err(e) => Err(e)
         case Ok((cmd, rest)) =>
           var r := Body(rest, hash, deps, cmds + [cmd]);
           if r.Ok? then
             SuffixTrans(r.value.2, rest, ts);
             NoPathPrefix(ts, rest, r.value.2);
             r
           else r)
      case Deps =>
        var (nums, rest) := SplitNums(ts[1..]);
        var r := Body(rest, hash, deps + nums, cmds);
        if r.Ok? then
          SuffixTrans(r.value.2, rest, ts);
          NoPathPrefixNums(ts, nums, rest, r.value.2);
          r
        else r
      case t => Err(UnexpectedToken(t))
  }

  lemma SuffixTrans(a: seq<Token>, b: seq<Token>, c: seq<Token>)
    requires c != [] && Suffix(b, c[1..]) && Suffix(a, b)
    ensures Suffix(a, c)
  {
  }

  /** A `Run` clause holds no `Path`: its tokens are identifiers. */
  lemma NoPathPrefix(ts: seq<Token>, rest: seq<Token>, end: seq<Token>)
    requires ts != [] && ts[0] == Run && Suffix(rest, ts[1..]) && Suffix(end, rest)
    requires forall i | 0 <= i < |ts[1..]| - |rest| :: ts[1..][i].Ident?
    requires forall i | 0 <= i < |rest| - |end| :: rest[i] != Path
    ensures forall i | 0 <= i < |ts| - |end| :: ts[i] != Path
  {
    forall i | 0 <= i < |ts| - |end| ensures ts[i] != Path {
      if i >= |ts| - |rest| {
        assert ts[i] == rest[i - (|ts| - |rest|)];
      } else if i > 0 {
        assert ts[i] == ts[1..][i - 1];
      }
    }
  }

  lemma NoPathPrefixNums(ts: seq<Token>, nums: seq<nat>, rest: seq<Token>, end: seq<Token>)
    requires ts != [] && ts[0] == Deps && Suffix(rest, ts[1..]) && Suffix(end, rest)
    requires |nums| + |rest| == |ts| - 1
    requires forall i | 0 <= i < |nums| :: ts[1..][i] == Num(nums[i])
    requires forall i | 0 <= i < |rest| - |end| :: rest[i] != Path
    ensures forall i | 0 <= i < |ts| - |end| :: ts[i] != Path
  {
    forall i | 0 <= i < |ts| - |end| ensures ts[i] != Path {
      if i >= |ts| - |rest| {
        assert ts[i] == rest[i - (|ts| - |rest|)];
      } else if i > 0 {
        assert ts[i] == ts[1..][i - 1];
      }
    }
  }

  /** `parse_node` as a function of the token stream: the node and the
      tokens after it. */
  function ParseNodeOf(ts: seq<Token>, hash: seq<string> -> u64): (r: Result<(Node, seq<Token>), ParseError>)
    ensures r.Ok? ==> |ts| >= 2 && ts[0] == Path && ts[1] == Ident(r.value.0.target.path)
    ensures r.Ok? ==> Suffix(r.value.1, ts) && |r.value.1| <= |ts| - 2
    ensures r.Ok? ==> r.value.1 == [] || r.value.1[0] == Path
    ensures r.Ok? ==> forall i | 1 <= i < |ts| - |r.value.1| :: ts[i] != Path
    ensures ts == [] || ts[0] != Path ==> r == Err(ExpectedPathKeyword)
  {
    if ts == [] || ts[0] != Path then Err(ExpectedPathKeyword)
    else if |ts| < 2 || !ts[1].Ident? then Err(ExpectedPath(Head(ts[1..])))
    else
      match Body(ts[2..], hash, [], [])
      case Err(e) => Err(e)
      case Ok((deps, cmds, rest)) =>
        NodeEnd(ts, rest);
        Ok((Node(Target(ts[1].text, cmds), deps), rest))
  }

  /** What a node's body leaves is what the node leaves: the body holds no `Path`. */
  lemma NodeEnd(ts: seq<Token>, rest: seq<Token>)
    requires |ts| >= 2 && Suffix(rest, ts[2..])
    requires forall i | 0 <= i < |ts[2..]| - |rest| :: ts[2..][i] != Path
    ensures Suffix(rest, ts) && |rest| <= |ts| - 2
    ensures forall i | 2 <= i < |ts| - |rest| :: ts[i] != Path
  {
    assert forall i | 2 <= i < |ts| - |rest| :: ts[i] == ts[2..][i - 2];
  }

  /** A token other than `path`, `run` or `deps` (a number included) right after a
      node's path makes the node fail with that token. */
  lemma StrayTokenFails(p: string, t: Token, rest: seq<Token>, hash: seq<string> -> u64)
    requires t != Path && t != Run && t != Deps
    ensures ParseNodeOf([Path, Ident(p), t] + rest, hash) == Err(UnexpectedToken(t))
  {
    var ts := [Path, Ident(p), t] + rest;
    assert ts[2..] == [t] + rest;
  }

  /** After a `deps` clause's numbers, a token other than `path`, `run` and
      `deps` makes the node fail with that token. */
  lemma StrayTokenAfterDepsFails(p: string, nums: seq<nat>, t: Token, rest: seq<Token>, hash: seq<string> -> u64)
    requires t != Path && t != Run && t != Deps && !t.Num?
    ensures ParseNodeOf([Path, Ident(p)] + ([Deps] + (NumTokens(nums) + ([t] + rest))), hash) == Err(UnexpectedToken(t))
  {
    BodyStray(nums, t, rest, hash);
    NodeOfBody(p, [Deps] + (NumTokens(nums) + ([t] + rest)), hash);
  }

  lemma BodyStray(nums: seq<nat>, t: Token, rest: seq<Token>, hash: seq<string> -> u64)
    requires t != Path && t != Run && t != Deps && !t.Num?
    ensures Body([Deps] + (NumTokens(nums) + ([t] + rest)), hash, [], []) == Err(UnexpectedToken(t))
  {
    BodyOfNums(nums, [t] + rest, hash);
    StrayHead(t, rest, hash, nums);
  }

  lemma StrayHead(t: Token, rest: seq<Token>, hash: seq<string> -> u64, deps: seq<nat>)
    requires t != Path && t != Run && t != Deps
    ensures Body([t] + rest, hash, deps, []) == Err(UnexpectedToken(t))
  {
    assert ([t] + rest)[0] == t;
  }

  /** A node's result is its body's, once the path is read. */
  lemma NodeOfBody(p: string, body: seq<Token>, hash: seq<string> -> u64)
    ensures Body(body, hash, [], []).Err? ==>
      ParseNodeOf([Path, Ident(p)] + body, hash) == Err(Body(body, hash, [], []).error)
  {
    assert ([Path, Ident(p)] + body)[2..] == body;
  }

  /** A `run` keyword inside a node without an executable after it makes
      the node fail with what came instead. */
  lemma RunWithoutExecutableFails(p: string, rest: seq<Token>, hash: seq<string> -> u64)
    requires rest == [] || !rest[0].Ident?
    ensures ParseNodeOf([Path, Ident(p), Run] + rest, hash) == Err(ExpectedExecutable(Head(rest)))
  {
    var ts := [Path, Ident(p), Run] + rest;
    assert ts[2..] == [Run] + rest;
    assert ts[2..][1..] == rest;
  }

  /** `parse`: one node after the other until the stream is empty; each
      node takes the next index and its path is mapped to it. */
  function ParseAll(ts: seq<Token>, hash: seq<string> -> u64, g: seq<Node>, m: map<string, nat>)
    : (r: Result<(seq<Node>, map<string, nat>), ParseError>)
    ensures r.Ok? ==> |r.value.0| >= |g| && r.value.0[..|g|] == g
    decreases |ts|
  {
    if ts == [] then Ok((g, m))
    else
      match ParseNodeOf(ts, hash)
      case Err(e) => Err(e)
      case Ok((n, rest)) =>
        var r := ParseAll(rest, hash, g + [n], m[n.target.path := |g|]);
        assert r.Ok? ==> r.value.0[..|g|] == (g + [n])[..|g|];
        r
  }

  lemma SplitIdentsStep(ts: seq<Token>, acc: seq<string>)
    requires ts != [] && ts[0].Ident?
    ensures acc + SplitIdents(ts).0 == (acc + [ts[0].text]) + SplitIdents(ts[1..]).0
    ensures SplitIdents(ts).1 == SplitIdents(ts[1..]).1
  {
  }

  lemma SplitNumsStep(ts: seq<Token>, acc: seq<nat>)
    requires ts != [] && ts[0].Num?
    ensures acc + SplitNums(ts).0 == (acc + [ts[0].value]) + SplitNums(ts[1..]).0
    ensures SplitNums(ts).1 == SplitNums(ts[1..]).1
  {
  }

  class Parser {
    /** The tokens not consumed yet. */
    var tokens: seq<Token>
    var graph: seq<Node>
    var nodeMap: map<string, nat>

    constructor (config: string)
      ensures tokens == Lexer.Tokens(config) && graph == [] && nodeMap == map[]
    {
      tokens := Lexer.Tokens(config);
      graph := [];
      nodeMap := map[];
    }

    /** The loop that pulls in the identifiers after an executable. */
    method TakeArgs() returns (args: seq<string>)
      modifies this
      ensures (args, tokens) == SplitIdents(old(tokens))
      ensures graph == old(graph) && nodeMap == old(nodeMap)
    {
      args := [];
      assert args + SplitIdents(tokens).0 == SplitIdents(tokens).0;
      while tokens != [] && tokens[0].Ident?
        invariant SplitIdents(old(tokens)).0 == args + SplitIdents(tokens).0
        invariant SplitIdents(old(tokens)).1 == SplitIdents(tokens).1
        invariant graph == old(graph) && nodeMap == old(nodeMap)
        decreases |tokens|
      {
        SplitIdentsStep(tokens, args);
        args := args + [tokens[0].text];
        tokens := tokens[1..];
      }
      assert args + [] == args;
    }

    /** The loop that pulls in the numbers after `deps`. */
    method TakeNums() returns (nums: seq<nat>)
      modifies this
      ensures (nums, tokens) == SplitNums(old(tokens))
      ensures graph == old(graph) && nodeMap == old(nodeMap)
    {
      nums := [];
      assert nums + SplitNums(tokens).0 == SplitNums(tokens).0;
      while tokens != [] && tokens[0].Num?
        invariant SplitNums(old(tokens)).0 == nums + SplitNums(tokens).0
        invariant SplitNums(old(tokens)).1 == SplitNums(tokens).1
        invariant graph == old(graph) && nodeMap == old(nodeMap)
        decreases |tokens|
      {
        SplitNumsStep(tokens, nums);
        nums := nums + [tokens[0].value];
        tokens := tokens[1..];
      }
      assert nums + [] == nums;
    }

    /** `parse_node`: take one node from the stream, append it to the graph
        and map its path to its index. */
    method ParseNode(hash: seq<string> -> u64) returns (r: Result<(), ParseError>)
      modifies this
      ensures match ParseNodeOf(old(tokens), hash)
              case Err(e) => r == Err(e)
              case Ok((n, rest)) =>
                && r.Ok? && tokens == rest
                && graph == old(graph) + [n]
                && nodeMap == old(nodeMap)[n.target.path := |old(graph)|]
    {
      ghost var ts := tokens;
      if tokens == [] || tokens[0] != Path {
        return Err(ExpectedPathKeyword);
      }
      tokens := tokens[1..];
      if tokens == [] || !tokens[0].Ident? {
        return Err(ExpectedPath(Head(tokens)));
      }
      var path := tokens[0].text;
      tokens := tokens[1..];
      var deps: seq<nat> := [];
      var cmds: seq<HashCommand> := [];
      while true
        invariant Body(ts[2..], hash, [], []) == Body(tokens, hash, deps, cmds)
        invariant graph == old(graph) && nodeMap == old(nodeMap)
        decreases |tokens|
      {
        if tokens == [] || tokens[0] == Path {
          break;
        }
        var t := tokens[0];
        tokens := tokens[1..];
        match t {
          case Run =>
            if tokens == [] || !tokens[0].Ident? {
              return Err(ExpectedExecutable(Head(tokens)));
            }
            var exec := tokens[0].text;
            tokens := tokens[1..];
            var args := TakeArgs();
            cmds := cmds + [HashCommand(Command(exec, args), hash([exec] + args), None)];
          case Deps =>
            var nums := TakeNums();
            deps := deps + nums;
          case _ =>
            return Err(UnexpectedToken(t));
        }
      }
      var id := |graph|;
      graph := graph + [Node(Target(path, cmds), deps)];
      nodeMap := nodeMap[path := id];
      r := Ok(());
    }

    /** `parse`: nodes until the stream is empty. */
    method Parse(hash: seq<string> -> u64) returns (r: Result<(), ParseError>)
      modifies this
      ensures match ParseAll(old(tokens), hash, old(graph), old(nodeMap))
              case Err(e) => r == Err(e)
              case Ok((g, m)) => r.Ok? && tokens == [] && graph == g && nodeMap == m
    {
      while tokens != []
        invariant ParseAll(old(tokens), hash, old(graph), old(nodeMap)) == ParseAll(tokens, hash, graph, nodeMap)
        decreases |tokens|
      {
        r := ParseNode(hash);
        if r.Err? {
          return;
        }
      }
      r := Ok(());
    }
  }

  // ----------------------------------------------------------- properties

  /** The paths declared in a token stream: the identifier after each
      `Path` token, in order. */
  function Declared(ts: seq<Token>): seq<string> {
    if ts == [] then []
    else (if ts[0] == Path && |ts| >= 2 && ts[1].Ident? then [ts[1].text] else []) + Declared(ts[1..])
  }

  /** Tokens before the first `Path` declare nothing. */
  lemma {:induction false} DeclaredSkip(ts: seq<Token>, k: nat)
    requires k <= |ts| && forall i | 0 <= i < k :: ts[i] != Path
    ensures Declared(ts) == Declared(ts[k..])
  {
    if k > 0 {
      assert forall i | 0 <= i < k - 1 :: ts[1..][i] == ts[i + 1];
      DeclaredSkip(ts[1..], k - 1);
      assert ts[1..][k - 1..] == ts[k..];
    }
  }

  /** The declared paths of a parsed node: its own, then those after it. */
  lemma DeclaredOfNode(ts: seq<Token>, hash: seq<string> -> u64)
    requires ParseNodeOf(ts, hash).Ok?
    ensures Declared(ts) == [ParseNodeOf(ts, hash).value.0.target.path] + Declared(ParseNodeOf(ts, hash).value.1)
  {
    var (n, rest) := ParseNodeOf(ts, hash).value;
    var k := |ts| - |rest|;
    assert Declared(ts) == [n.target.path] + Declared(ts[1..]);
    assert forall i | 0 <= i < k - 1 :: ts[1..][i] == ts[i + 1];
    DeclaredSkip(ts[1..], k - 1);
    assert ts[1..][k - 1..] == rest;
  }

  /** The node map sends each path to a node with that path, and every
      node's path is mapped. */
  predicate MapConsistent(g: seq<Node>, m: map<string, nat>) {
    && (forall p | p in m :: m[p] < |g| && g[m[p]].target.path == p)
    && (forall i | 0 <= i < |g| :: g[i].target.path in m)
  }

  lemma AddKeepsConsistent(g: seq<Node>, m: map<string, nat>, n: Node)
    requires MapConsistent(g, m)
    ensures MapConsistent(g + [n], m[n.target.path := |g|])
  {
    var g' := g + [n];
    forall p | p in m && p != n.target.path ensures g'[m[p]] == g[m[p]] { }
    forall i | 0 <= i < |g| ensures g'[i] == g[i] { }
  }

  lemma ParseAllStep(ts: seq<Token>, hash: seq<string> -> u64, g: seq<Node>, m: map<string, nat>)
    requires ts != [] && ParseNodeOf(ts, hash).Ok?
    ensures var (n, rest) := ParseNodeOf(ts, hash).value;
      ParseAll(ts, hash, g, m) == ParseAll(rest, hash, g + [n], m[n.target.path := |g|])
  {
  }

  /** `parse` keeps the node map consistent with the graph (a repeated path
      maps to its last node). */
  lemma {:induction false} ParseAllConsistent(ts: seq<Token>, hash: seq<string> -> u64,
                                              g: seq<Node>, m: map<string, nat>)
    requires MapConsistent(g, m)
    requires ParseAll(ts, hash, g, m).Ok?
    ensures MapConsistent(ParseAll(ts, hash, g, m).value.0, ParseAll(ts, hash, g, m).value.1)
    decreases |ts|
  {
    if ts != [] {
      var (n, rest) := ParseNodeOf(ts, hash).value;
      ParseAllStep(ts, hash, g, m);
      AddKeepsConsistent(g, m, n);
      ParseAllConsistent(rest, hash, g + [n], m[n.target.path := |g|]);
    }
  }

  /** From index k on, gs holds one node per path of ps, in that order. */
  predicate NodesFor(gs: seq<Node>, k: nat, ps: seq<string>) {
    |gs| == k + |ps| && forall i | 0 <= i < |ps| :: gs[k + i].target.path == ps[i]
  }

  /** `parse` appends one node per `Path` token of the stream, in the order
      of the declared paths. */
  lemma {:induction false} ParseAllNodes(ts: seq<Token>, hash: seq<string> -> u64,
                                         g: seq<Node>, m: map<string, nat>)
    requires ParseAll(ts, hash, g, m).Ok?
    ensures NodesFor(ParseAll(ts, hash, g, m).value.0, |g|, Declared(ts))
    decreases |ts|
  {
    if ts != [] {
      var (n, rest) := ParseNodeOf(ts, hash).value;
      var g2, m2 := g + [n], m[n.target.path := |g|];
      ParseAllStep(ts, hash, g, m);
      DeclaredOfNode(ts, hash);
      ParseAllNodes(rest, hash, g2, m2);
      var g' := ParseAll(rest, hash, g2, m2).value.0;
      assert g'[..|g2|] == g2;
      assert g'[|g|] == g2[|g|];
      NodesForCons(g', |g|, n.target.path, Declared(rest));
    }
  }

  lemma NodesForCons(gs: seq<Node>, k: nat, p: string, ps: seq<string>)
    requires k < |gs| && gs[k].target.path == p && NodesFor(gs, k + 1, ps)
    ensures NodesFor(gs, k, [p] + ps)
  {
    var d := [p] + ps;
    forall i | 1 <= i < |d| ensures gs[k + i].target.path == d[i] {
      assert d[i] == ps[i - 1];
      assert gs[k + i] == gs[(k + 1) + (i - 1)];
    }
  }

  // ------------------------------------------------------------ round trip

  /** The tokens of a command clause. */
  function RunTokens(c: Command): seq<Token> {
    [Run, Ident(c.exec)] + IdentTokens(c.args)
  }

  function IdentTokens(args: seq<string>): (ts: seq<Token>)
    ensures |ts| == |args| && forall i | 0 <= i < |args| :: ts[i] == Ident(args[i])
  {
    seq(|args|, i requires 0 <= i < |args| => Ident(args[i]))
  }

  function NumTokens(deps: seq<nat>): (ts: seq<Token>)
    ensures |ts| == |deps| && forall i | 0 <= i < |deps| :: ts[i] == Num(deps[i])
  {
    seq(|deps|, i requires 0 <= i < |deps| => Num(deps[i]))
  }

  function CmdsTokens(cmds: seq<HashCommand>): seq<Token> {
    if cmds == [] then [] else RunTokens(cmds[0].cmd) + CmdsTokens(cmds[1..])
  }

  /** The tokens of a node: `path <path>`, a `deps` clause when it has
      inputs, then one `run` clause per command. */
  function Render(n: Node): seq<Token> {
    [Path, Ident(n.target.path)] + Clauses(n.deps, n.target.cmds)
  }

  /** The commands' hashes are what the parser computes and nothing is
      cached yet. */
  predicate Fresh(cmds: seq<HashCommand>, hash: seq<string> -> u64) {
    forall i | 0 <= i < |cmds| ::
      cmds[i].hash == hash([cmds[i].cmd.exec] + cmds[i].cmd.args) && cmds[i].cachedHash == None
  }

  /** The stream ends, or the next node starts. */
  predicate Boundary(rest: seq<Token>) {
    rest == [] || rest[0] == Path
  }

  lemma {:induction false} SplitIdentsOf(args: seq<string>, rest: seq<Token>)
    requires rest == [] || !rest[0].Ident?
    ensures SplitIdents(IdentTokens(args) + rest) == (args, rest)
  {
    if args == [] {
      assert IdentTokens(args) + rest == rest;
    } else {
      var ts := IdentTokens(args) + rest;
      assert ts[1..] == IdentTokens(args[1..]) + rest;
      SplitIdentsOf(args[1..], rest);
      assert [args[0]] + args[1..] == args;
    }
  }

  lemma {:induction false} SplitNumsOf(deps: seq<nat>, rest: seq<Token>)
    requires rest == [] || !rest[0].Num?
    ensures SplitNums(NumTokens(deps) + rest) == (deps, rest)
  {
    if deps == [] {
      assert NumTokens(deps) + rest == rest;
    } else {
      var ts := NumTokens(deps) + rest;
      assert ts[1..] == NumTokens(deps[1..]) + rest;
      SplitNumsOf(deps[1..], rest);
      assert [deps[0]] + deps[1..] == deps;
    }
  }

  lemma BodyRun(ts: seq<Token>, hash: seq<string> -> u64, deps: seq<nat>, cmds: seq<HashCommand>)
    requires ts != [] && ts[0] == Run && ParseCommand(ts[1..], hash).Ok?
    ensures var (cmd, rest) := ParseCommand(ts[1..], hash).value;
      Body(ts, hash, deps, cmds) == Body(rest, hash, deps, cmds + [cmd])
  {
  }

  lemma BodyDeps(ts: seq<Token>, hash: seq<string> -> u64, deps: seq<nat>, cmds: seq<HashCommand>)
    requires ts != [] && ts[0] == Deps
    ensures var (nums, rest) := SplitNums(ts[1..]);
      Body(ts, hash, deps, cmds) == Body(rest, hash, deps + nums, cmds)
  {
  }

  lemma ParseCommandOf(c: HashCommand, hash: seq<string> -> u64, tail: seq<Token>)
    requires Fresh([c], hash) && (tail == [] || !tail[0].Ident?)
    ensures ParseCommand([Ident(c.cmd.exec)] + (IdentTokens(c.cmd.args) + tail), hash) == Ok((c, tail))
  {
    var ts := [Ident(c.cmd.exec)] + (IdentTokens(c.cmd.args) + tail);
    assert ts[1..] == IdentTokens(c.cmd.args) + tail;
    SplitIdentsOf(c.cmd.args, tail);
    assert [c][0] == c;
  }

  lemma ConsAppend<T>(acc: seq<T>, xs: seq<T>)
    requires xs != []
    ensures acc + [xs[0]] + xs[1..] == acc + xs
  {
    assert [xs[0]] + xs[1..] == xs;
  }

  /** The tokens of a non-empty command list start with its first clause. */
  lemma CmdsTokensCons(cmds: seq<HashCommand>, rest: seq<Token>)
    requires cmds != []
    ensures var c := cmds[0].cmd;
      CmdsTokens(cmds) + rest == [Run] + ([Ident(c.exec)] + (IdentTokens(c.args) + (CmdsTokens(cmds[1..]) + rest)))
  {
  }

  lemma CmdsTokensHead(cmds: seq<HashCommand>, rest: seq<Token>)
    requires Boundary(rest)
    ensures var ts := CmdsTokens(cmds) + rest; ts == [] || ts[0] == Run || ts[0] == Path
  {
    if cmds == [] {
      assert CmdsTokens(cmds) + rest == rest;
    }
  }

  lemma FreshSplit(cmds: seq<HashCommand>, hash: seq<string> -> u64)
    requires cmds != [] && Fresh(cmds, hash)
    ensures Fresh([cmds[0]], hash) && Fresh(cmds[1..], hash)
  {
    assert [cmds[0]][0] == cmds[0];
    forall i | 0 <= i < |cmds| - 1 ensures cmds[1..][i] == cmds[i + 1] { }
  }

  lemma {:induction false} BodyOfCmds(cmds: seq<HashCommand>, hash: seq<string> -> u64,
                                      deps: seq<nat>, acc: seq<HashCommand>, rest: seq<Token>)
    requires Fresh(cmds, hash) && Boundary(rest)
    ensures Body(CmdsTokens(cmds) + rest, hash, deps, acc) == Ok((deps, acc + cmds, rest))
    decreases |cmds|
  {
    if cmds == [] {
      assert CmdsTokens(cmds) + rest == rest;
      assert acc + cmds == acc;
    } else {
      var c := cmds[0];
      var tail := CmdsTokens(cmds[1..]) + rest;
      var ts := CmdsTokens(cmds) + rest;
      CmdsTokensCons(cmds, rest);
      CmdsTokensHead(cmds[1..], rest);
      FreshSplit(cmds, hash);
      ParseCommandOf(c, hash, tail);
      BodyRun(ts, hash, deps, acc);
      BodyOfCmds(cmds[1..], hash, deps, acc + [c], rest);
      ConsAppend(acc, cmds);
    }
  }

  lemma ParseNodeOfBody(ts: seq<Token>, hash: seq<string> -> u64)
    requires |ts| >= 2 && ts[0] == Path && ts[1].Ident? && Body(ts[2..], hash, [], []).Ok?
    ensures var (deps, cmds, rest) := Body(ts[2..], hash, [], []).value;
      ParseNodeOf(ts, hash) == Ok((Node(Target(ts[1].text, cmds), deps), rest))
  {
  }

  /** The clauses of a node, with or without a `deps` clause. */
  function Clauses(deps: seq<nat>, cmds: seq<HashCommand>): seq<Token> {
    (if deps == [] then [] else [Deps] + NumTokens(deps)) + CmdsTokens(cmds)
  }

  lemma BodyOfClauses(deps: seq<nat>, cmds: seq<HashCommand>, hash: seq<string> -> u64, rest: seq<Token>)
    requires Fresh(cmds, hash) && Boundary(rest)
    ensures Body(Clauses(deps, cmds) + rest, hash, [], []) == Ok((deps, cmds, rest))
  {
    if deps == [] {
      assert Clauses(deps, cmds) == CmdsTokens(cmds);
    } else {
      BodyOfDepsClause(deps, cmds, hash, rest);
    }
    BodyOfCmdsFresh(cmds, hash, deps, rest);
  }

  lemma BodyOfCmdsFresh(cmds: seq<HashCommand>, hash: seq<string> -> u64, deps: seq<nat>, rest: seq<Token>)
    requires Fresh(cmds, hash) && Boundary(rest)
    ensures Body(CmdsTokens(cmds) + rest, hash, deps, []) == Ok((deps, cmds, rest))
  {
    BodyOfCmds(cmds, hash, deps, [], rest);
    assert [] + cmds == cmds;
  }

  lemma BodyOfDepsClause(deps: seq<nat>, cmds: seq<HashCommand>, hash: seq<string> -> u64, rest: seq<Token>)
    requires deps != [] && Boundary(rest)
    ensures var cmdsTail := CmdsTokens(cmds) + rest;
      Body(Clauses(deps, cmds) + rest, hash, [], []) == Body(cmdsTail, hash, deps, [])
  {
    var cmdsTail := CmdsTokens(cmds) + rest;
    assert Clauses(deps, cmds) + rest == [Deps] + (NumTokens(deps) + cmdsTail);
    CmdsTokensHead(cmds, rest);
    BodyOfNums(deps, cmdsTail, hash);
  }

  lemma BodyOfNums(deps: seq<nat>, tail: seq<Token>, hash: seq<string> -> u64)
    requires tail == [] || !tail[0].Num?
    ensures Body([Deps] + (NumTokens(deps) + tail), hash, [], []) == Body(tail, hash, deps, [])
  {
    var ts := [Deps] + (NumTokens(deps) + tail);
    assert ts[1..] == NumTokens(deps) + tail;
    SplitNumsOf(deps, tail);
    BodyDeps(ts, hash, [], []);
    assert [] + deps == deps;
  }

  /** Parsing the tokens of a node, followed by the end of the stream or
      the next node, gives the node back and leaves what follows. */
  lemma ParseNodeOfRender(n: Node, hash: seq<string> -> u64, rest: seq<Token>)
    requires Fresh(n.target.cmds, hash) && Boundary(rest)
    ensures ParseNodeOf(Render(n) + rest, hash) == Ok((n, rest))
  {
    var ts := Render(n) + rest;
    assert ts == [Path, Ident(n.target.path)] + (Clauses(n.deps, n.target.cmds) + rest);
    assert ts[2..] == Clauses(n.deps, n.target.cmds) + rest;
    BodyOfClauses(n.deps, n.target.cmds, hash, rest);
    ParseNodeOfBody(ts, hash);
  }

  /** The tokens of a whole graph: its nodes one after the other. */
  function RenderGraph(gs: seq<Node>): seq<Token> {
    if gs == [] then [] else Render(gs[0]) + RenderGraph(gs[1..])
  }

  predicate AllFresh(gs: seq<Node>, hash: seq<string> -> u64) {
    forall i | 0 <= i < |gs| :: Fresh(gs[i].target.cmds, hash)
  }

  /** Parsing the tokens of a graph whose commands carry the parser's own
      hashes gives back the same nodes, in the same order. */
  lemma {:induction false} ParseAllRender(gs: seq<Node>, hash: seq<string> -> u64, g: seq<Node>, m: map<string, nat>)
    requires AllFresh(gs, hash)
    ensures ParseAll(RenderGraph(gs), hash, g, m).Ok?
    ensures ParseAll(RenderGraph(gs), hash, g, m).value.0 == g + gs
    decreases |gs|
  {
    if gs == [] {
      assert g + gs == g;
    } else {
      var n, tail := gs[0], RenderGraph(gs[1..]);
      var ts := RenderGraph(gs);
      assert ts == Render(n) + tail;
      assert Boundary(tail) by {
        if gs[1..] != [] {
          assert tail[0] == Path;
        }
      }
      ParseNodeOfRender(n, hash, tail);
      ParseAllStep(ts, hash, g, m);
      assert AllFresh(gs[1..], hash) by {
        forall i | 0 <= i < |gs| - 1 ensures gs[1..][i] == gs[i + 1] { }
      }
      ParseAllRender(gs[1..], hash, g + [n], m[n.target.path := |g|]);
      ConsAppend(g, gs);
    }
  }
}

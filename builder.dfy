/** The line-oriented build of src/builder.rs: targets whose commands carry
    the hash they had when they last ran successfully, the hash-aware
    rebuild rule of `Target::execute`, the hash cache of that revision
    (`write_hash_cache`, `read_hash_cache`) and `build_graph`, which reads
    `path` / `dep` / `run` / `arg` lines into a graph and a node map. */
module Builder {
  import opened Wrappers
  import opened Wire
  import opened Text
  import opened Timestamps
  import opened HashCache
  import opened Folds
  import Targets

  type Command = Targets.Command

  /** A command and the hash it had when it last ran successfully. */
  datatype CachedCommand = CachedCommand(cmd: Command, prevHash: Option<u64>)

  datatype Target = Target(path: string, cmds: seq<CachedCommand>)

  /** A target and the graph indices of its inputs. */
  datatype Node = Node(target: Target, deps: seq<nat>)

  // ------------------------------------------------------------- execute

  /** A command reruns when an input is newer than the target, or when it
      has no previous hash, or when its hash changed. */
  predicate MustRun(c: CachedCommand, stale: bool, hash: Command -> u64) {
    stale || c.prevHash != Some(hash(c.cmd))
  }

  /** The first command from k on that must run and fails, or |cmds|. */
  function FirstFailure(cmds: seq<CachedCommand>, stale: bool, hash: Command -> u64,
                        succeeds: seq<bool>, k: nat): (f: nat)
    requires |succeeds| == |cmds| && k <= |cmds|
    ensures k <= f <= |cmds|
    ensures forall i | k <= i < f :: !MustRun(cmds[i], stale, hash) || succeeds[i]
    ensures f < |cmds| ==> MustRun(cmds[f], stale, hash) && !succeeds[f]
    decreases |cmds| - k
  {
    if k == |cmds| then k
    else if MustRun(cmds[k], stale, hash) && !succeeds[k] then k
    else FirstFailure(cmds, stale, hash, succeeds, k + 1)
  }

  lemma FirstFailureIs(cmds: seq<CachedCommand>, stale: bool, hash: Command -> u64,
                       succeeds: seq<bool>, f: nat)
    requires |succeeds| == |cmds| && f <= |cmds|
    requires forall i | 0 <= i < f :: !MustRun(cmds[i], stale, hash) || succeeds[i]
    requires f < |cmds| ==> MustRun(cmds[f], stale, hash) && !succeeds[f]
    ensures FirstFailure(cmds, stale, hash, succeeds, 0) == f
  {
  }

  /** The commands after the first `upto` ones have run: each that had to
      run now holds its current hash, the others are unchanged. */
  function Refreshed(cmds: seq<CachedCommand>, stale: bool, hash: Command -> u64, upto: nat)
    : (r: seq<CachedCommand>)
    ensures |r| == |cmds|
  {
    seq(|cmds|, i requires 0 <= i < |cmds| =>
      if i < upto && MustRun(cmds[i], stale, hash)
      then cmds[i].(prevHash := Some(hash(cmds[i].cmd))) else cmds[i])
  }

  /** The commands among the first `upto` that must run, in order. */
  function Launches(cmds: seq<CachedCommand>, stale: bool, hash: Command -> u64, upto: nat)
    : (l: seq<Command>)
    requires upto <= |cmds|
    ensures |l| <= upto
  {
    if upto == 0 then []
    else
      Launches(cmds, stale, hash, upto - 1)
      + if MustRun(cmds[upto - 1], stale, hash) then [cmds[upto - 1].cmd] else []
  }

  /** `Target::execute`: run, in order, the commands that must run, stop at
      the first that fails, and record the hash of each that succeeded.
      `timestamp` and `finalTimestamp` are the path's time before and after
      the commands run, `hash` the hash of a command's text and
      `succeeds[i]` whether the i-th command succeeds when launched. */
  method Execute(t: Target, inputs: seq<nat>, timestamp: nat, finalTimestamp: nat,
                 hash: Command -> u64, succeeds: seq<bool>)
    returns (r: Option<nat>, t': Target, launched: seq<Command>)
    requires |succeeds| == |t.cmds|
    ensures var stale := NewestInput(inputs) > timestamp;
      var f := FirstFailure(t.cmds, stale, hash, succeeds, 0);
      && (r.Some? <==> f == |t.cmds|)
      && t' == Target(t.path, Refreshed(t.cmds, stale, hash, f))
      && launched == Launches(t.cmds, stale, hash, if f < |t.cmds| then f + 1 else f)
      && (r.Some? ==> r.value == Max(NewestInput(inputs), finalTimestamp))
  {
    var newestInput := NewestInput(inputs);
    var ok, cmds;
    ok, cmds, launched := RunCommands(t.cmds, newestInput > timestamp, hash, succeeds);
    if !ok {
      return None, Target(t.path, cmds), launched;
    }
    return Some(Max(newestInput, finalTimestamp)), Target(t.path, cmds), launched;
  }

  /** The loop of `execute` over the commands: `ok` says that none of those
      that had to run failed. */
  method RunCommands(cmds0: seq<CachedCommand>, stale: bool, hash: Command -> u64, succeeds: seq<bool>)
    returns (ok: bool, cmds: seq<CachedCommand>, launched: seq<Command>)
    requires |succeeds| == |cmds0|
    ensures var f := FirstFailure(cmds0, stale, hash, succeeds, 0);
      && (ok <==> f == |cmds0|)
      && cmds == Refreshed(cmds0, stale, hash, f)
      && launched == Launches(cmds0, stale, hash, if f < |cmds0| then f + 1 else f)
  {
    cmds := cmds0;
    launched := [];
    for i := 0 to |cmds|
      invariant |cmds| == |cmds0|
      invariant cmds == Refreshed(cmds0, stale, hash, i)
      invariant launched == Launches(cmds0, stale, hash, i)
      invariant forall j | 0 <= j < i :: !MustRun(cmds0[j], stale, hash) || succeeds[j]
    {
      RefreshedStep(cmds0, stale, hash, i);
      var currentHash := hash(cmds[i].cmd);
      if stale || cmds[i].prevHash != Some(currentHash) {
        launched := launched + [cmds[i].cmd];
        if !succeeds[i] {
          FirstFailureIs(cmds0, stale, hash, succeeds, i);
          return false, cmds, launched;
        }
        cmds := cmds[i := cmds[i].(prevHash := Some(currentHash))];
      }
    }
    FirstFailureIs(cmds0, stale, hash, succeeds, |cmds|);
    return true, cmds, launched;
  }

  lemma RefreshedStep(cmds: seq<CachedCommand>, stale: bool, hash: Command -> u64, i: nat)
    requires i < |cmds|
    ensures Refreshed(cmds, stale, hash, i)[i] == cmds[i]
    ensures Launches(cmds, stale, hash, i + 1) ==
      Launches(cmds, stale, hash, i) + if MustRun(cmds[i], stale, hash) then [cmds[i].cmd] else []
    ensures Refreshed(cmds, stale, hash, i + 1) ==
      if MustRun(cmds[i], stale, hash)
      then Refreshed(cmds, stale, hash, i)[i := cmds[i].(prevHash := Some(hash(cmds[i].cmd)))]
      else Refreshed(cmds, stale, hash, i)
  {
  }

  /** After a run in which no command failed, no command of the target must
      run again until an input becomes newer or a command changes. */
  lemma RefreshedIsUpToDate(cmds: seq<CachedCommand>, stale: bool, hash: Command -> u64)
    ensures forall i | 0 <= i < |cmds| :: !MustRun(Refreshed(cmds, stale, hash, |cmds|)[i], false, hash)
  {
  }

  /** A target none of whose commands must run launches nothing, succeeds
      and keeps every command and hash. */
  lemma {:induction false} NothingToRun(cmds: seq<CachedCommand>, hash: Command -> u64,
                                        succeeds: seq<bool>, n: nat)
    requires |succeeds| == |cmds| && n <= |cmds|
    requires forall i | 0 <= i < |cmds| :: !MustRun(cmds[i], false, hash)
    ensures FirstFailure(cmds, false, hash, succeeds, 0) == |cmds|
    ensures Refreshed(cmds, false, hash, |cmds|) == cmds
    ensures Launches(cmds, false, hash, n) == []
  {
    FirstFailureIs(cmds, false, hash, succeeds, |cmds|);
    if n > 0 {
      NothingToRun(cmds, hash, succeeds, n - 1);
    }
  }

  // ---------------------------------------------------- write_hash_cache

  /** `write_hash_cache` skips targets whose first command has no hash. */
  predicate Written(t: Target) {
    t.cmds != [] && t.cmds[0].prevHash.Some?
  }

  /** The stored hashes of the commands, when every command has one. */
  function StoredHashes(cmds: seq<CachedCommand>): (r: Option<seq<u64>>)
    ensures r.Some? <==> forall i | 0 <= i < |cmds| :: cmds[i].prevHash.Some?
    ensures r.Some? ==> |r.value| == |cmds|
                        && forall i | 0 <= i < |cmds| :: cmds[i].prevHash == Some(r.value[i])
  {
    if cmds == [] then Some([])
    else
      match cmds[|cmds| - 1].prevHash
      case None => None
      case Some(h) =>
        match StoredHashes(cmds[..|cmds| - 1])
        case None =>
          assert cmds[..|cmds| - 1][FirstMissing(cmds[..|cmds| - 1])] == cmds[FirstMissing(cmds[..|cmds| - 1])];
          None
        case Some(hs) => Some(hs + [h])
  }

  /** The index of some command without a hash, when there is one. */
  function FirstMissing(cmds: seq<CachedCommand>): (i: nat)
    requires exists i | 0 <= i < |cmds| :: cmds[i].prevHash.None?
    ensures i < |cmds| && cmds[i].prevHash.None?
  {
    if cmds[0].prevHash.None? then 0
    else
      assert exists i | 0 <= i < |cmds| - 1 :: cmds[1..][i].prevHash.None? by {
        var i :| 0 <= i < |cmds| && cmds[i].prevHash.None?;
        assert cmds[1..][i - 1] == cmds[i];
      }
      1 + FirstMissing(cmds[1..])
  }

  /** `unwrap` of a missing hash panics. */
  datatype WriteError = MissingHash(path: string)

  predicate WellSized(g: seq<Node>) {
    forall i | 0 <= i < |g| :: Fits(|Encode(g[i].target.path)|) && Fits(|g[i].target.cmds|)
  }

  /** The records `write_hash_cache` emits, in graph order, or the panic of
      the first written target with a command without a hash. */
  function Entries(g: seq<Node>): (r: Result<seq<Entry>, WriteError>)
    ensures r.Ok? && WellSized(g) ==> Writable(r.value)
  {
    if g == [] then Ok([])
    else
      var t := g[|g| - 1].target;
      assert WellSized(g) ==> WellSized(g[..|g| - 1]) by {
        forall i | 0 <= i < |g| - 1 ensures g[..|g| - 1][i] == g[i] { }
      }
      match Entries(g[..|g| - 1])
      case Err(e) => Err(e)
      case Ok(es) =>
        match EntryOf(t)
        case Err(e) => Err(e)
        case Ok(last) => Ok(es + last)
  }

  /** Entries of a one-longer prefix. */
  lemma EntriesLast(g: seq<Node>, n: nat)
    requires n < |g|
    ensures Entries(g[..n]).Err? ==> Entries(g[..n + 1]) == Entries(g[..n])
    ensures Entries(g[..n]).Ok? && EntryOf(g[n].target).Err? ==>
      Entries(g[..n + 1]) == EntryOf(g[n].target)
    ensures Entries(g[..n]).Ok? && EntryOf(g[n].target).Ok? ==>
      Entries(g[..n + 1]) == Ok(Entries(g[..n]).value + EntryOf(g[n].target).value)
  {
    assert g[..n + 1][..n] == g[..n];
    assert g[..n + 1][n] == g[n];
  }

  /** The record of one target: none when it is not written, the panic when
      a command lacks a hash. */
  function EntryOf(t: Target): (r: Result<seq<Entry>, WriteError>)
    ensures r.Ok? && Fits(|Encode(t.path)|) && Fits(|t.cmds|) ==> Writable(r.value)
  {
    if !Written(t) then Ok([])
    else
      match StoredHashes(t.cmds)
      case None => Err(MissingHash(t.path))
      case Some(hs) => Ok([Entry(t.path, hs)])
  }

  /** The bytes `write_hash_cache` hands to the cache file. */
  function Serialize(g: seq<Node>): Result<seq<byte>, WriteError>
    requires WellSized(g)
  {
    match Entries(g)
    case Err(e) => Err(e)
    case Ok(es) => Ok(Records(es))
  }

  lemma WellSizedPrefix(g: seq<Node>, n: nat)
    requires WellSized(g) && n <= |g|
    ensures WellSized(g[..n])
  {
    forall i | 0 <= i < n ensures g[..n][i] == g[i] { }
  }

  /** The body of `write_hash_cache`'s loop for a written target: its record,
      or the panic of its first command without a hash. */
  method AppendRecord(raw0: seq<byte>, target: Target) returns (r: Result<seq<byte>, WriteError>)
    requires Fits(|Encode(target.path)|) && Fits(|target.cmds|)
    ensures match StoredHashes(target.cmds)
            case None => r == Err(MissingHash(target.path))
            case Some(hs) => r == Ok(raw0 + Record(target.path, hs))
  {
    var raw := raw0 + U64Le(|Encode(target.path)|);
    raw := raw + Encode(target.path);
    raw := raw + U64Le(|target.cmds|);
    ghost var header := raw;
    ghost var hs: seq<u64> := [];
    for j := 0 to |target.cmds|
      invariant |hs| == j
      invariant forall i | 0 <= i < j :: target.cmds[i].prevHash == Some(hs[i])
      invariant raw == header + HashBytes(hs)
    {
      match target.cmds[j].prevHash
      case None =>
        return Err(MissingHash(target.path));
      case Some(h) =>
        HashBytesAppend(hs, h);
        raw := raw + U64Le(h);
        hs := hs + [h];
    }
    StoredHashesAre(target.cmds, hs);
    RecordParts(raw0, target.path, hs);
    return Ok(raw);
  }

  lemma StoredHashesAre(cmds: seq<CachedCommand>, hs: seq<u64>)
    requires |hs| == |cmds| && forall i | 0 <= i < |cmds| :: cmds[i].prevHash == Some(hs[i])
    ensures StoredHashes(cmds) == Some(hs)
  {
    assert StoredHashes(cmds).Some?;
    assert StoredHashes(cmds).value == hs;
  }

  /** Each step of `write_hash_cache`'s loop adds the record of a written
      target, or fails on its missing hash, and adds nothing for the others. */
  lemma SerializeStep(g: seq<Node>, n: nat)
    requires WellSized(g) && n < |g| && Entries(g[..n]).Ok?
    ensures WellSized(g[..n]) && WellSized(g[..n + 1])
    ensures var t := g[n].target;
      if !Written(t) then Serialize(g[..n + 1]) == Serialize(g[..n])
      else match StoredHashes(t.cmds)
           case None => Serialize(g[..n + 1]) == Err(MissingHash(t.path))
           case Some(hs) => Serialize(g[..n + 1]) == Ok(Serialize(g[..n]).value + Record(t.path, hs))
  {
    WellSizedPrefix(g, n);
    WellSizedPrefix(g, n + 1);
    EntriesLast(g, n);
    var t := g[n].target;
    var es := Entries(g[..n]).value;
    if !Written(t) {
      assert es + [] == es;
    } else if StoredHashes(t.cmds).Some? {
      RecordsOfOne(es, t.path, StoredHashes(t.cmds).value);
    }
  }

  lemma RecordsOfOne(es: seq<Entry>, path: string, hs: seq<u64>)
    requires Writable(es) && Fits(|Encode(path)|) && Fits(|hs|)
    ensures Writable(es + [Entry(path, hs)])
    ensures Records(es + [Entry(path, hs)]) == Records(es) + Record(path, hs)
  {
    var e := Entry(path, hs);
    RecordsAppend(es, [e]);
    assert Records([e]) == Record(e.path, e.hashes) + Records([]);
  }

  /** `write_hash_cache`: the records of the written targets, in graph
      order, or the panic of a written target with a missing hash. */
  method WriteHashCache(graph: seq<Node>) returns (r: Result<seq<byte>, WriteError>)
    requires WellSized(graph)
    ensures r == Serialize(graph)
  {
    var raw := [];
    for n := 0 to |graph|
      invariant WellSized(graph[..n]) && Serialize(graph[..n]) == Ok(raw)
    {
      SerializeStep(graph, n);
      var target := graph[n].target;
      if target.cmds != [] && target.cmds[0].prevHash.Some? {
        r := AppendRecord(raw, target);
        if r.Err? {
          EntriesErrSticky(graph, n + 1, |graph|);
          assert graph[..|graph|] == graph;
          return;
        }
        raw := r.value;
      }
    }
    assert graph[..|graph|] == graph;
    return Ok(raw);
  }

  /** Once a prefix of the graph fails to be written, every longer prefix
      fails with the same panic. */
  lemma {:induction false} EntriesErrSticky(g: seq<Node>, k: nat, n: nat)
    requires k <= n <= |g|
    requires Entries(g[..k]).Err?
    ensures Entries(g[..n]) == Entries(g[..k])
    decreases n
  {
    if n > k {
      EntriesErrSticky(g, k, n - 1);
      EntriesLastErr(g, n - 1);
    }
  }

  lemma EntriesLastErr(g: seq<Node>, n: nat)
    requires n < |g| && Entries(g[..n]).Err?
    ensures Entries(g[..n + 1]) == Entries(g[..n])
  {
    EntriesLast(g, n);
  }

  /** `write_hash_cache` fails when a written target has a command without a
      hash. */
  lemma WriteFailsOnMissingHash(g: seq<Node>, i: nat, j: nat)
    requires WellSized(g) && i < |g| && Written(g[i].target)
    requires j < |g[i].target.cmds| && g[i].target.cmds[j].prevHash.None?
    ensures Serialize(g).Err?
  {
    EntriesLast(g, i);
    if Entries(g[..i]).Err? {
      EntriesErrSticky(g, i, |g|);
    } else {
      EntriesErrSticky(g, i + 1, |g|);
    }
    assert g[..|g|] == g;
  }

  // ----------------------------------------------------- read_hash_cache

  function CachedHashes(cmds: seq<CachedCommand>): (s: Slots)
    ensures |s| == |cmds| && forall i | 0 <= i < |cmds| :: s[i] == cmds[i].prevHash
  {
    seq(|cmds|, i requires 0 <= i < |cmds| => cmds[i].prevHash)
  }

  /** The stored hashes of the graph, target by target. */
  function Table(g: seq<Node>): (t: seq<Slots>)
    ensures |t| == |g| && forall i | 0 <= i < |g| :: t[i] == CachedHashes(g[i].target.cmds)
  {
    seq(|g|, i requires 0 <= i < |g| => CachedHashes(g[i].target.cmds))
  }

  predicate Shaped(g: seq<Node>, table: seq<Slots>) {
    |table| == |g| && forall i | 0 <= i < |g| :: |table[i]| == |g[i].target.cmds|
  }

  function WithHashes(cmds: seq<CachedCommand>, slots: Slots): (r: seq<CachedCommand>)
    requires |slots| == |cmds|
    ensures |r| == |cmds|
    ensures forall i | 0 <= i < |cmds| :: r[i] == cmds[i].(prevHash := slots[i])
  {
    seq(|cmds|, i requires 0 <= i < |cmds| => cmds[i].(prevHash := slots[i]))
  }

  /** The graph with each command's stored hash taken from the table. */
  function Apply(g: seq<Node>, table: seq<Slots>): (h: seq<Node>)
    requires Shaped(g, table)
    ensures |h| == |g|
    ensures forall i | 0 <= i < |g| ::
      h[i] == g[i].(target := g[i].target.(cmds := WithHashes(g[i].target.cmds, table[i])))
  {
    seq(|g|, i requires 0 <= i < |g| =>
      g[i].(target := g[i].target.(cmds := WithHashes(g[i].target.cmds, table[i]))))
  }

  /** h is g with at most the stored hashes changed. */
  predicate SameShape(g: seq<Node>, h: seq<Node>) {
    && |g| == |h|
    && forall i | 0 <= i < |g| ::
         && h[i].deps == g[i].deps
         && h[i].target.path == g[i].target.path
         && |h[i].target.cmds| == |g[i].target.cmds|
         && forall j | 0 <= j < |g[i].target.cmds| :: h[i].target.cmds[j].cmd == g[i].target.cmds[j].cmd
  }

  /** What `read_hash_cache` leaves in the graph, or why it panics. */
  function ReadCache(g: seq<Node>, nodeMap: map<string, nat>, bs: seq<byte>)
    : (r: Result<seq<Node>, CacheError>)
    ensures r.Ok? ==> SameShape(g, r.value)
    ensures r.Ok? <==> ReadAll(Table(g), nodeMap, bs).Ok?
    ensures r.Ok? ==> Table(r.value) == ReadAll(Table(g), nodeMap, bs).value
  {
    match ReadAll(Table(g), nodeMap, bs)
    case Err(e) => Err(e)
    case Ok(t) =>
      var h := Apply(g, t);
      assert Table(h) == t by {
        forall i | 0 <= i < |g| ensures Table(h)[i] == t[i] { }
      }
      Ok(h)
  }

  /** `read_hash_cache`: the graph after the cache bytes are read into it. */
  method ReadHashCache(graph: seq<Node>, nodeMap: map<string, nat>, cacheBytes: seq<byte>)
    returns (r: Result<seq<Node>, CacheError>)
    ensures r == ReadCache(graph, nodeMap, cacheBytes)
  {
    var table := ReadInto(Table(graph), nodeMap, cacheBytes);
    if table.Err? {
      return Err(table.error);
    }
    return Ok(Apply(graph, table.value));
  }

  // ---------------------------------------------------------- round trip

  predicate IndexedByPath(g: seq<Node>, nodeMap: map<string, nat>) {
    forall i | 0 <= i < |g| :: g[i].target.path in nodeMap && nodeMap[g[i].target.path] == i
  }

  /** Every target's commands either all have a hash or none has. */
  predicate AllOrNone(g: seq<Node>) {
    forall i | 0 <= i < |g| ::
      forall j | 0 <= j < |g[i].target.cmds| ::
        g[i].target.cmds[j].prevHash.Some? == g[i].target.cmds[0].prevHash.Some?
  }

  /** Every stored hash forgotten, as `build_graph` leaves a graph. */
  function Cleared(g: seq<Node>): (h: seq<Node>)
    ensures Shaped(g, Table(h)) && Shaped(h, Table(g))
    ensures Apply(h, Table(g)) == g
  {
    var h := seq(|g|, i requires 0 <= i < |g| =>
      var cmds := g[i].target.cmds;
      g[i].(target := g[i].target.(cmds := seq(|cmds|, j requires 0 <= j < |cmds| =>
        cmds[j].(prevHash := None)))));
    assert Apply(h, Table(g)) == g by {
      forall i | 0 <= i < |g| ensures Apply(h, Table(g))[i] == g[i] {
        assert WithHashes(h[i].target.cmds, Table(g)[i]) == g[i].target.cmds;
      }
    }
    h
  }

  /** The table after the records of the written targets among the first n
      are stored. */
  function StoredUpTo(g: seq<Node>, table: seq<Slots>, n: nat): seq<Slots>
    requires |table| == |g|
  {
    seq(|g|, i requires 0 <= i < |g| =>
      var t := g[i].target;
      if i < n && Written(t) && StoredHashes(t.cmds).Some?
      then Somes(StoredHashes(t.cmds).value) else table[i])
  }

  lemma {:induction false} StoredEntries(g: seq<Node>, nodeMap: map<string, nat>,
                                         table: seq<Slots>, n: nat)
    requires IndexedByPath(g, nodeMap) && Shaped(g, table) && n <= |g|
    requires Entries(g[..n]).Ok?
    ensures Fills(table, nodeMap, Entries(g[..n]).value)
    ensures Stored(table, nodeMap, Entries(g[..n]).value) == StoredUpTo(g, table, n)
  {
    if n == 0 {
      assert Entries(g[..0]) == Ok([]);
      assert StoredUpTo(g, table, 0) == table;
    } else {
      var k := n - 1;
      EntriesLast(g, k);
      StoredEntries(g, nodeMap, table, k);
      StoredEntriesStep(g, nodeMap, table, k);
    }
  }

  lemma StoredEntriesStep(g: seq<Node>, nodeMap: map<string, nat>, table: seq<Slots>, k: nat)
    requires IndexedByPath(g, nodeMap) && Shaped(g, table) && k < |g|
    requires Entries(g[..k]).Ok? && Entries(g[..k + 1]).Ok?
    requires Fills(table, nodeMap, Entries(g[..k]).value)
    requires Stored(table, nodeMap, Entries(g[..k]).value) == StoredUpTo(g, table, k)
    ensures Fills(table, nodeMap, Entries(g[..k + 1]).value)
    ensures Stored(table, nodeMap, Entries(g[..k + 1]).value) == StoredUpTo(g, table, k + 1)
  {
    EntriesLast(g, k);
    var t := g[k].target;
    var es := Entries(g[..k]).value;
    if Written(t) {
      StoredOne(g, nodeMap, table, k, es, StoredHashes(t.cmds).value);
    } else {
      assert es + [] == es;
      StoredSkip(g, table, k);
    }
  }

  lemma StoredOne(g: seq<Node>, nodeMap: map<string, nat>, table: seq<Slots>, k: nat,
                  es: seq<Entry>, hs: seq<u64>)
    requires IndexedByPath(g, nodeMap) && Shaped(g, table) && k < |g|
    requires Fills(table, nodeMap, es) && Stored(table, nodeMap, es) == StoredUpTo(g, table, k)
    requires Written(g[k].target) && StoredHashes(g[k].target.cmds) == Some(hs)
    ensures Fills(table, nodeMap, es + [Entry(g[k].target.path, hs)])
    ensures Stored(table, nodeMap, es + [Entry(g[k].target.path, hs)]) == StoredUpTo(g, table, k + 1)
  {
    var e := Entry(g[k].target.path, hs);
    assert Fills(table, nodeMap, [e]);
    StoredAppend(table, nodeMap, es, [e]);
    var s := StoredUpTo(g, table, k);
    assert Stored(s, nodeMap, [e]) == s[k := Somes(e.hashes)];
    assert s[k := Somes(e.hashes)] == StoredUpTo(g, table, k + 1);
  }

  lemma StoredSkip(g: seq<Node>, table: seq<Slots>, k: nat)
    requires |table| == |g| && k < |g| && !Written(g[k].target)
    ensures StoredUpTo(g, table, k) == StoredUpTo(g, table, k + 1)
  {
    forall i | 0 <= i < |g| ensures StoredUpTo(g, table, k)[i] == StoredUpTo(g, table, k + 1)[i] { }
  }

  /** Storing the written records leaves the hashes of g itself. */
  lemma StoredIsTable(g: seq<Node>, table: seq<Slots>)
    requires Shaped(g, table)
    requires forall i | 0 <= i < |g| ::
      (Written(g[i].target) && StoredHashes(g[i].target.cmds).Some?) || table[i] == Table(g)[i]
    ensures StoredUpTo(g, table, |g|) == Table(g)
  {
    forall i | 0 <= i < |g| ensures StoredUpTo(g, table, |g|)[i] == Table(g)[i] {
      var cmds := g[i].target.cmds;
      if Written(g[i].target) && StoredHashes(cmds).Some? {
        assert Somes(StoredHashes(cmds).value) == CachedHashes(cmds);
      }
    }
  }

  lemma ApplyTable(g: seq<Node>)
    ensures Shaped(g, Table(g)) && Apply(g, Table(g)) == g
  {
    forall i | 0 <= i < |g| ensures Apply(g, Table(g))[i] == g[i] {
      assert WithHashes(g[i].target.cmds, Table(g)[i]) == g[i].target.cmds;
    }
  }

  /** Reading back what `write_hash_cache` wrote, with the node map of the
      graph, leaves the graph as it was. */
  lemma ReadOfWrite(g: seq<Node>, nodeMap: map<string, nat>)
    requires WellSized(g) && IndexedByPath(g, nodeMap) && Serialize(g).Ok?
    ensures ReadCache(g, nodeMap, Serialize(g).value) == Ok(g)
  {
    assert g[..|g|] == g;
    StoredEntries(g, nodeMap, Table(g), |g|);
    ReadAllRecords(Table(g), nodeMap, Entries(g).value);
    StoredIsTable(g, Table(g));
    ApplyTable(g);
  }

  lemma {:induction false} EntriesOk(g: seq<Node>)
    requires AllOrNone(g)
    ensures Entries(g).Ok?
  {
    if g != [] {
      var k := |g| - 1;
      assert AllOrNone(g[..k]) by {
        forall i | 0 <= i < k ensures g[..k][i] == g[i] { }
      }
      EntriesOk(g[..k]);
    }
  }

  /** Reading what `write_hash_cache` wrote into the same graph with every
      hash forgotten restores every hash, when each target's commands all
      had a hash or none had. */
  lemma RestoreOfWrite(g: seq<Node>, nodeMap: map<string, nat>)
    requires WellSized(g) && IndexedByPath(g, nodeMap) && AllOrNone(g)
    ensures Serialize(g).Ok?
    ensures ReadCache(Cleared(g), nodeMap, Serialize(g).value) == Ok(g)
  {
    EntriesOk(g);
    var h := Cleared(g);
    assert g[..|g|] == g;
    StoredEntries(g, nodeMap, Table(h), |g|);
    ReadAllRecords(Table(h), nodeMap, Entries(g).value);
    forall i | 0 <= i < |g|
      ensures (Written(g[i].target) && StoredHashes(g[i].target.cmds).Some?) || Table(h)[i] == Table(g)[i]
    {
      if !Written(g[i].target) {
        assert Table(h)[i] == Table(g)[i];
      }
    }
    StoredIsTable(g, Table(h));
  }

  // --------------------------------------------------------- build_graph

  /** What `build_graph` keeps between lines: the graph and node map built
      so far and the pending target's path, inputs and commands. */
  datatype BuildState = BuildState(graph: seq<Node>, nodeMap: map<string, nat>,
                                   path: string, inputs: seq<nat>, cmds: seq<CachedCommand>)

  const Start := BuildState([], map[], "", [], [])

  /** The panics of `build_graph`, with the zero-based line number. */
  datatype ConfigError =
    | MissingValue(line: nat, keyword: string)
    | UnknownDependency(line: nat, value: string)
    | ArgBeforeRun(line: nat)
    | UnknownKeyword(line: nat, keyword: string)

  /** Add the pending target to the graph and map its path to the index it
      took, as `graph.add` followed by `node_map.insert` does. */
  function Push(s: BuildState): (s': BuildState)
    ensures |s'.graph| == |s.graph| + 1 && s'.graph[..|s.graph|] == s.graph
    ensures s'.graph[|s.graph|] == Node(Target(s.path, s.cmds), s.inputs)
    ensures s'.nodeMap == s.nodeMap[s.path := |s.graph|]
  {
    var s' := s.(graph := s.graph + [Node(Target(s.path, s.cmds), s.inputs)],
                 nodeMap := s.nodeMap[s.path := |s.graph|]);
    assert s'.graph[..|s.graph|] == s.graph;
    s'
  }

  /** The commands with an argument added to the last one. */
  function WithArg(cmds: seq<CachedCommand>, value: string): (r: seq<CachedCommand>)
    requires cmds != []
    ensures |r| == |cmds| && r[..|cmds| - 1] == cmds[..|cmds| - 1]
    ensures var last := cmds[|cmds| - 1];
      r[|cmds| - 1] == last.(cmd := last.cmd.(args := last.cmd.args + [value]))
  {
    var last := cmds[|cmds| - 1];
    cmds[..|cmds| - 1] + [last.(cmd := last.cmd.(args := last.cmd.args + [value]))]
  }

  /** A non-blank line as `build_graph` splits it: its first word, and
      what follows the first `|keyword|` characters of the line, trimmed. */
  datatype KeywordLine = KeywordLine(keyword: string, value: string)

  function Split(line: string): (r: Option<KeywordLine>)
    ensures r.None? <==> AllWhitespace(line)
  {
    match FirstWord(line)
    case None => None
    case Some(keyword) => Some(KeywordLine(keyword, Trim(line[|keyword|..])))
  }

  /** One line of the configuration. It panics exactly when its value is
      empty, when it is a `dep` on a path no earlier target took, when it is
      an `arg` with no `run` before it in the pending target, or when its
      keyword is none of `path`, `dep`, `run` and `arg`. */
  function Step(s: BuildState, lineno: nat, line: string): (r: Result<BuildState, ConfigError>)
    ensures r.Err? ==> r.error.line == lineno
    ensures AllWhitespace(line) ==> r == Ok(s)
    ensures r.Err? <==> var w := Split(line);
      && w.Some?
      && (|| w.value.value == []
          || w.value.keyword !in {"path", "dep", "run", "arg"}
          || (w.value.keyword == "dep" && w.value.value !in s.nodeMap)
          || (w.value.keyword == "arg" && s.cmds == []))
    ensures var w := Split(line); w.Some? && w.value.value == [] ==>
      r == Err(MissingValue(lineno, w.value.keyword))
    ensures var w := Split(line); w.Some? && w.value.value != [] && w.value.keyword !in {"path", "dep", "run", "arg"} ==>
      r == Err(UnknownKeyword(lineno, w.value.keyword))
    ensures var w := Split(line); w.Some? && w.value.value != [] && w.value.keyword == "dep" && w.value.value !in s.nodeMap ==>
      r == Err(UnknownDependency(lineno, w.value.value))
    ensures var w := Split(line); w.Some? && w.value.value != [] && w.value.keyword == "arg" && s.cmds == [] ==>
      r == Err(ArgBeforeRun(lineno))
  {
    match FirstWord(line)
    case None => Ok(s)
    case Some(keyword) =>
      var value := Trim(line[|keyword|..]);
      if value == [] then Err(MissingValue(lineno, keyword))
      else if keyword == "path" then
        Ok((if s.path != [] then Push(s).(inputs := [], cmds := []) else s).(path := value))
      else if keyword == "dep" then
        if value in s.nodeMap then Ok(s.(inputs := s.inputs + [s.nodeMap[value]]))
        else Err(UnknownDependency(lineno, value))
      else if keyword == "run" then
        Ok(s.(cmds := s.cmds + [CachedCommand(Targets.Command(value, []), None)]))
      else if keyword == "arg" then
        if s.cmds == [] then Err(ArgBeforeRun(lineno)) else Ok(s.(cmds := WithArg(s.cmds, value)))
      else Err(UnknownKeyword(lineno, keyword))
  }

  /** What `build_graph` returns: the graph with the last target added and
      the node map, or the panic. */
  function BuildGraphOf(config: string): Result<(seq<Node>, map<string, nat>), ConfigError> {
    var lines := Lines(config);
    match Run(Step, Start, lines, |lines|)
    case Err(e) => Err(e)
    case Ok(s) => var f := Push(s); Ok((f.graph, f.nodeMap))
  }

  /** The body of `build_graph`'s loop: one line read into the state. */
  method ReadLine(s: BuildState, lineno: nat, line: string) returns (r: Result<BuildState, ConfigError>)
    ensures r == Step(s, lineno, line)
  {
    var graph, nodeMap, path, inputs, cmds := s.graph, s.nodeMap, s.path, s.inputs, s.cmds;
    var first := FirstWord(line);
    if first.None? {
      return Ok(s);
    }
    var keyword := first.value;
    var value := Trim(line[|keyword|..]);
    if value == [] {
      return Err(MissingValue(lineno, keyword));
    } else if keyword == "path" {
      if path != [] {
        var id := |graph|;
        graph := graph + [Node(Target(path, cmds), inputs)];
        nodeMap := nodeMap[path := id];
        inputs := [];
        cmds := [];
      }
      path := value;
    } else if keyword == "dep" {
      if value !in nodeMap {
        return Err(UnknownDependency(lineno, value));
      }
      inputs := inputs + [nodeMap[value]];
    } else if keyword == "run" {
      cmds := cmds + [CachedCommand(Targets.Command(value, []), None)];
    } else if keyword == "arg" {
      if cmds == [] {
        return Err(ArgBeforeRun(lineno));
      }
      var last := cmds[|cmds| - 1];
      cmds := cmds[..|cmds| - 1] + [last.(cmd := last.cmd.(args := last.cmd.args + [value]))];
    } else {
      return Err(UnknownKeyword(lineno, keyword));
    }
    return Ok(BuildState(graph, nodeMap, path, inputs, cmds));
  }

  /** `build_graph`. The line numbers in the panics count from zero. */
  method BuildGraph(config: string) returns (r: Result<(seq<Node>, map<string, nat>), ConfigError>)
    ensures r == BuildGraphOf(config)
  {
    var lines := Lines(config);
    var s := Start;
    for lineno := 0 to |lines|
      invariant Run(Step, Start, lines, lineno) == Ok(s)
    {
      RunNext(Step, Start, lines, lineno);
      var next := ReadLine(s, lineno, lines[lineno]);
      if next.Err? {
        RunErrSticky(Step, Start, lines, lineno + 1, |lines|, next.error);
        return Err(next.error);
      }
      s := next.value;
    }
    var id := |s.graph|;
    var graph := s.graph + [Node(Target(s.path, s.cmds), s.inputs)];
    var nodeMap := s.nodeMap[s.path := id];
    return Ok((graph, nodeMap));
  }

  /** A path value has no whitespace at either end. */
  predicate Trimmed(p: string) {
    p != [] && !IsWhitespace(p[0]) && !IsWhitespace(p[|p| - 1])
  }

  /** Every input of a node is an earlier node. */
  predicate DepsBackward(g: seq<Node>) {
    forall i | 0 <= i < |g| :: forall d | d in g[i].deps :: d < i
  }

  /** The node map sends each path to a node with that path. */
  predicate MapSound(g: seq<Node>, m: map<string, nat>) {
    forall p | p in m :: m[p] < |g| && g[m[p]].target.path == p
  }

  /** Every node's path is in the node map. */
  predicate MapComplete(g: seq<Node>, m: map<string, nat>) {
    forall i | 0 <= i < |g| :: g[i].target.path in m
  }

  predicate AllTrimmed(g: seq<Node>) {
    forall i | 0 <= i < |g| :: Trimmed(g[i].target.path)
  }

  /** What holds between the lines of `build_graph`: every input names an
      earlier node, the node map sends each path to a node with that path,
      every node's path is mapped and every path is a trimmed value. */
  predicate Valid(s: BuildState) {
    && DepsBackward(s.graph)
    && (forall d | d in s.inputs :: d < |s.graph|)
    && MapSound(s.graph, s.nodeMap)
    && MapComplete(s.graph, s.nodeMap)
    && AllTrimmed(s.graph)
    && (s.path == [] || Trimmed(s.path))
  }

  /** Adding the pending target keeps the graph's invariants, and keeps every
      path trimmed when the pending path is not empty. */
  lemma PushValid(s: BuildState)
    requires Valid(s)
    ensures var s' := Push(s);
      && DepsBackward(s'.graph) && MapSound(s'.graph, s'.nodeMap) && MapComplete(s'.graph, s'.nodeMap)
      && (s.path != [] ==> AllTrimmed(s'.graph))
      && (forall i | 0 <= i < |s.graph| :: Trimmed(s'.graph[i].target.path))
  {
    var s' := Push(s);
    forall i | 0 <= i < |s'.graph| ensures forall d | d in s'.graph[i].deps :: d < i {
      if i < |s.graph| {
        assert s'.graph[i] == s.graph[i];
      }
    }
    forall p | p in s'.nodeMap ensures s'.nodeMap[p] < |s'.graph| && s'.graph[s'.nodeMap[p]].target.path == p {
      if p != s.path {
        assert s'.graph[s.nodeMap[p]] == s.graph[s.nodeMap[p]];
      }
    }
    forall i | 0 <= i < |s.graph| ensures s'.graph[i] == s.graph[i] { }
  }

  lemma StepValid(s: BuildState, lineno: nat, line: string)
    requires Valid(s) && Step(s, lineno, line).Ok?
    ensures Valid(Step(s, lineno, line).value)
  {
    match FirstWord(line)
    case None =>
    case Some(keyword) =>
      var value := Trim(line[|keyword|..]);
      if keyword == "path" {
        PathValid(s, value);
      } else if keyword == "dep" {
        DepValid(s, s.nodeMap[value]);
      } else if keyword == "run" {
        CmdsValid(s, s.cmds + [CachedCommand(Targets.Command(value, []), None)]);
      } else {
        CmdsValid(s, WithArg(s.cmds, value));
      }
  }

  lemma PathValid(s: BuildState, value: string)
    requires Valid(s) && Trimmed(value)
    ensures Valid((if s.path != [] then Push(s).(inputs := [], cmds := []) else s).(path := value))
  {
    if s.path != [] {
      PushValid(s);
    }
  }

  lemma DepValid(s: BuildState, d: nat)
    requires Valid(s) && d < |s.graph|
    ensures Valid(s.(inputs := s.inputs + [d]))
  {
  }

  lemma CmdsValid(s: BuildState, cmds: seq<CachedCommand>)
    requires Valid(s)
    ensures Valid(s.(cmds := cmds))
  {
  }

  lemma {:induction false} StepsValid(lines: seq<string>, n: nat)
    requires n <= |lines| && Run(Step, Start, lines, n).Ok?
    ensures Valid(Run(Step, Start, lines, n).value)
  {
    if n > 0 {
      StepsValid(lines, n - 1);
      var s := Run(Step, Start, lines, n - 1).value;
      assert Run(Step, Start, lines, n) == Step(s, n - 1, lines[n - 1]);
      StepValid(s, n - 1, lines[n - 1]);
    }
  }

  /** The graph `build_graph` returns has every input of a node at a smaller
      index, so it has no cycle; the node map sends each path to a node with
      that path (the last one declared); every node's path is mapped; and
      every path but possibly the last is a non-empty trimmed value. */
  lemma BuildGraphWellFormed(config: string)
    requires BuildGraphOf(config).Ok?
    ensures var (g, m) := BuildGraphOf(config).value;
      && |g| >= 1
      && DepsBackward(g) && MapSound(g, m) && MapComplete(g, m)
      && (forall i | 0 <= i < |g| - 1 :: Trimmed(g[i].target.path))
  {
    var lines := Lines(config);
    StepsValid(lines, |lines|);
    PushValid(Run(Step, Start, lines, |lines|).value);
  }

  /** The first line that panics decides what `build_graph` reports, with
      that line's number. */
  lemma FirstPanicWins(config: string, k: nat, e: ConfigError)
    requires k < |Lines(config)| && Run(Step, Start, Lines(config), k).Ok?
    requires Step(Run(Step, Start, Lines(config), k).value, k, Lines(config)[k]) == Err(e)
    ensures BuildGraphOf(config) == Err(e) && e.line == k
  {
    RunFailsAt(Step, Start, Lines(config), k, e);
  }

  // --------------------------------------- build_graph, described by sections

  /** The line is accepted with this keyword: its value is not empty. */
  predicate Is(line: string, keyword: string) {
    Split(line).Some? && Split(line).value.keyword == keyword && Split(line).value.value != []
  }

  function ValueOf(line: string): string
    requires Split(line).Some?
  {
    Split(line).value.value
  }

  /** The values of the `path` lines, in file order. */
  function PathValues(lines: seq<string>): (ps: seq<string>)
    ensures forall i | 0 <= i < |ps| :: ps[i] != []
  {
    if lines == [] then []
    else
      var last := lines[|lines| - 1];
      PathValues(lines[..|lines| - 1]) + if Is(last, "path") then [ValueOf(last)] else []
  }

  /** The paths of the targets the lines make, one per section. The lines
      before the first `path` line belong to the first target, which has
      the empty path when there is no `path` line at all. */
  function Names(lines: seq<string>): (ns: seq<string>)
    ensures |ns| >= 1
  {
    var ps := PathValues(lines);
    if ps == [] then [""] else ps
  }

  /** The section the next line belongs to: the pending target. */
  function Cur(lines: seq<string>): nat {
    |Names(lines)| - 1
  }

  /** The paths of the targets already closed, in graph order. */
  function Closed(lines: seq<string>): seq<string> {
    Names(lines)[..Cur(lines)]
  }

  /** Each path to the index of its last occurrence. */
  function MapOf(qs: seq<string>): map<string, nat> {
    if qs == [] then map[]
    else MapOf(qs[..|qs| - 1])[qs[|qs| - 1] := |qs| - 1]
  }

  /** The inputs of section j: for each `dep` line of the section, in file
      order, the index of the last closed target with the value as path. */
  function DepsOf(lines: seq<string>, j: nat): seq<nat> {
    if lines == [] then []
    else
      var init := lines[..|lines| - 1];
      var last := lines[|lines| - 1];
      var m := MapOf(Closed(init));
      DepsOf(init, j) + if Is(last, "dep") && Cur(init) == j && ValueOf(last) in m then [m[ValueOf(last)]] else []
  }

  /** The commands of section j: one per `run` line of the section, holding
      its value as executable, the values of the `arg` lines that follow it
      as arguments, and no hash. */
  function CmdsOf(lines: seq<string>, j: nat): seq<CachedCommand> {
    if lines == [] then []
    else
      var init := lines[..|lines| - 1];
      var last := lines[|lines| - 1];
      var cs := CmdsOf(init, j);
      if Cur(init) != j then cs
      else if Is(last, "run") then cs + [CachedCommand(Targets.Command(ValueOf(last), []), None)]
      else if Is(last, "arg") && cs != [] then WithArg(cs, ValueOf(last))
      else cs
  }

  /** The state after a prefix of the lines, described by its sections: the
      closed sections are the graph, the last one is pending, and the node
      map sends each closed path to its last index. */
  predicate Describes(lines: seq<string>, s: BuildState) {
    var names := Names(lines);
    var n := Cur(lines);
    && |s.graph| == n
    && (forall j | 0 <= j < n :: s.graph[j] == Node(Target(names[j], CmdsOf(lines, j)), DepsOf(lines, j)))
    && s.path == names[n]
    && s.inputs == DepsOf(lines, n) && s.cmds == CmdsOf(lines, n)
    && s.nodeMap == MapOf(Closed(lines))
  }

  /** `node_map` after inserting the paths in order: exactly the paths, each
      sent to its last occurrence. */
  lemma {:induction false} MapOfLastIndex(qs: seq<string>)
    ensures forall p :: p in MapOf(qs) <==> p in qs
    ensures forall p | p in MapOf(qs) :: MapOf(qs)[p] < |qs| && qs[MapOf(qs)[p]] == p
    ensures forall p | p in MapOf(qs) :: forall i | MapOf(qs)[p] < i < |qs| :: qs[i] != p
  {
    if qs != [] {
      var init := qs[..|qs| - 1];
      MapOfLastIndex(init);
      assert qs == init + [qs[|qs| - 1]];
      forall p | p in MapOf(qs) ensures MapOf(qs)[p] < |qs| && qs[MapOf(qs)[p]] == p {
        if p != qs[|qs| - 1] {
          assert qs[MapOf(init)[p]] == init[MapOf(init)[p]];
        }
      }
    }
  }

  /** The paths after one more line. */
  lemma PathsLast(init: seq<string>, all: seq<string>)
    requires |all| == |init| + 1 && all[..|init|] == init
    ensures PathValues(all) == PathValues(init) + if Is(all[|init|], "path") then [ValueOf(all[|init|])] else []
  {
  }

  /** The inputs of section j after one more line. */
  lemma DepsLast(init: seq<string>, all: seq<string>, j: nat)
    requires |all| == |init| + 1 && all[..|init|] == init
    ensures var last := all[|init|]; var m := MapOf(Closed(init));
      DepsOf(all, j) == DepsOf(init, j)
        + if Is(last, "dep") && Cur(init) == j && ValueOf(last) in m then [m[ValueOf(last)]] else []
  {
  }

  /** The commands of section j after one more line. */
  lemma CmdsLast(init: seq<string>, all: seq<string>, j: nat)
    requires |all| == |init| + 1 && all[..|init|] == init
    ensures var last := all[|init|];
      CmdsOf(all, j) ==
        if Cur(init) != j then CmdsOf(init, j)
        else if Is(last, "run") then CmdsOf(init, j) + [CachedCommand(Targets.Command(ValueOf(last), []), None)]
        else if Is(last, "arg") && CmdsOf(init, j) != [] then WithArg(CmdsOf(init, j), ValueOf(last))
        else CmdsOf(init, j)
  {
  }

  /** A line that is not a `dep` line keeps the inputs of every section. */
  lemma DepsKept(init: seq<string>, all: seq<string>, j: nat)
    requires |all| == |init| + 1 && all[..|init|] == init
    requires !Is(all[|init|], "dep") || Cur(init) != j
    ensures DepsOf(all, j) == DepsOf(init, j)
  {
    DepsLast(init, all, j);
    assert DepsOf(all, j) == DepsOf(init, j) + [];
  }

  /** A line that is neither `run` nor `arg` keeps the commands of every section. */
  lemma CmdsKept(init: seq<string>, all: seq<string>, j: nat)
    requires |all| == |init| + 1 && all[..|init|] == init
    requires (!Is(all[|init|], "run") && !Is(all[|init|], "arg")) || Cur(init) != j
    ensures CmdsOf(all, j) == CmdsOf(init, j)
  {
    CmdsLast(init, all, j);
  }

  /** The sections after the pending one are still empty. */
  lemma {:induction false} LaterSectionsEmpty(lines: seq<string>, j: nat)
    requires j > Cur(lines)
    ensures DepsOf(lines, j) == [] && CmdsOf(lines, j) == []
  {
    if lines != [] {
      var init := lines[..|lines| - 1];
      PathsLast(init, lines);
      assert Cur(init) <= Cur(lines);
      LaterSectionsEmpty(init, j);
      DepsKept(init, lines, j);
      CmdsKept(init, lines, j);
    }
  }

  /** A line that adds no path keeps the names, the pending section and the
      closed ones. */
  lemma SameNames(init: seq<string>, all: seq<string>)
    requires |all| == |init| + 1 && all[..|init|] == init && !Is(all[|init|], "path")
    ensures Names(all) == Names(init) && Cur(all) == Cur(init) && Closed(all) == Closed(init)
  {
    PathsLast(init, all);
    assert PathValues(all) == PathValues(init) + [];
  }

  /** The closed targets stay as they were when only section n changes. */
  lemma ClosedKept(init: seq<string>, all: seq<string>, g: seq<Node>, n: nat)
    requires |all| == |init| + 1 && all[..|init|] == init && !Is(all[|init|], "path")
    requires n == Cur(init) && |g| == n
    requires forall j | 0 <= j < n :: g[j] == Node(Target(Names(init)[j], CmdsOf(init, j)), DepsOf(init, j))
    ensures forall j | 0 <= j < n :: g[j] == Node(Target(Names(all)[j], CmdsOf(all, j)), DepsOf(all, j))
  {
    SameNames(init, all);
    forall j | 0 <= j < n ensures g[j] == Node(Target(Names(all)[j], CmdsOf(all, j)), DepsOf(all, j)) {
      DepsKept(init, all, j);
      CmdsKept(init, all, j);
    }
  }

  lemma PathDescribes(init: seq<string>, all: seq<string>, s: BuildState, s': BuildState)
    requires |all| == |init| + 1 && all[..|init|] == init && Is(all[|init|], "path")
    requires Describes(init, s)
    requires s' == (if s.path != [] then Push(s).(inputs := [], cmds := []) else s).(path := ValueOf(all[|init|]))
    ensures Describes(all, s')
  {
    PathsLast(init, all);
    if PathValues(init) == [] {
      FirstPathDescribes(init, all, s, s');
    } else {
      NextPathDescribes(init, all, s, s');
    }
  }

  /** The first `path` line names the pending target, which keeps the lines
      read before it. */
  lemma FirstPathDescribes(init: seq<string>, all: seq<string>, s: BuildState, s': BuildState)
    requires |all| == |init| + 1 && all[..|init|] == init && Is(all[|init|], "path")
    requires PathValues(init) == [] && PathValues(all) == [ValueOf(all[|init|])]
    requires Describes(init, s)
    requires s' == s.(path := ValueOf(all[|init|]))
    ensures Describes(all, s')
  {
    DepsKept(init, all, 0);
    CmdsKept(init, all, 0);
    assert Closed(all) == [] == Closed(init);
  }

  /** A later `path` line closes the pending target and opens an empty one. */
  lemma NextPathDescribes(init: seq<string>, all: seq<string>, s: BuildState, s': BuildState)
    requires |all| == |init| + 1 && all[..|init|] == init && Is(all[|init|], "path")
    requires PathValues(init) != [] && PathValues(all) == PathValues(init) + [ValueOf(all[|init|])]
    requires Describes(init, s)
    requires s' == Push(s).(inputs := [], cmds := [], path := ValueOf(all[|init|]))
    ensures Describes(all, s')
  {
    var ps := PathValues(init);
    var n := Cur(init);
    assert Names(init) == ps && Names(all) == ps + [ValueOf(all[|init|])] && Cur(all) == n + 1;
    LaterSectionsEmpty(init, n + 1);
    DepsKept(init, all, n + 1);
    CmdsKept(init, all, n + 1);
    assert Closed(all) == ps;
    assert ps[..|ps| - 1] == Closed(init);
    ClosedAfterPath(init, all, s, n);
  }

  lemma ClosedAfterPath(init: seq<string>, all: seq<string>, s: BuildState, n: nat)
    requires |all| == |init| + 1 && all[..|init|] == init && Is(all[|init|], "path")
    requires n == Cur(init) && |s.graph| == n && n < |Names(all)|
    requires forall j | 0 <= j < n :: Names(all)[j] == Names(init)[j]
    requires Names(all)[n] == s.path && s.cmds == CmdsOf(init, n) && s.inputs == DepsOf(init, n)
    requires forall j | 0 <= j < n :: s.graph[j] == Node(Target(Names(init)[j], CmdsOf(init, j)), DepsOf(init, j))
    ensures forall j | 0 <= j < n + 1 ::
      Push(s).graph[j] == Node(Target(Names(all)[j], CmdsOf(all, j)), DepsOf(all, j))
  {
    var g := Push(s).graph;
    forall j | 0 <= j < n + 1
      ensures g[j] == Node(Target(Names(all)[j], CmdsOf(all, j)), DepsOf(all, j))
    {
      DepsKept(init, all, j);
      CmdsKept(init, all, j);
      if j < n {
        assert g[j] == s.graph[j];
      }
    }
  }

  lemma DepDescribes(init: seq<string>, all: seq<string>, s: BuildState)
    requires |all| == |init| + 1 && all[..|init|] == init && Is(all[|init|], "dep")
    requires Describes(init, s) && ValueOf(all[|init|]) in s.nodeMap
    ensures Describes(all, s.(inputs := s.inputs + [s.nodeMap[ValueOf(all[|init|])]]))
  {
    var n := Cur(init);
    SameNames(init, all);
    ClosedKept(init, all, s.graph, n);
    DepsLast(init, all, n);
    CmdsKept(init, all, n);
  }

  lemma CmdsDescribe(init: seq<string>, all: seq<string>, s: BuildState, cmds: seq<CachedCommand>)
    requires |all| == |init| + 1 && all[..|init|] == init
    requires Is(all[|init|], "run") || Is(all[|init|], "arg")
    requires Describes(init, s) && cmds == CmdsOf(all, Cur(init))
    ensures Describes(all, s.(cmds := cmds))
  {
    var n := Cur(init);
    SameNames(init, all);
    ClosedKept(init, all, s.graph, n);
    DepsKept(init, all, n);
  }

  /** Each accepted line keeps the state equal to its description. */
  lemma StepDescribes(lines: seq<string>, k: nat, s: BuildState)
    requires k < |lines| && Describes(lines[..k], s) && Step(s, k, lines[k]).Ok?
    ensures Describes(lines[..k + 1], Step(s, k, lines[k]).value)
  {
    var init := lines[..k];
    var all := lines[..k + 1];
    assert all[..k] == init && all[k] == lines[k];
    var line := lines[k];
    var s' := Step(s, k, line).value;
    if Is(line, "path") {
      PathDescribes(init, all, s, s');
    } else if Is(line, "dep") {
      DepDescribes(init, all, s);
    } else if Is(line, "run") || Is(line, "arg") {
      CmdsLast(init, all, Cur(init));
      CmdsDescribe(init, all, s, s'.cmds);
    } else {
      assert Split(line).None?;
      SameNames(init, all);
      ClosedKept(init, all, s.graph, Cur(init));
      DepsKept(init, all, Cur(init));
      CmdsKept(init, all, Cur(init));
    }
  }

  lemma {:induction false} StepsDescribe(lines: seq<string>, k: nat)
    requires k <= |lines| && Run(Step, Start, lines, k).Ok?
    ensures Describes(lines[..k], Run(Step, Start, lines, k).value)
  {
    if k == 0 {
      assert lines[..0] == [];
      assert Names([]) == [""];
    } else {
      StepsDescribe(lines, k - 1);
      StepDescribes(lines, k - 1, Run(Step, Start, lines, k - 1).value);
    }
  }

  /** What `build_graph` returns: one target per section, in file order,
      each with the path of its `path` line (the first one also takes the
      lines before it, and is the empty path when there is no `path` line),
      the commands of its `run` lines with the arguments of the `arg` lines
      after each, and the inputs of its `dep` lines; the node map sends each
      path to the last target with that path. */
  lemma BuildGraphDescribed(config: string)
    requires BuildGraphOf(config).Ok?
    ensures var lines := Lines(config); var names := Names(lines); var (g, m) := BuildGraphOf(config).value;
      && |g| == |names|
      && (forall j | 0 <= j < |g| :: g[j] == Node(Target(names[j], CmdsOf(lines, j)), DepsOf(lines, j)))
      && m == MapOf(names)
  {
    var lines := Lines(config);
    AllDescribe(lines);
    PushDescribed(lines, Run(Step, Start, lines, |lines|).value);
  }

  lemma AllDescribe(lines: seq<string>)
    requires Run(Step, Start, lines, |lines|).Ok?
    ensures Describes(lines, Run(Step, Start, lines, |lines|).value)
  {
    assert lines[..|lines|] == lines;
    StepsDescribe(lines, |lines|);
  }

  /** Adding the pending target completes the graph: one target per section. */
  lemma PushDescribed(lines: seq<string>, s: BuildState)
    requires Describes(lines, s)
    ensures var names := Names(lines); var f := Push(s);
      && |f.graph| == |names|
    ensures var names := Names(lines); var f := Push(s);
      (forall j | 0 <= j < |f.graph| :: f.graph[j] == Node(Target(names[j], CmdsOf(lines, j)), DepsOf(lines, j)))
    ensures var names := Names(lines); var f := Push(s);
      f.nodeMap == MapOf(names)
  {
    var names := Names(lines);
    var n := Cur(lines);
    var f := Push(s);
    assert |names| == n + 1;
    assert names[..n] == Closed(lines);
    forall j | 0 <= j < |f.graph|
      ensures f.graph[j] == Node(Target(names[j], CmdsOf(lines, j)), DepsOf(lines, j))
    {
      if j < n {
        assert f.graph[j] == s.graph[j];
      } else {
        assert j == n;
        assert f.graph[j] == Node(Target(s.path, s.cmds), s.inputs);
        assert s.path == names[n] && s.cmds == CmdsOf(lines, n) && s.inputs == DepsOf(lines, n);
      }
    }
    assert MapOf(names) == MapOf(names[..n])[names[n] := n];
  }

  /** The pending target's commands, read off the description. */
  lemma PendingCmds(lines: seq<string>, s: BuildState)
    requires Describes(lines, s)
    ensures s.cmds == CmdsOf(lines, Cur(lines))
  {
  }

  /** A line with a keyword and nothing after it makes `build_graph` panic at
      that line, when the lines before it are accepted. */
  lemma MissingValueFails(config: string, k: nat)
    requires k < |Lines(config)| && Run(Step, Start, Lines(config), k).Ok?
    requires var w := Split(Lines(config)[k]); w.Some? && w.value.value == []
    ensures BuildGraphOf(config) == Err(MissingValue(k, Split(Lines(config)[k]).value.keyword))
  {
    RunFailsAt(Step, Start, Lines(config), k, MissingValue(k, Split(Lines(config)[k]).value.keyword));
  }

  /** A `dep` on a path that no closed target has makes `build_graph` panic
      at that line, when the lines before it are accepted. */
  lemma UnknownDependencyFails(config: string, k: nat)
    requires k < |Lines(config)| && Run(Step, Start, Lines(config), k).Ok?
    requires Is(Lines(config)[k], "dep") && ValueOf(Lines(config)[k]) !in Closed(Lines(config)[..k])
    ensures BuildGraphOf(config) == Err(UnknownDependency(k, ValueOf(Lines(config)[k])))
  {
    var lines := Lines(config);
    StepsDescribe(lines, k);
    MapOfLastIndex(Closed(lines[..k]));
    RunFailsAt(Step, Start, lines, k, UnknownDependency(k, ValueOf(lines[k])));
  }

  /** Without a `run` line among the first k lines in section j, the
      section has no command after them. */
  lemma {:induction false} NoRunNoCmds(lines: seq<string>, k: nat, j: nat)
    requires k <= |lines|
    requires forall i | 0 <= i < k :: Is(lines[i], "run") ==> Cur(lines[..i]) != j
    ensures CmdsOf(lines[..k], j) == []
  {
    if k > 0 {
      NoRunNoCmds(lines, k - 1, j);
      assert lines[..k][..k - 1] == lines[..k - 1];
      assert lines[..k][k - 1] == lines[k - 1];
    }
  }

  /** An `arg` line with no `run` line before it in its section makes
      `build_graph` panic at that line, when the lines before it are
      accepted. */
  lemma ArgBeforeRunFails(config: string, k: nat)
    requires k < |Lines(config)| && Run(Step, Start, Lines(config), k).Ok?
    requires Is(Lines(config)[k], "arg")
    requires forall i | 0 <= i < k :: Is(Lines(config)[i], "run") ==> Cur(Lines(config)[..i]) != Cur(Lines(config)[..k])
    ensures BuildGraphOf(config) == Err(ArgBeforeRun(k))
  {
    ArgWithoutRunFails(Lines(config), k);
  }

  lemma ArgWithoutRunFails(lines: seq<string>, k: nat)
    requires k < |lines| && Run(Step, Start, lines, k).Ok? && Is(lines[k], "arg")
    requires forall i | 0 <= i < k :: Is(lines[i], "run") ==> Cur(lines[..i]) != Cur(lines[..k])
    ensures Run(Step, Start, lines, |lines|) == Err(ArgBeforeRun(k))
  {
    NoRunNoCmds(lines, k, Cur(lines[..k]));
    ArgFails(lines, k);
  }

  lemma ArgFails(lines: seq<string>, k: nat)
    requires k < |lines| && Run(Step, Start, lines, k).Ok?
    requires Is(lines[k], "arg") && CmdsOf(lines[..k], Cur(lines[..k])) == []
    ensures Run(Step, Start, lines, |lines|) == Err(ArgBeforeRun(k))
  {
    StepsDescribe(lines, k);
    var s := Run(Step, Start, lines, k).value;
    PendingCmds(lines[..k], s);
    RunFailsAt(Step, Start, lines, k, ArgBeforeRun(k));
  }

  /** A line whose keyword is none of `path`, `dep`, `run` and `arg` makes
      `build_graph` panic at that line, when the lines before it are
      accepted. */
  lemma UnknownKeywordFails(config: string, k: nat)
    requires k < |Lines(config)| && Run(Step, Start, Lines(config), k).Ok?
    requires var w := Split(Lines(config)[k]);
      w.Some? && w.value.value != [] && w.value.keyword !in {"path", "dep", "run", "arg"}
    ensures BuildGraphOf(config) == Err(UnknownKeyword(k, Split(Lines(config)[k]).value.keyword))
  {
    RunFailsAt(Step, Start, Lines(config), k, UnknownKeyword(k, Split(Lines(config)[k]).value.keyword));
  }
}

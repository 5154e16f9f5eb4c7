/** The hash cache of the token-stream build (src/cache.rs): `write` stores,
    for every target with commands, the hashes of its commands; `read` puts
    hashes found in such a cache back into the `cached_hash` of the
    commands of the targets the node map names. */
module Cache {
  import opened Wrappers
  import opened Wire
  import opened HashCache
  import opened Targets

  function Hashes(cmds: seq<HashCommand>): (hs: seq<u64>)
    ensures |hs| == |cmds| && forall i | 0 <= i < |cmds| :: hs[i] == cmds[i].hash
  {
    seq(|cmds|, i requires 0 <= i < |cmds| => cmds[i].hash)
  }

  /** Every path length and command count fits the cache's u64 fields. */
  predicate WellSized(g: seq<Node>) {
    forall i | 0 <= i < |g| :: Fits(|Encode(g[i].target.path)|) && Fits(|g[i].target.cmds|)
  }

  /** The records `write` emits, in graph order: one for each target with
      at least one command. */
  function Entries(g: seq<Node>): (es: seq<Entry>)
    ensures WellSized(g) ==> Writable(es)
  {
    if g == [] then []
    else
      var t := g[|g| - 1].target;
      assert WellSized(g) ==> WellSized(g[..|g| - 1]) by {
        forall i | 0 <= i < |g| - 1 ensures g[..|g| - 1][i] == g[i] { }
      }
      Entries(g[..|g| - 1]) + if t.cmds != [] then [Entry(t.path, Hashes(t.cmds))] else []
  }

  /** The bytes `write` hands to the cache file. */
  function Serialize(g: seq<Node>): seq<byte>
    requires WellSized(g)
  {
    Records(Entries(g))
  }

  /** The number of bytes of the records of g's targets that have commands. */
  function Size(g: seq<Node>): nat {
    if g == [] then 0
    else
      var t := g[|g| - 1].target;
      Size(g[..|g| - 1]) + if t.cmds != [] then 16 + |Encode(t.path)| + 8 * |t.cmds| else 0
  }

  lemma WellSizedPrefix(g: seq<Node>, n: nat)
    requires WellSized(g) && n <= |g|
    ensures WellSized(g[..n])
  {
    forall i | 0 <= i < n ensures g[..n][i] == g[i] { }
  }

  lemma HashesAppend(cmds: seq<HashCommand>, j: nat)
    requires j < |cmds|
    ensures Hashes(cmds[..j + 1]) == Hashes(cmds[..j]) + [cmds[j].hash]
  {
  }

  /** Each step of `write`'s loop adds the record of one target with
      commands and nothing for a target without. */
  lemma SerializeStep(g: seq<Node>, n: nat)
    requires WellSized(g) && n < |g|
    ensures WellSized(g[..n]) && WellSized(g[..n + 1])
    ensures var t := g[n].target;
      Serialize(g[..n + 1])
      == Serialize(g[..n]) + if t.cmds != [] then Record(t.path, Hashes(t.cmds)) else []
  {
    WellSizedPrefix(g, n);
    WellSizedPrefix(g, n + 1);
    assert g[..n + 1][..n] == g[..n];
    var t := g[n].target;
    var last := if t.cmds != [] then [Entry(t.path, Hashes(t.cmds))] else [];
    RecordsAppend(Entries(g[..n]), last);
    if t.cmds != [] {
      assert Records(last) == Record(t.path, Hashes(t.cmds)) + Records([]);
    }
  }

  /** The body of `write`'s loop for a target with commands: its record. */
  method AppendRecord(raw0: seq<byte>, target: Target) returns (raw: seq<byte>)
    requires Fits(|Encode(target.path)|) && Fits(|target.cmds|)
    ensures raw == raw0 + Record(target.path, Hashes(target.cmds))
  {
    raw := raw0 + U64Le(|Encode(target.path)|);
    raw := raw + Encode(target.path);
    raw := raw + U64Le(|target.cmds|);
    ghost var header := raw;
    for j := 0 to |target.cmds|
      invariant raw == header + HashBytes(Hashes(target.cmds[..j]))
    {
      HashesAppend(target.cmds, j);
      HashBytesAppend(Hashes(target.cmds[..j]), target.cmds[j].hash);
      raw := raw + U64Le(target.cmds[j].hash);
    }
    assert target.cmds[..|target.cmds|] == target.cmds;
    RecordParts(raw0, target.path, Hashes(target.cmds));
  }

  /** `write`: the records of the targets with commands, in graph order. */
  method Write(graph: seq<Node>) returns (raw: seq<byte>)
    requires WellSized(graph)
    ensures raw == Serialize(graph)
  {
    raw := [];
    for n := 0 to |graph|
      invariant WellSized(graph[..n]) && raw == Serialize(graph[..n])
    {
      SerializeStep(graph, n);
      var target := graph[n].target;
      if target.cmds != [] {
        raw := AppendRecord(raw, target);
      }
    }
    assert graph[..|graph|] == graph;
  }

  /** The cache is as long as its records: 16 bytes of counts, the path and
      eight bytes per command for each target with commands. */
  lemma {:induction false} SerializeLength(g: seq<Node>)
    requires WellSized(g)
    ensures |Serialize(g)| == Size(g)
  {
    if g != [] {
      var init := g[..|g| - 1];
      var t := g[|g| - 1].target;
      WellSizedPrefix(g, |g| - 1);
      SerializeLength(init);
      var last := if t.cmds != [] then [Entry(t.path, Hashes(t.cmds))] else [];
      RecordsAppend(Entries(init), last);
      if t.cmds != [] {
        assert Records(last) == Record(t.path, Hashes(t.cmds)) + Records([]);
      }
    }
  }

  // ------------------------------------------------------------- reading

  /** The `cached_hash` of each command. */
  function CachedHashes(cmds: seq<HashCommand>): (s: Slots)
    ensures |s| == |cmds| && forall i | 0 <= i < |cmds| :: s[i] == cmds[i].cachedHash
  {
    seq(|cmds|, i requires 0 <= i < |cmds| => cmds[i].cachedHash)
  }

  // The readers below have twins in `Builder`: src/cache.rs and
  // src/builder.rs each carry their own copy of the cache reader, over
  // their own target types (commands with a fixed hash and a cached one
  // here, commands with one previous hash there), so each module keeps
  // the copy of its source file; the decoder they share is `HashCache`.

  /** The hash slots of the graph, target by target. */
  function Table(g: seq<Node>): (t: seq<Slots>)
    ensures |t| == |g| && forall i | 0 <= i < |g| :: t[i] == CachedHashes(g[i].target.cmds)
  {
    seq(|g|, i requires 0 <= i < |g| => CachedHashes(g[i].target.cmds))
  }

  predicate Shaped(g: seq<Node>, table: seq<Slots>) {
    |table| == |g| && forall i | 0 <= i < |g| :: |table[i]| == |g[i].target.cmds|
  }

  function WithCached(cmds: seq<HashCommand>, slots: Slots): (r: seq<HashCommand>)
    requires |slots| == |cmds|
    ensures |r| == |cmds|
    ensures forall i | 0 <= i < |cmds| :: r[i] == cmds[i].(cachedHash := slots[i])
  {
    seq(|cmds|, i requires 0 <= i < |cmds| => cmds[i].(cachedHash := slots[i]))
  }

  /** The graph with each command's cached hash taken from the table. */
  function Apply(g: seq<Node>, table: seq<Slots>): (h: seq<Node>)
    requires Shaped(g, table)
    ensures |h| == |g|
    ensures forall i | 0 <= i < |g| ::
      h[i] == g[i].(target := g[i].target.(cmds := WithCached(g[i].target.cmds, table[i])))
  {
    seq(|g|, i requires 0 <= i < |g| =>
      g[i].(target := g[i].target.(cmds := WithCached(g[i].target.cmds, table[i]))))
  }

  /** h is g with at most the cached hashes changed: the same targets, paths,
      dependencies, commands and command hashes. */
  predicate SameShape(g: seq<Node>, h: seq<Node>) {
    && |g| == |h|
    && forall i | 0 <= i < |g| ::
         && h[i].deps == g[i].deps
         && h[i].target.path == g[i].target.path
         && |h[i].target.cmds| == |g[i].target.cmds|
         && forall j | 0 <= j < |g[i].target.cmds| ::
              h[i].target.cmds[j].cmd == g[i].target.cmds[j].cmd
              && h[i].target.cmds[j].hash == g[i].target.cmds[j].hash
  }

  /** What `read` leaves in the graph, or why it panics. */
  function ReadCache(g: seq<Node>, nodeMap: map<string, nat>, bs: seq<byte>)
    : (r: Result<seq<Node>, CacheError>)
    ensures r.Ok? ==> SameShape(g, r.value)
    ensures r.Ok? <==> ReadAll(Table(g), nodeMap, bs).Ok?
    ensures r.Ok? ==> Table(r.value) == ReadAll(Table(g), nodeMap, bs).value
  {
    match ReadAll(Table(g), nodeMap, bs)
    case Err(e) => Err(e)
    case Ok(t) =>
      var h := Apply(g, t);
      assert Table(h) == t by {
        forall i | 0 <= i < |g| ensures Table(h)[i] == t[i] { }
      }
      Ok(h)
  }

  /** `read`: the graph after the cache bytes are read into it. */
  method Read(graph: seq<Node>, nodeMap: map<string, nat>, cacheBytes: seq<byte>)
    returns (r: Result<seq<Node>, CacheError>)
    ensures r == ReadCache(graph, nodeMap, cacheBytes)
  {
    var table := ReadInto(Table(graph), nodeMap, cacheBytes);
    if table.Err? {
      return Err(table.error);
    }
    return Ok(Apply(graph, table.value));
  }

  // ---------------------------------------------------------- round trip

  /** Every target sits at the index the node map gives for its path. */
  predicate IndexedByPath(g: seq<Node>, nodeMap: map<string, nat>) {
    forall i | 0 <= i < |g| :: g[i].target.path in nodeMap && nodeMap[g[i].target.path] == i
  }

  /** Every command's cached hash set to its own hash. */
  function MarkCached(g: seq<Node>): (h: seq<Node>)
    ensures |h| == |g|
  {
    seq(|g|, i requires 0 <= i < |g| =>
      var cmds := g[i].target.cmds;
      g[i].(target := g[i].target.(cmds := seq(|cmds|, j requires 0 <= j < |cmds| =>
        cmds[j].(cachedHash := Some(cmds[j].hash))))))
  }

  /** The table after the records of the first n targets are stored. */
  function StoredUpTo(g: seq<Node>, table: seq<Slots>, n: nat): seq<Slots>
    requires |table| == |g|
  {
    seq(|g|, i requires 0 <= i < |g| =>
      if i < n && g[i].target.cmds != [] then Somes(Hashes(g[i].target.cmds)) else table[i])
  }

  lemma {:induction false} StoredEntries(g: seq<Node>, nodeMap: map<string, nat>,
                                         table: seq<Slots>, n: nat)
    requires IndexedByPath(g, nodeMap) && Shaped(g, table) && n <= |g|
    ensures Fills(table, nodeMap, Entries(g[..n]))
    ensures Stored(table, nodeMap, Entries(g[..n])) == StoredUpTo(g, table, n)
  {
    if n == 0 {
      assert Entries(g[..0]) == [];
      assert StoredUpTo(g, table, 0) == table;
    } else {
      StoredEntries(g, nodeMap, table, n - 1);
      StoredEntriesStep(g, nodeMap, table, n - 1);
    }
  }

  /** The records of g[..k + 1]: those of g[..k], then g[k]'s if it has
      commands. */
  lemma EntriesLast(g: seq<Node>, k: nat)
    requires k < |g|
    ensures var t := g[k].target;
      Entries(g[..k + 1]) == Entries(g[..k]) + if t.cmds != [] then [Entry(t.path, Hashes(t.cmds))] else []
  {
    assert g[..k + 1][..k] == g[..k];
  }

  lemma StoredEntriesStep(g: seq<Node>, nodeMap: map<string, nat>, table: seq<Slots>, k: nat)
    requires IndexedByPath(g, nodeMap) && Shaped(g, table) && k < |g|
    requires Fills(table, nodeMap, Entries(g[..k]))
    requires Stored(table, nodeMap, Entries(g[..k])) == StoredUpTo(g, table, k)
    ensures Fills(table, nodeMap, Entries(g[..k + 1]))
    ensures Stored(table, nodeMap, Entries(g[..k + 1])) == StoredUpTo(g, table, k + 1)
  {
    EntriesLast(g, k);
    var es := Entries(g[..k]);
    if g[k].target.cmds != [] {
      StoredOne(g, nodeMap, table, k, es);
    } else {
      assert es + [] == es;
      StoredSkip(g, table, k);
    }
  }

  lemma StoredOne(g: seq<Node>, nodeMap: map<string, nat>, table: seq<Slots>, k: nat, es: seq<Entry>)
    requires IndexedByPath(g, nodeMap) && Shaped(g, table) && k < |g| && g[k].target.cmds != []
    requires Fills(table, nodeMap, es) && Stored(table, nodeMap, es) == StoredUpTo(g, table, k)
    ensures var e := Entry(g[k].target.path, Hashes(g[k].target.cmds));
      && Fills(table, nodeMap, es + [e])
      && Stored(table, nodeMap, es + [e]) == StoredUpTo(g, table, k + 1)
  {
    var e := Entry(g[k].target.path, Hashes(g[k].target.cmds));
    assert Fills(table, nodeMap, [e]);
    StoredAppend(table, nodeMap, es, [e]);
    var s := StoredUpTo(g, table, k);
    assert Stored(s, nodeMap, [e]) == s[k := Somes(e.hashes)];
    assert s[k := Somes(e.hashes)] == StoredUpTo(g, table, k + 1);
  }

  lemma StoredSkip(g: seq<Node>, table: seq<Slots>, k: nat)
    requires |table| == |g| && k < |g| && g[k].target.cmds == []
    ensures StoredUpTo(g, table, k) == StoredUpTo(g, table, k + 1)
  {
    forall i | 0 <= i < |g| ensures StoredUpTo(g, table, k)[i] == StoredUpTo(g, table, k + 1)[i] { }
  }

  lemma MarkedIsApplied(g: seq<Node>)
    ensures Shaped(g, StoredUpTo(g, Table(g), |g|))
    ensures Apply(g, StoredUpTo(g, Table(g), |g|)) == MarkCached(g)
  {
    var filled := StoredUpTo(g, Table(g), |g|);
    var h := Apply(g, filled);
    forall i | 0 <= i < |g| ensures h[i] == MarkCached(g)[i] {
      var cmds := g[i].target.cmds;
      assert WithCached(cmds, filled[i]) == MarkCached(g)[i].target.cmds;
    }
  }

  /** `read` of what `write` produced, with the node map of the graph,
      sets every command's cached hash to its own hash and changes nothing
      else. */
  lemma ReadOfWrite(g: seq<Node>, nodeMap: map<string, nat>)
    requires WellSized(g) && IndexedByPath(g, nodeMap)
    ensures ReadCache(g, nodeMap, Serialize(g)) == Ok(MarkCached(g))
  {
    StoredEntries(g, nodeMap, Table(g), |g|);
    assert g[..|g|] == g;
    ReadAllRecords(Table(g), nodeMap, Entries(g));
    MarkedIsApplied(g);
  }
}

/** The hash-cache file: a sequence of records
      [u64 LE path length][path bytes][u64 LE count][count x u64 LE hash]
    and the decoder that src/cache.rs `read` and src/builder.rs
    `read_hash_cache` share.  The decoder is stated over a table that holds,
    for every graph index, the hash slots of that target's commands; each
    reader projects its own target type onto such a table. */
module HashCache {
  import opened Wrappers
  import opened Wire

  /** A length that a `usize`, and so a `u64`, can hold (64-bit targets). */
  predicate Fits(n: nat) {
    n < 0x1_0000_0000_0000_0000
  }

  function HashBytes(hs: seq<u64>): (bs: seq<byte>)
    ensures |bs| == 8 * |hs|
  {
    if hs == [] then [] else U64Le(hs[0]) + HashBytes(hs[1..])
  }

  /** The bytes of the hashes grow by one hash at a time. */
  lemma {:induction false} HashBytesAppend(hs: seq<u64>, h: u64)
    ensures HashBytes(hs + [h]) == HashBytes(hs) + U64Le(h)
  {
    if hs != [] {
      assert (hs + [h])[1..] == hs[1..] + [h];
      HashBytesAppend(hs[1..], h);
    } else {
      assert HashBytes([h]) == U64Le(h) + HashBytes([]);
    }
  }

  /** A record written piece by piece is the record. */
  lemma RecordParts(raw0: seq<byte>, path: string, hs: seq<u64>)
    requires Fits(|Encode(path)|) && Fits(|hs|)
    ensures raw0 + U64Le(|Encode(path)|) + Encode(path) + U64Le(|hs|) + HashBytes(hs)
         == raw0 + Record(path, hs)
  {
  }

  /** The header of a record: the path's byte length and its bytes. */
  function PathHeader(path: string): seq<byte>
    requires Fits(|Encode(path)|)
  {
    U64Le(|Encode(path)|) + Encode(path)
  }

  /** One record of the cache. */
  function Record(path: string, hashes: seq<u64>): (bs: seq<byte>)
    requires Fits(|Encode(path)|) && Fits(|hashes|)
    ensures |bs| == 16 + |Encode(path)| + 8 * |hashes|
  {
    PathHeader(path) + U64Le(|hashes|) + HashBytes(hashes)
  }

  /** What makes the readers panic: a slice past the end of the bytes, a
      path that is not UTF-8, or a node map entry outside the graph. */
  datatype CacheError = Truncated | InvalidUtf8 | InvalidNodeIndex(path: string, index: nat)

  /** The hash slots of one target's commands. */
  type Slots = seq<Option<u64>>

  function Min(a: nat, b: nat): nat {
    if a < b then a else b
  }

  /** The `take(count)` loop: slots k .. min(count, |slots|) - 1 are filled
      with consecutive hashes read from bs; it fails when bs runs out. */
  function ReadHashes(slots: Slots, k: nat, count: nat, bs: seq<byte>): (r: Result<(Slots, seq<byte>), CacheError>)
    requires k <= |slots|
    ensures var end := Min(count, |slots|);
      && (r.Ok? <==> k >= end || |bs| >= 8 * (end - k))
      && (r.Err? ==> r == Err(Truncated))
      && (r.Ok? ==> |r.value.0| == |slots|)
      && (r.Ok? && k < end ==> r.value.1 == bs[8 * (end - k)..])
      && (r.Ok? && k >= end ==> r.value.1 == bs)
      && (r.Ok? ==> forall i | 0 <= i < |slots| ::
            r.value.0[i] == if k <= i < end then Some(ReadU64(bs[8 * (i - k)..])) else slots[i])
    decreases |slots| - k
  {
    if k >= count || k == |slots| then Ok((slots, bs))
    else if |bs| < 8 then Err(Truncated)
    else
      var r := ReadHashes(slots[k := Some(ReadU64(bs))], k + 1, count, bs[8..]);
      assert r.Ok? && k + 1 < Min(count, |slots|) ==>
        bs[8..][8 * (Min(count, |slots|) - (k + 1))..] == bs[8 * (Min(count, |slots|) - k)..];
      r
  }

  /** One iteration of the readers' `while offset < len` loop: read a path,
      then go on as `ReadFor` says. */
  function ReadRecord(table: seq<Slots>, nodeMap: map<string, nat>, bs: seq<byte>)
    : (r: Result<(seq<Slots>, seq<byte>), CacheError>)
    ensures r.Ok? ==> |r.value.1| + 8 <= |bs|
    ensures r.Ok? ==> |r.value.0| == |table|
                      && forall i | 0 <= i < |table| :: |r.value.0[i]| == |table[i]|
  {
    if |bs| < 8 then Err(Truncated)
    else
      var size := ReadU64(bs);
      if |bs| - 8 < size then Err(Truncated)
      else
        match Decode(bs[8..8 + size])
        case None => Err(InvalidUtf8)
        case Some(path) => ReadFor(table, nodeMap, path, bs[8 + size..])
  }

  /** The rest of a record once its path is read: for a path in the node map
      read a count and that many hashes (at most one per command) into the
      slots of the mapped target; for any other path read nothing more. */
  function ReadFor(table: seq<Slots>, nodeMap: map<string, nat>, path: string, rest: seq<byte>)
    : (r: Result<(seq<Slots>, seq<byte>), CacheError>)
    ensures r.Ok? ==> |r.value.1| <= |rest|
    ensures r.Ok? ==> |r.value.0| == |table|
                      && forall i | 0 <= i < |table| :: |r.value.0[i]| == |table[i]|
  {
    if path !in nodeMap then Ok((table, rest))
    else
      var id := nodeMap[path];
      if id >= |table| then Err(InvalidNodeIndex(path, id))
      else if |rest| < 8 then Err(Truncated)
      else
        match ReadHashes(table[id], 0, ReadU64(rest), rest[8..])
        case Err(e) => Err(e)
        case Ok((slots, rest')) => Ok((table[id := slots], rest'))
  }

  lemma ReadRecordOfHeader(table: seq<Slots>, nodeMap: map<string, nat>, path: string,
                           rest: seq<byte>)
    requires Fits(|Encode(path)|)
    ensures ReadRecord(table, nodeMap, PathHeader(path) + rest) == ReadFor(table, nodeMap, path, rest)
  {
    var p := Encode(path);
    var bs := PathHeader(path) + rest;
    assert bs == U64Le(|p|) + (p + rest);
    ReadU64Le(|p|, p + rest);
    assert bs[8..8 + |p|] == p;
    DecodeEncode(path);
    assert bs[8 + |p|..] == rest;
  }

  /** For a path mapped into the graph with a whole count field after it,
      the rest of the record is the `take(count)` loop on the mapped slots. */
  lemma ReadForMapped(table: seq<Slots>, nodeMap: map<string, nat>, path: string, rest: seq<byte>)
    requires path in nodeMap && nodeMap[path] < |table| && |rest| >= 8
    ensures var id := nodeMap[path];
      ReadFor(table, nodeMap, path, rest)
      == match ReadHashes(table[id], 0, ReadU64(rest), rest[8..])
         case Err(e) => Err(e)
         case Ok((slots, rest')) => Ok((table[id := slots], rest'))
  {
  }

  /** The whole of a reader: records until the bytes are used up. */
  function ReadAll(table: seq<Slots>, nodeMap: map<string, nat>, bs: seq<byte>)
    : (r: Result<seq<Slots>, CacheError>)
    ensures r.Ok? ==> |r.value| == |table|
                      && forall i | 0 <= i < |table| :: |r.value[i]| == |table[i]|
    decreases |bs|
  {
    if bs == [] then Ok(table)
    else
      match ReadRecord(table, nodeMap, bs)
      case Err(e) => Err(e)
      case Ok((t, rest)) => ReadAll(t, nodeMap, rest)
  }

  function Somes(hs: seq<u64>): (s: Slots)
    ensures |s| == |hs| && forall i | 0 <= i < |hs| :: s[i] == Some(hs[i])
  {
    seq(|hs|, i requires 0 <= i < |hs| => Some(hs[i]))
  }

  lemma {:induction false} ReadU64AtHashBytes(hs: seq<u64>, i: nat, rest: seq<byte>)
    requires i < |hs|
    ensures |HashBytes(hs) + rest| >= 8 * i + 8
    ensures ReadU64((HashBytes(hs) + rest)[8 * i..]) == hs[i]
  {
    var tail := HashBytes(hs[1..]) + rest;
    assert HashBytes(hs) + rest == U64Le(hs[0]) + tail;
    if i == 0 {
      ReadU64Le(hs[0], tail);
    } else {
      ReadU64AtHashBytes(hs[1..], i - 1, rest);
      assert (U64Le(hs[0]) + tail)[8 * i..] == tail[8 * (i - 1)..];
    }
  }

  /** The slots after the first |hs| of them, or all of them when there
      are fewer, are overwritten by the hashes hs in order. */
  function Overlay(slots: Slots, hs: seq<u64>): (s: Slots)
    ensures |s| == |slots|
    ensures forall i | 0 <= i < |slots| :: s[i] == if i < |hs| then Some(hs[i]) else slots[i]
  {
    seq(|slots|, i requires 0 <= i < |slots| => if i < |hs| then Some(hs[i]) else slots[i])
  }

  /** Reading back a list of hashes fills the first min(|hs|, |slots|) slots
      with them and leaves the hashes that had no slot, then what follows,
      unread. */
  lemma ReadHashesOfHashBytes(slots: Slots, hs: seq<u64>, rest: seq<byte>)
    ensures ReadHashes(slots, 0, |hs|, HashBytes(hs) + rest)
      == Ok((Overlay(slots, hs), HashBytes(hs)[8 * Min(|hs|, |slots|)..] + rest))
  {
    ReadHashesFilled(slots, hs, rest);
    ReadHashesLeft(slots, hs, rest);
  }

  lemma ReadHashesFilled(slots: Slots, hs: seq<u64>, rest: seq<byte>)
    ensures ReadHashes(slots, 0, |hs|, HashBytes(hs) + rest).Ok?
    ensures ReadHashes(slots, 0, |hs|, HashBytes(hs) + rest).value.0 == Overlay(slots, hs)
  {
    var r := ReadHashes(slots, 0, |hs|, HashBytes(hs) + rest);
    assert r.Ok?;
    ReadHashesSlots(slots, hs, rest, r.value.0);
  }

  lemma ReadHashesLeft(slots: Slots, hs: seq<u64>, rest: seq<byte>)
    ensures ReadHashes(slots, 0, |hs|, HashBytes(hs) + rest).Ok?
    ensures ReadHashes(slots, 0, |hs|, HashBytes(hs) + rest).value.1
            == HashBytes(hs)[8 * Min(|hs|, |slots|)..] + rest
  {
    var end := Min(|hs|, |slots|);
    var bs := HashBytes(hs) + rest;
    var r := ReadHashes(slots, 0, |hs|, bs);
    assert r.Ok?;
    assert bs[8 * (end - 0)..] == HashBytes(hs)[8 * end..] + rest;
  }

  lemma ReadHashesSlots(slots: Slots, hs: seq<u64>, rest: seq<byte>, read: Slots)
    requires |read| == |slots|
    requires forall i | 0 <= i < |slots| ::
      read[i] == if 0 <= i < Min(|hs|, |slots|)
                 then Some(ReadU64((HashBytes(hs) + rest)[8 * (i - 0)..])) else slots[i]
    ensures read == Overlay(slots, hs)
  {
    var o := Overlay(slots, hs);
    forall i | 0 <= i < |slots| ensures read[i] == o[i] {
      ReadSlotAt(slots, hs, rest, i, read[i]);
    }
  }

  /** The slot read at index i holds the i-th hash, if there is one. */
  lemma ReadSlotAt(slots: Slots, hs: seq<u64>, rest: seq<byte>, i: nat, slot: Option<u64>)
    requires i < |slots|
    requires slot == if 0 <= i < Min(|hs|, |slots|)
                     then Some(ReadU64((HashBytes(hs) + rest)[8 * (i - 0)..])) else slots[i]
    ensures slot == if i < |hs| then Some(hs[i]) else slots[i]
  {
    if i < |hs| {
      ReadU64AtHashBytes(hs, i, rest);
    }
  }

  /** A record for a path in the node map overwrites the first
      min(count, |slots|) slots of the mapped target with the recorded
      hashes; hashes beyond the target's commands are left unread, to be
      taken for the next record.  Nothing else changes. */
  lemma ReadRecordMatched(table: seq<Slots>, nodeMap: map<string, nat>, path: string,
                          hashes: seq<u64>, rest: seq<byte>)
    requires Fits(|Encode(path)|) && Fits(|hashes|)
    requires path in nodeMap && nodeMap[path] < |table|
    ensures var id := nodeMap[path];
      ReadRecord(table, nodeMap, Record(path, hashes) + rest)
      == Ok((table[id := Overlay(table[id], hashes)],
             HashBytes(hashes)[8 * Min(|hashes|, |table[id]|)..] + rest))
  {
    var after := U64Le(|hashes|) + (HashBytes(hashes) + rest);
    assert Record(path, hashes) + rest == PathHeader(path) + after;
    ReadRecordOfHeader(table, nodeMap, path, after);
    ReadU64Le(|hashes|, HashBytes(hashes) + rest);
    assert after[8..] == HashBytes(hashes) + rest;
    ReadHashesOfHashBytes(table[nodeMap[path]], hashes, rest);
  }

  /** When the target has exactly one slot per recorded hash, the record is
      read whole and every slot holds its hash. */
  lemma ReadRecordExact(table: seq<Slots>, nodeMap: map<string, nat>, path: string,
                        hashes: seq<u64>, rest: seq<byte>)
    requires Fits(|Encode(path)|) && Fits(|hashes|)
    requires path in nodeMap && nodeMap[path] < |table| && |table[nodeMap[path]]| == |hashes|
    ensures ReadRecord(table, nodeMap, Record(path, hashes) + rest)
            == Ok((table[nodeMap[path] := Somes(hashes)], rest))
  {
    ReadRecordMatched(table, nodeMap, path, hashes, rest);
    assert Overlay(table[nodeMap[path]], hashes) == Somes(hashes);
    assert HashBytes(hashes)[8 * |hashes|..] == [];
  }

  /** For a path missing from the node map a reader moves past the length
      and the path bytes only: what follows is read as the next record. */
  lemma ReadRecordUnmatched(table: seq<Slots>, nodeMap: map<string, nat>, path: string,
                            rest: seq<byte>)
    requires Fits(|Encode(path)|) && path !in nodeMap
    ensures ReadRecord(table, nodeMap, PathHeader(path) + rest) == Ok((table, rest))
  {
    ReadRecordOfHeader(table, nodeMap, path, rest);
  }

  /** Cache bytes shorter than one length field make the reader fail. */
  lemma ReadAllTruncated(table: seq<Slots>, nodeMap: map<string, nat>, bs: seq<byte>)
    requires 0 < |bs| < 8
    ensures ReadAll(table, nodeMap, bs) == Err(Truncated)
  {
  }

  /** A length field that promises more path bytes than follow makes the
      reader fail. */
  lemma ReadAllPathTruncated(table: seq<Slots>, nodeMap: map<string, nat>, n: nat, p: seq<byte>)
    requires Fits(n) && |p| < n
    ensures ReadAll(table, nodeMap, U64Le(n) + p) == Err(Truncated)
  {
    ReadU64Le(n, p);
  }

  /** A mapped path whose index lies outside the graph makes the reader
      fail, whatever follows its header. */
  lemma ReadAllInvalidNodeIndex(table: seq<Slots>, nodeMap: map<string, nat>, path: string,
                                rest: seq<byte>)
    requires Fits(|Encode(path)|) && path in nodeMap && nodeMap[path] >= |table|
    ensures ReadAll(table, nodeMap, PathHeader(path) + rest)
            == Err(InvalidNodeIndex(path, nodeMap[path]))
  {
    ReadRecordOfHeader(table, nodeMap, path, rest);
  }

  /** A mapped path followed by fewer than eight bytes, so by no whole count
      field, makes the reader fail. */
  lemma ReadAllCountTruncated(table: seq<Slots>, nodeMap: map<string, nat>, path: string,
                              c: seq<byte>)
    requires Fits(|Encode(path)|) && path in nodeMap && nodeMap[path] < |table| && |c| < 8
    ensures ReadAll(table, nodeMap, PathHeader(path) + c) == Err(Truncated)
  {
    ReadRecordOfHeader(table, nodeMap, path, c);
  }

  /** A mapped path whose count asks for more hashes (up to one per command)
      than the bytes hold makes the reader fail. */
  lemma ReadAllHashesTruncated(table: seq<Slots>, nodeMap: map<string, nat>, path: string,
                               count: nat, hs: seq<byte>)
    requires Fits(|Encode(path)|) && Fits(count)
    requires path in nodeMap && nodeMap[path] < |table|
    requires |hs| < 8 * Min(count, |table[nodeMap[path]]|)
    ensures ReadAll(table, nodeMap, PathHeader(path) + (U64Le(count) + hs)) == Err(Truncated)
  {
    ReadRecordOfHeader(table, nodeMap, path, U64Le(count) + hs);
    ReadU64Le(count, hs);
    assert (U64Le(count) + hs)[8..] == hs;
  }

  /** A record the node map takes in, with one slot per hash, is read whole
      and reading goes on with what follows it. */
  lemma ReadAllRecordThen(table: seq<Slots>, nodeMap: map<string, nat>, e: Entry, bs: seq<byte>)
    requires Fits(|Encode(e.path)|) && Fits(|e.hashes|)
    requires e.path in nodeMap && nodeMap[e.path] < |table| && |table[nodeMap[e.path]]| == |e.hashes|
    ensures ReadAll(table, nodeMap, Record(e.path, e.hashes) + bs)
            == ReadAll(table[nodeMap[e.path] := Somes(e.hashes)], nodeMap, bs)
  {
    ReadRecordExact(table, nodeMap, e.path, e.hashes, bs);
  }

  /** Records the node map takes in are read one after the other: what
      follows them is read into the table they leave behind, so a failure in
      a later record is the failure of the whole read. */
  lemma {:induction false} ReadAllAfterRecords(table: seq<Slots>, nodeMap: map<string, nat>,
                                               es: seq<Entry>, bs: seq<byte>)
    requires Writable(es) && Fills(table, nodeMap, es)
    ensures ReadAll(table, nodeMap, Records(es) + bs) == ReadAll(Stored(table, nodeMap, es), nodeMap, bs)
    decreases |es|
  {
    if es == [] {
      assert Records(es) + bs == bs;
    } else {
      var e := es[0];
      WritableTail(es);
      FillsTail(table, nodeMap, es);
      var t := table[nodeMap[e.path] := Somes(e.hashes)];
      var tail := Records(es[1..]) + bs;
      assert Records(es) + bs == Record(e.path, e.hashes) + tail;
      assert Stored(table, nodeMap, es) == Stored(t, nodeMap, es[1..]);
      ReadAllRecordThen(table, nodeMap, e, tail);
      ReadAllAfterRecords(t, nodeMap, es[1..], bs);
    }
  }

  lemma WritableTail(es: seq<Entry>)
    requires es != [] && Writable(es)
    ensures Writable(es[1..])
  {
    forall k | 0 <= k < |es| - 1
      ensures Fits(|Encode(es[1..][k].path)|) && Fits(|es[1..][k].hashes|)
    {
      assert es[1..][k] == es[k + 1];
    }
  }

  /** A path that is not UTF-8 makes the reader fail. */
  lemma ReadAllInvalidUtf8(table: seq<Slots>, nodeMap: map<string, nat>, p: seq<byte>,
                           rest: seq<byte>)
    requires Fits(|p|) && Decode(p).None?
    ensures ReadAll(table, nodeMap, U64Le(|p|) + p + rest) == Err(InvalidUtf8)
  {
    var bs := U64Le(|p|) + p + rest;
    assert bs == U64Le(|p|) + (p + rest);
    ReadU64Le(|p|, p + rest);
    assert bs[8..8 + |p|] == p;
  }

  // ------------------------------------------------ the decoder as a loop

  /** The loop both readers run: `offset` walks the bytes record by record
      and the hash slots of a matched target are replaced one at a time. */
  method ReadInto(table: seq<Slots>, nodeMap: map<string, nat>, bytes: seq<byte>)
    returns (r: Result<seq<Slots>, CacheError>)
    ensures r == ReadAll(table, nodeMap, bytes)
  {
    var t := table;
    var offset := 0;
    while offset < |bytes|
      invariant offset <= |bytes|
      invariant ReadAll(t, nodeMap, bytes[offset..]) == ReadAll(table, nodeMap, bytes)
      decreases |bytes| - offset
    {
      ghost var bs := bytes[offset..];
      if |bytes| - offset < 8 {
        return Err(Truncated);
      }
      var pathSize := ReadU64(bytes[offset..]);
      offset := offset + 8;
      if |bytes| - offset < pathSize {
        return Err(Truncated);
      }
      assert bytes[offset..offset + pathSize] == bs[8..8 + pathSize];
      var path := Decode(bytes[offset..offset + pathSize]);
      if path.None? {
        return Err(InvalidUtf8);
      }
      offset := offset + pathSize;
      assert bytes[offset..] == bs[8 + pathSize..];
      assert ReadRecord(t, nodeMap, bs) == ReadFor(t, nodeMap, path.value, bytes[offset..]);
      if path.value in nodeMap {
        var id := nodeMap[path.value];
        if id >= |t| {
          return Err(InvalidNodeIndex(path.value, id));
        }
        if |bytes| - offset < 8 {
          return Err(Truncated);
        }
        ghost var rest := bytes[offset..];
        var numCmds := ReadU64(bytes[offset..]);
        offset := offset + 8;
        assert bytes[offset..] == rest[8..];
        var read := ReadSlots(t[id], numCmds, bytes, offset);
        ReadForMapped(t, nodeMap, path.value, rest);
        if read.Err? {
          return Err(read.error);
        }
        var slots;
        slots, offset := read.value.0, read.value.1;
        t := t[id := slots];
      }
    }
    return Ok(t);
  }

  /** The `take(num_cmds)` loop: fill slots from bytes at offset, returning
      the new slots and the offset after the last hash read. */
  method ReadSlots(slots0: Slots, numCmds: nat, bytes: seq<byte>, offset0: nat)
    returns (r: Result<(Slots, nat), CacheError>)
    requires offset0 <= |bytes|
    ensures r.Err? ==> ReadHashes(slots0, 0, numCmds, bytes[offset0..]) == Err(r.error)
    ensures r.Ok? ==> r.value.1 <= |bytes|
                      && ReadHashes(slots0, 0, numCmds, bytes[offset0..]) == Ok((r.value.0, bytes[r.value.1..]))
  {
    var slots, offset: nat, i := slots0, offset0, 0;
    while i < |slots| && i < numCmds
      invariant i <= |slots| == |slots0| && offset <= |bytes|
      invariant ReadHashes(slots, i, numCmds, bytes[offset..]) == ReadHashes(slots0, 0, numCmds, bytes[offset0..])
      decreases |slots| - i
    {
      if |bytes| - offset < 8 {
        return Err(Truncated);
      }
      slots := slots[i := Some(ReadU64(bytes[offset..]))];
      assert bytes[offset..][8..] == bytes[offset + 8..];
      offset := offset + 8;
      i := i + 1;
    }
    return Ok((slots, offset));
  }

  // ----------------------------------------------- whole caches of records

  /** What one record carries: a target's path and its command hashes. */
  datatype Entry = Entry(path: string, hashes: seq<u64>)

  predicate Writable(es: seq<Entry>) {
    forall k | 0 <= k < |es| :: Fits(|Encode(es[k].path)|) && Fits(|es[k].hashes|)
  }

  /** The records of the entries, one after the other. */
  function Records(es: seq<Entry>): seq<byte>
    requires Writable(es)
  {
    if es == [] then [] else Record(es[0].path, es[0].hashes) + Records(es[1..])
  }

  lemma {:induction false} RecordsAppend(a: seq<Entry>, b: seq<Entry>)
    requires Writable(a) && Writable(b)
    ensures Writable(a + b) && Records(a + b) == Records(a) + Records(b)
  {
    if a != [] {
      assert (a + b)[1..] == a[1..] + b;
      RecordsAppend(a[1..], b);
    } else {
      assert a + b == b;
    }
  }

  /** Every entry names a path of the node map whose target has one slot per
      recorded hash. */
  predicate Fills(table: seq<Slots>, nodeMap: map<string, nat>, es: seq<Entry>) {
    forall k | 0 <= k < |es| ::
      es[k].path in nodeMap && nodeMap[es[k].path] < |table|
      && |table[nodeMap[es[k].path]]| == |es[k].hashes|
  }

  lemma FillsTail(table: seq<Slots>, nodeMap: map<string, nat>, es: seq<Entry>)
    requires es != [] && Fills(table, nodeMap, es)
    ensures Fills(table[nodeMap[es[0].path] := Somes(es[0].hashes)], nodeMap, es[1..])
  {
    var t := table[nodeMap[es[0].path] := Somes(es[0].hashes)];
    forall k | 0 <= k < |es| - 1 ensures |t[nodeMap[es[1..][k].path]]| == |es[1..][k].hashes| {
      assert es[1..][k] == es[k + 1];
    }
  }

  /** The table once each entry in turn has stored its hashes in the slots
      of its mapped target. */
  function Stored(table: seq<Slots>, nodeMap: map<string, nat>, es: seq<Entry>): (t: seq<Slots>)
    requires Fills(table, nodeMap, es)
    ensures |t| == |table| && forall i | 0 <= i < |t| :: |t[i]| == |table[i]|
    decreases |es|
  {
    if es == [] then table
    else
      FillsTail(table, nodeMap, es);
      Stored(table[nodeMap[es[0].path] := Somes(es[0].hashes)], nodeMap, es[1..])
  }

  /** Reading a cache written from entries that all match the node map
      stores every entry's hashes, later entries over earlier ones. */
  lemma {:induction false} ReadAllRecords(table: seq<Slots>, nodeMap: map<string, nat>, es: seq<Entry>)
    requires Writable(es) && Fills(table, nodeMap, es)
    ensures ReadAll(table, nodeMap, Records(es)) == Ok(Stored(table, nodeMap, es))
    decreases |es|
  {
    if es != [] {
      var e := es[0];
      var t := table[nodeMap[e.path] := Somes(e.hashes)];
      assert Writable(es[1..]) by {
        forall k | 0 <= k < |es| - 1
          ensures Fits(|Encode(es[1..][k].path)|) && Fits(|es[1..][k].hashes|)
        {
          assert es[1..][k] == es[k + 1];
        }
      }
      ReadRecordExact(table, nodeMap, e.path, e.hashes, Records(es[1..]));
      FillsTail(table, nodeMap, es);
      ReadAllRecords(t, nodeMap, es[1..]);
    }
  }

  lemma {:induction false} StoredAppend(table: seq<Slots>, nodeMap: map<string, nat>,
                                        a: seq<Entry>, b: seq<Entry>)
    requires Fills(table, nodeMap, a) && Fills(table, nodeMap, b)
    ensures Fills(table, nodeMap, a + b) && Fills(Stored(table, nodeMap, a), nodeMap, b)
    ensures Stored(table, nodeMap, a + b) == Stored(Stored(table, nodeMap, a), nodeMap, b)
    decreases |a|
  {
    if a == [] {
      assert a + b == b;
    } else {
      assert (a + b)[1..] == a[1..] + b;
      FillsTail(table, nodeMap, a);
      var t := table[nodeMap[a[0].path] := Somes(a[0].hashes)];
      assert Fills(t, nodeMap, b);
      StoredAppend(t, nodeMap, a[1..], b);
    }
  }
}

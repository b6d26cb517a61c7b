/**
 The menu's combined-report option (lines 158-164 of the inspector): write
 the shards, merge them into the combined report, then delete the shards.
 The properties here relate the writer and the merger: sharding then
 merging gives back every entry, in key order, numbered 1..N.
 */
module Pipeline {
  import opened Wrappers
  import opened Strings
  import opened ReportFiles
  import opened Shards
  import opened Merge
  import Inspection

  /** `listing` names every file of `dir` exactly once, as `os.listdir` does. */
  ghost predicate Enumerates(listing: seq<string>, dir: Directory)
  {
    Distinct(listing) && forall f :: f in listing <==> f in dir
  }

  /**
   A name that survives a shard line and its parsing: no `": "` inside, no
   whitespace at either end, and no line break, so that reading the shard
   back in text mode sees one line per entry.
   */
  predicate PlainName(name: string)
  {
    && !Contains(name, Separator)
    && (|name| > 0 ==> !IsSpace(name[0]) && !IsSpace(name[|name| - 1]))
    && (forall i :: 0 <= i < |name| ==> name[i] != '\n' && name[i] != '\r')
  }

  /** The rows the combined report should hold: entry `i` as row `i + 1`. */
  function ExpectedRows(keys: seq<string>, sizes: map<string, nat>): (rows: seq<Row>)
    requires Sized(keys, sizes)
    ensures |rows| == |keys|
    ensures forall i :: 0 <= i < |keys| ==> rows[i] == Row(i + 1, keys[i], SizeText(sizes[keys[i]]))
  {
    seq(|keys|, i requires 0 <= i < |keys| && Sized(keys, sizes) =>
                  Row(i + 1, keys[i], SizeText(sizes[keys[i]])))
  }

  /** How the menu option ends: an escaping sort-key error, or the directory after cleanup. */
  datatype MenuOutcome = Crashed | Finished(dir: Directory, rows: seq<Row>, complete: bool)

  /**
   Generate, combine, clean up. `listing` is the listing the merge takes,
   after the shards are written. A sort-key error escapes `combine_reports`
   and skips the cleanup; an unpacking error is swallowed inside it, so the
   cleanup still runs.
   */
  function GenerateCombineClean(dir: Directory, keys: seq<string>, sizes: map<string, nat>,
                                listing: seq<string>, fmt: Format): MenuOutcome
    requires Sized(keys, sizes)
    requires forall f :: f in listing ==> f in Generate(dir, keys, sizes, fmt)
  {
    var d := Generate(dir, keys, sizes, fmt);
    match Combine(d, listing, fmt)
    case SortKeyError => Crashed
    case Combined(d', _, rows, complete) => Finished(Cleanup(d', fmt), rows, complete)
  }

  /**
   After the menu option finishes, whether or not every line was merged: no
   shard file of the format remains, the combined report holds the header
   and the rows, and every other file that was there before is unchanged.
   */
  lemma AfterCleanup(dir: Directory, keys: seq<string>, sizes: map<string, nat>,
                     listing: seq<string>, fmt: Format)
    requires Sized(keys, sizes)
    requires forall f :: f in listing ==> f in Generate(dir, keys, sizes, fmt)
    ensures var o := GenerateCombineClean(dir, keys, sizes, listing, fmt);
      o.Finished? ==>
      && (forall f :: f in o.dir ==> !IsShardName(f, fmt))
      && CombinedName(fmt) in o.dir
      && o.dir[CombinedName(fmt)] == Render(o.rows, fmt)
      && (forall f :: f in dir && !IsShardName(f, fmt) && f != CombinedName(fmt) ==> f in o.dir && o.dir[f] == dir[f])
  {
    GeneratePreservesOthers(dir, keys, sizes, fmt);
    CombinedIsNotShard(fmt, fmt);
  }

  /** Writing the shards leaves every file outside the shard filter in place. */
  lemma GeneratePreservesOthers(dir: Directory, keys: seq<string>, sizes: map<string, nat>, fmt: Format)
    requires Sized(keys, sizes)
    ensures forall f :: f in dir && !IsShardName(f, fmt) ==>
              f in Generate(dir, keys, sizes, fmt) && Generate(dir, keys, sizes, fmt)[f] == dir[f]
  {
    GenerateContents(dir, keys, sizes, fmt);
    forall f | f in dir && !IsShardName(f, fmt)
      ensures f !in ShardNames(Ranges(|keys|), fmt)
    {
      if f in ShardNames(Ranges(|keys|), fmt) {
        var r :| r in Ranges(|keys|) && f == ShardFileName(r.start, r.end, fmt);
        ShardFileNameMatches(r.start, r.end, fmt, fmt);
      }
    }
  }

  // ---------------------------------------------------------------------------
  // The shard -> merge round trip
  // ---------------------------------------------------------------------------

  /** The shard file names of `rs`, in range order. */
  function ShardOrder(rs: seq<Range>, fmt: Format): (names: seq<string>)
    ensures |names| == |rs|
    ensures forall k :: 0 <= k < |rs| ==> names[k] == ShardFileName(rs[k].start, rs[k].end, fmt)
  {
    seq(|rs|, k requires 0 <= k < |rs| => ShardFileName(rs[k].start, rs[k].end, fmt))
  }

  /** The shard file names of `rs` paired with their start indices. */
  function KeyedShards(rs: seq<Range>, fmt: Format): (s: seq<Keyed>)
    ensures |s| == |rs|
    ensures forall k :: 0 <= k < |rs| ==> s[k] == (rs[k].start, ShardFileName(rs[k].start, rs[k].end, fmt))
  {
    seq(|rs|, k requires 0 <= k < |rs| => (rs[k].start, ShardFileName(rs[k].start, rs[k].end, fmt)))
  }

  lemma SliceConcat<T>(s: seq<T>, i: nat, j: nat, n: nat)
    requires i <= j <= n <= |s|
    ensures s[i..n] == s[i..j] + s[j..n]
  {
  }

  lemma SliceAll<T>(s: seq<T>)
    ensures s[0..|s|] == s
  {
  }

  /**
   Reading the files `names`, where file `k` holds the lines of range `k`
   and the ranges are contiguous from `i` to `n`, gives back `lines[i..n]`.
   */
  lemma {:induction false} GatherShards(d: Directory, lines: seq<string>, rs: seq<Range>, names: seq<string>, i: nat, n: nat)
    requires i <= n <= |lines|
    requires |names| == |rs|
    requires |rs| == 0 ==> i == n
    requires |rs| > 0 ==> rs[0].start == i && rs[|rs| - 1].end == n
    requires forall k :: 0 <= k < |rs| - 1 ==> rs[k].end == rs[k + 1].start
    requires forall k :: 0 <= k < |rs| ==>
               rs[k].start <= rs[k].end <= n && names[k] in d && d[names[k]] == lines[rs[k].start..rs[k].end]
    ensures forall f :: f in names ==> f in d
    ensures Gather(d, names) == lines[i..n]
    decreases |rs|
  {
    if |rs| > 0 {
      var j := rs[0].end;
      GatherShards(d, lines, rs[1..], names[1..], j, n);
      SliceConcat(lines, i, j, n);
    }
  }

  /** No `": "` starts inside a name free of it, whatever follows the separator. */
  lemma SeparatorAfterName(name: string, rest: string)
    requires !Contains(name, Separator)
    ensures NoMatchBefore(name + Separator + rest, |name|, Separator)
  {
    var line := name + Separator + rest;
    forall k | 0 <= k < |name|
      ensures !MatchAt(line, k, Separator)
    {
      assert |Separator| == 2;
      if k + 2 <= |name| {
        assert line[k..k + 2] == name[k..k + 2];
        assert !MatchAt(name, k, Separator);
      } else {
        assert k + 1 == |name| && line[k + 1] == ':';
        assert line[k..k + 2][1] == ':' != Separator[1];
      }
    }
  }

  /** The size text `"{size} bytes"` holds no `':'`, so no `": "`. */
  lemma SizeTextPlain(size: nat)
    ensures !Contains(SizeText(size), Separator)
  {
    var sizeText := SizeText(size);
    assert forall i :: 0 <= i < |sizeText| ==> sizeText[i] != ':';
    NoLeadChar(sizeText, "", Separator);
  }

  /** A line that splits into two unpadded halves unpacks into exactly those halves. */
  lemma RowOfPair(line: string, a: string, b: string, serial: nat)
    requires Split(line, Separator) == [a, b]
    requires |a| > 0 ==> !IsSpace(a[0]) && !IsSpace(a[|a| - 1])
    requires |b| > 0 ==> !IsSpace(b[0]) && !IsSpace(b[|b| - 1])
    ensures Contains(line, Separator) && Unpackable(line)
    ensures RowOf(line, serial) == Row(serial, a, b)
  {
    SplitCountContains(line, Separator);
    StripUnpadded(a);
    StripUnpadded(b);
  }

  /** One shard line of a plain name splits back into the name and its size text. */
  lemma LineRoundTrip(name: string, size: nat, serial: nat)
    requires PlainName(name)
    ensures Contains(ShardLine(name, size), Separator)
    ensures Unpackable(ShardLine(name, size))
    ensures RowOf(ShardLine(name, size), serial) == Row(serial, name, SizeText(size))
  {
    var sizeText := SizeText(size);
    SeparatorAfterName(name, sizeText);
    SizeTextPlain(size);
    SplitPair(name, sizeText, Separator);
    RowOfPair(name + Separator + sizeText, name, sizeText, serial);
  }

  /** When every line contains the separator, every line is kept. */
  lemma {:induction false} KeptEverything(lines: seq<string>)
    requires forall i :: 0 <= i < |lines| ==> Contains(lines[i], Separator)
    ensures Kept(lines) == lines
    decreases |lines|
  {
    if |lines| > 0 {
      KeptEverything(lines[1..]);
    }
  }

  /** Parsing the lines of a whole key list yields exactly the expected rows. */
  lemma ParseEntryLines(keys: seq<string>, sizes: map<string, nat>)
    requires Sized(keys, sizes)
    requires forall i :: 0 <= i < |keys| ==> PlainName(keys[i])
    ensures ParseLines(EntryLines(keys, sizes), 1) == Parsed(ExpectedRows(keys, sizes), false)
  {
    var lines := EntryLines(keys, sizes);
    forall i | 0 <= i < |lines|
      ensures Contains(lines[i], Separator) && Unpackable(lines[i])
      ensures RowOf(lines[i], i + 1) == Row(i + 1, keys[i], SizeText(sizes[keys[i]]))
    {
      LineRoundTrip(keys[i], sizes[keys[i]], i + 1);
    }
    KeptEverything(lines);
    ParseLinesAbort(lines, 1);
    ParseLinesNumbering(lines, 1);
    var p := ParseLines(lines, 1);
    assert p.rows == ExpectedRows(keys, sizes);
  }

  /** In a list without repeats every element occurs once. */
  lemma {:induction false} DistinctCount<T>(s: seq<T>, x: T)
    requires Distinct(s)
    ensures multiset(s)[x] == if x in s then 1 else 0
    decreases |s|
  {
    if |s| > 0 {
      var tail := s[1..];
      assert Distinct(tail) by {
        forall p, q | 0 <= p < q < |tail|
          ensures tail[p] != tail[q]
        {
          assert tail[p] == s[p + 1] && tail[q] == s[q + 1];
        }
      }
      DistinctCount(tail, x);
      assert s == [s[0]] + tail;
      assert multiset(s) == multiset{s[0]} + multiset(tail);
      assert x in s <==> x == s[0] || x in tail;
      forall q | 0 <= q < |tail|
        ensures tail[q] != s[0]
      {
        assert tail[q] == s[q + 1];
      }
    }
  }

  /** Distinct sequences holding the same elements are rearrangements of each other. */
  lemma DistinctSameElements<T>(a: seq<T>, b: seq<T>)
    requires Distinct(a) && Distinct(b)
    requires forall x :: x in a <==> x in b
    ensures multiset(a) == multiset(b)
  {
    forall x
      ensures multiset(a)[x] == multiset(b)[x]
    {
      DistinctCount(a, x);
      DistinctCount(b, x);
    }
  }

  /** The shard names of `rs` as a set and in range order hold the same names. */
  lemma ShardNamesInOrder(rs: seq<Range>, fmt: Format)
    ensures forall f :: f in ShardNames(rs, fmt) <==> f in ShardOrder(rs, fmt)
  {
    var order := ShardOrder(rs, fmt);
    forall f | f in ShardNames(rs, fmt)
      ensures f in order
    {
      var r :| r in rs && f == ShardFileName(r.start, r.end, fmt);
      var k :| 0 <= k < |rs| && rs[k] == r;
      assert order[k] == f;
    }
    forall f | f in order
      ensures f in ShardNames(rs, fmt)
    {
      var k :| 0 <= k < |rs| && order[k] == f;
      assert rs[k] in rs;
    }
  }

  /**
   The files the merge selects after the writer ran in a directory without
   stale shards: exactly the shard files of the key list.
   */
  lemma SelectedShards(dir: Directory, keys: seq<string>, sizes: map<string, nat>,
                       listing: seq<string>, fmt: Format)
    requires Sized(keys, sizes)
    requires forall f :: f in dir ==> !IsShardName(f, fmt)
    requires Enumerates(listing, Generate(dir, keys, sizes, fmt))
    ensures forall f :: f in Select(listing, fmt) <==> f in ShardOrder(Ranges(|keys|), fmt)
  {
    var rs := Ranges(|keys|);
    var order := ShardOrder(rs, fmt);
    GenerateContents(dir, keys, sizes, fmt);
    ShardNamesInOrder(rs, fmt);
    forall f | f in order
      ensures IsShardName(f, fmt)
    {
      var k :| 0 <= k < |rs| && order[k] == f;
      ShardFileNameMatches(rs[k].start, rs[k].end, fmt, fmt);
    }
  }

  /** Non-empty ranges, each ending at or before the next one starts. */
  predicate Ascending(rs: seq<Range>)
  {
    && (forall k :: 0 <= k < |rs| ==> rs[k].start < rs[k].end)
    && (forall k1, k2 :: 0 <= k1 < k2 < |rs| ==> rs[k1].end <= rs[k2].start)
  }

  /**
   For ascending ranges the shard names paired with their starts are sorted
   by key, no key repeats, and their names are the shard order.
   */
  lemma KeyedShardsSorted(rs: seq<Range>, fmt: Format)
    requires Ascending(rs)
    ensures var e := KeyedShards(rs, fmt);
      Distinct(e) && KeysUnique(e) && SortedByKey(e)
  {
    var e := KeyedShards(rs, fmt);
    forall p, q | 0 <= p < q < |e|
      ensures e[p].0 < e[q].0
    {
      assert rs[p].end <= rs[q].start;
    }
    StrictlyKeyed(e);
  }

  /** Keys that strictly increase are sorted and unique, so the pairs are distinct. */
  lemma StrictlyKeyed(e: seq<Keyed>)
    requires forall p, q :: 0 <= p < q < |e| ==> e[p].0 < e[q].0
    ensures Distinct(e) && KeysUnique(e) && SortedByKey(e)
  {
    forall x, y | x in e && y in e && x.0 == y.0
      ensures x == y
    {
      var p :| 0 <= p < |e| && e[p] == x;
      var q :| 0 <= q < |e| && e[q] == y;
      assert p == q;
    }
  }

  /** A shard name of `rs` names range `k`, and its sort key is that range's start. */
  lemma ShardPosition(f: string, rs: seq<Range>, fmt: Format) returns (k: nat)
    requires f in ShardOrder(rs, fmt)
    ensures k < |rs| && f == ShardFileName(rs[k].start, rs[k].end, fmt) && SortKey(f) == Some(rs[k].start)
  {
    var order := ShardOrder(rs, fmt);
    k :| 0 <= k < |rs| && order[k] == f;
    SortKeyOfShard(rs[k].start, rs[k].end, fmt);
  }

  /**
   When the selected files are exactly the shard files of `rs`, each once,
   every sort key parses, and the keyed selection holds exactly the shard
   names paired with their starts, each once.
   */
  lemma KeyedSelection(sel: seq<string>, rs: seq<Range>, fmt: Format)
    requires Distinct(sel)
    requires forall f :: f in sel <==> f in ShardOrder(rs, fmt)
    ensures KeyAll(sel).Some?
    ensures Distinct(KeyAll(sel).value)
    ensures forall x :: x in KeyAll(sel).value <==> x in KeyedShards(rs, fmt)
  {
    var order := ShardOrder(rs, fmt);
    var e := KeyedShards(rs, fmt);
    forall i | 0 <= i < |sel|
      ensures SortKey(sel[i]).Some?
    {
      assert sel[i] in order;
      var k := ShardPosition(sel[i], rs, fmt);
    }
    var ks := KeyAll(sel).value;
    forall x | x in ks
      ensures x in e
    {
      var i :| 0 <= i < |ks| && ks[i] == x;
      assert sel[i] in order;
      var k := ShardPosition(sel[i], rs, fmt);
      assert e[k] == x;
    }
    forall x | x in e
      ensures x in ks
    {
      var k :| 0 <= k < |rs| && e[k] == x;
      assert order[k] in sel;
      var i :| 0 <= i < |sel| && sel[i] == order[k];
      SortKeyOfShard(rs[k].start, rs[k].end, fmt);
      assert ks[i] == x;
    }
    forall p, q | 0 <= p < q < |ks|
      ensures ks[p] != ks[q]
    {
      assert ks[p].1 == sel[p] && ks[q].1 == sel[q];
    }
  }

  /**
   The merge reads the shards in range order: sorting the selected files by
   their parsed start index gives the shard names of `Ranges(n)` in order,
   whatever order the directory listed them in.
   */
  lemma MergeReadsRangeOrder(dir: Directory, keys: seq<string>, sizes: map<string, nat>,
                             listing: seq<string>, fmt: Format)
    requires Sized(keys, sizes)
    requires forall f :: f in dir ==> !IsShardName(f, fmt)
    requires Enumerates(listing, Generate(dir, keys, sizes, fmt))
    ensures KeyAll(Select(listing, fmt)).Some?
    ensures NamesOf(SortByKey(KeyAll(Select(listing, fmt)).value)) == ShardOrder(Ranges(|keys|), fmt)
  {
    RangesAscending(|keys|);
    SelectedShards(dir, keys, sizes, listing, fmt);
    SortedSelection(Select(listing, fmt), Ranges(|keys|), fmt);
  }

  /** The ranges of `n` run contiguously from 0 to `n`. */
  lemma RangesTile(n: nat)
    ensures var rs := Ranges(n);
      && (|rs| == 0 ==> n == 0)
      && (|rs| > 0 ==> rs[0].start == 0 && rs[|rs| - 1].end == n)
      && (forall k :: 0 <= k < |rs| - 1 ==> rs[k].end == rs[k + 1].start)
      && (forall k :: 0 <= k < |rs| ==> rs[k].start <= rs[k].end <= n)
  {
    Partition(n);
  }

  lemma RangesAscending(n: nat)
    ensures Ascending(Ranges(n))
  {
    Partition(n);
  }

  /**
   Sorting the shard files of ascending ranges by their parsed start index,
   from any listing order, gives the shard names in range order.
   */
  lemma SortedSelection(sel: seq<string>, rs: seq<Range>, fmt: Format)
    requires Ascending(rs)
    requires Distinct(sel)
    requires forall f :: f in sel <==> f in ShardOrder(rs, fmt)
    ensures KeyAll(sel).Some?
    ensures NamesOf(SortByKey(KeyAll(sel).value)) == ShardOrder(rs, fmt)
  {
    KeyedSelection(sel, rs, fmt);
    var ks := KeyAll(sel).value;
    var e := KeyedShards(rs, fmt);
    KeyedShardsSorted(rs, fmt);
    DistinctSameElements(ks, e);
    SortedUnique(e, SortByKey(ks));
    Elementwise(NamesOf(e), ShardOrder(rs, fmt));
  }

  /**
   The shard -> merge round trip. Starting from a directory without stale
   shards of the format, and with names free of `": "`, of line breaks and
   of surrounding whitespace, the menu option finishes with every line merged, and the
   combined report lists every key in key order, numbered 1..N, with its
   size text `"{size} bytes"` — whatever order the directory was listed in.
   */
  lemma ShardThenMerge(dir: Directory, keys: seq<string>, sizes: map<string, nat>,
                       listing: seq<string>, fmt: Format)
    requires Sized(keys, sizes)
    requires forall i :: 0 <= i < |keys| ==> PlainName(keys[i])
    requires forall f :: f in dir ==> !IsShardName(f, fmt)
    requires Enumerates(listing, Generate(dir, keys, sizes, fmt))
    ensures var o := GenerateCombineClean(dir, keys, sizes, listing, fmt);
      o.Finished? && o.complete && o.rows == ExpectedRows(keys, sizes)
  {
    var d := Generate(dir, keys, sizes, fmt);
    MergeReadsRangeOrder(dir, keys, sizes, listing, fmt);
    GatherAllShards(dir, keys, sizes, fmt);
    ParseEntryLines(keys, sizes);
    var c := Combine(d, listing, fmt);
    assert c.order == ShardOrder(Ranges(|keys|), fmt);
  }

  /** Reading every shard the writer created, in range order, gives back all entry lines. */
  lemma GatherAllShards(dir: Directory, keys: seq<string>, sizes: map<string, nat>, fmt: Format)
    requires Sized(keys, sizes)
    ensures forall f :: f in ShardOrder(Ranges(|keys|), fmt) ==> f in Generate(dir, keys, sizes, fmt)
    ensures Gather(Generate(dir, keys, sizes, fmt), ShardOrder(Ranges(|keys|), fmt)) == EntryLines(keys, sizes)
  {
    var lines := EntryLines(keys, sizes);
    var d := Generate(dir, keys, sizes, fmt);
    var rs := Ranges(|keys|);
    var names := ShardOrder(rs, fmt);
    RangesTile(|keys|);
    ShardContents(dir, keys, sizes, fmt);
    forall k | 0 <= k < |rs|
      ensures names[k] in d
    {
      assert names[k] in ShardNames(rs, fmt) by {
        assert rs[k] in rs;
      }
    }
    GatherShards(d, lines, rs, names, 0, |keys|);
    SliceAll(lines);
  }

  /**
   The report of an inspected archive: when the decoded entry names are
   distinct and plain, the key list `generate_report_parallel` takes from
   `file_sizes` is `file_list` itself, and the combined report lists every
   entry of the central directory in directory order, numbered 1..N, with
   its own size.
   */
  lemma SessionReport(contentLength: int, entries: seq<Inspection.Entry>, dir: Directory,
                      listing: seq<string>, fmt: Format)
    requires Distinct(Inspection.Names(entries))
    requires forall i :: 0 <= i < |entries| ==> PlainName(entries[i].name)
    requires forall f :: f in dir ==> !IsShardName(f, fmt)
    requires var s := Inspection.SessionOf(contentLength, entries);
      Enumerates(listing, Generate(dir, s.keys, s.fileSizes, fmt))
    ensures var s := Inspection.SessionOf(contentLength, entries);
      && s.keys == s.fileList
      && var o := GenerateCombineClean(dir, s.keys, s.fileSizes, listing, fmt);
      && o.Finished? && o.complete
      && |o.rows| == |entries|
      && forall i :: 0 <= i < |entries| ==> o.rows[i] == Row(i + 1, entries[i].name, SizeText(entries[i].size))
  {
    var s := Inspection.SessionOf(contentLength, entries);
    var names := Inspection.Names(entries);
    Inspection.DedupDistinct(names);
    assert s.keys == names;
    forall i | 0 <= i < |entries|
      ensures s.fileSizes[entries[i].name] == entries[i].size
    {
      assert Inspection.LastWithName(entries, i) by {
        forall j | i < j < |entries|
          ensures entries[j].name != entries[i].name
        {
          assert names[i] != names[j];
        }
      }
    }
    forall i | 0 <= i < |entries| ensures PlainName(s.keys[i]) {
      assert s.keys[i] == entries[i].name;
    }
    ShardThenMerge(dir, s.keys, s.fileSizes, listing, fmt);
  }
}

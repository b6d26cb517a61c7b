/**
 `generate_report_parallel`: the entry keys are cut into consecutive ranges
 `[i, min(i + 1000, n))` for `i` in `range(0, n, 1000)`, and each range is
 written to its own shard file as lines `"{name}: {size} bytes"`.

 The thread pool only changes the order in which shard files are written;
 the files are distinct (their names differ in the start index), so writing
 them one after another in range order gives the same directory.
 */
module Shards {
  import opened Wrappers
  import opened Strings
  import opened ReportFiles

  /** Entries per shard (`chunk_size`). */
  const ShardSize: nat := 1000

  /** A half-open range `[start, end)` of positions in the key list. */
  datatype Range = Range(start: nat, end: nat)

  function Min(x: int, y: int): int
  {
    if x <= y then x else y
  }

  /**
   The ranges submitted from position `i` on: one per multiple of the shard
   size below `n`, each cut short at `n`.
   */
  function RangesFrom(i: nat, n: nat): (rs: seq<Range>)
    ensures |rs| == if i >= n then 0 else (n - i + ShardSize - 1) / ShardSize
    ensures forall k :: 0 <= k < |rs| ==>
              rs[k] == Range(i + k * ShardSize, Min(i + k * ShardSize + ShardSize, n))
    decreases n - i
  {
    if i >= n then []
    else [Range(i, Min(i + ShardSize, n))] + RangesFrom(i + ShardSize, n)
  }

  /** The ranges of a key list of length `n`. */
  function Ranges(n: nat): seq<Range>
  {
    RangesFrom(0, n)
  }

  /**
   The ranges partition `0..n`: there are ceil(n / 1000) of them (none for
   an empty list), each non-empty and at most 1000 long; the first starts at
   0, each ends where the next starts, the last ends at `n`; they are
   pairwise disjoint and in ascending order, and position `j` lies in range
   number `j / 1000`.
   */
  lemma Partition(n: nat)
    ensures |Ranges(n)| == (n + ShardSize - 1) / ShardSize
    ensures n == 0 <==> Ranges(n) == []
    ensures forall k :: 0 <= k < |Ranges(n)| ==>
              Ranges(n)[k].start < Ranges(n)[k].end <= n
              && Ranges(n)[k].end - Ranges(n)[k].start <= ShardSize
    ensures |Ranges(n)| > 0 ==> Ranges(n)[0].start == 0 && Ranges(n)[|Ranges(n)| - 1].end == n
    ensures forall k :: 0 <= k < |Ranges(n)| - 1 ==> Ranges(n)[k].end == Ranges(n)[k + 1].start
    ensures forall k1, k2 :: 0 <= k1 < k2 < |Ranges(n)| ==> Ranges(n)[k1].end <= Ranges(n)[k2].start
    ensures forall j :: 0 <= j < n ==>
              j / ShardSize < |Ranges(n)|
              && Ranges(n)[j / ShardSize].start <= j < Ranges(n)[j / ShardSize].end
  {
    var rs := Ranges(n);
    var m := |rs|;
    if n > 0 {
      assert (m - 1) * ShardSize < n <= m * ShardSize;
      assert rs[m - 1].end == n;
    }
    forall k | 0 <= k < m
      ensures rs[k].start < rs[k].end <= n
    {
      assert k * ShardSize <= (m - 1) * ShardSize;
    }
  }

  /** The size column of a shard line, `f"{size} bytes"`. */
  function SizeText(size: nat): string
  {
    NatToString(size) + " bytes"
  }

  /** One line of a shard file, `f"{file_name}: {size} bytes"`. */
  function ShardLine(name: string, size: nat): string
  {
    name + ": " + SizeText(size)
  }

  /** Every key has an entry in the size table, as dictionary keys do. */
  predicate Sized(keys: seq<string>, sizes: map<string, nat>)
  {
    forall i :: 0 <= i < |keys| ==> keys[i] in sizes
  }

  /** The lines of the whole key list, in key order. */
  function EntryLines(keys: seq<string>, sizes: map<string, nat>): (lines: seq<string>)
    requires Sized(keys, sizes)
    ensures |lines| == |keys|
    ensures forall i :: 0 <= i < |keys| ==> lines[i] == ShardLine(keys[i], sizes[keys[i]])
  {
    seq(|keys|, i requires 0 <= i < |keys| && Sized(keys, sizes) => ShardLine(keys[i], sizes[keys[i]]))
  }

  /** The file names of a list of ranges. */
  function ShardNames(rs: seq<Range>, fmt: Format): set<string>
  {
    set r | r in rs :: ShardFileName(r.start, r.end, fmt)
  }

  /**
   Writing the shard files of `rs`, one after another; the shard of `r`
   holds `lines[r.start..r.end]`.
   */
  function WriteShards(dir: Directory, lines: seq<string>, rs: seq<Range>, fmt: Format): (d: Directory)
    requires forall r :: r in rs ==> r.start <= r.end <= |lines|
    ensures d.Keys == dir.Keys + ShardNames(rs, fmt)
    ensures forall f :: f in dir && f !in ShardNames(rs, fmt) ==> d[f] == dir[f]
    decreases |rs|
  {
    if |rs| == 0 then dir
    else
      var r := rs[0];
      var name := ShardFileName(r.start, r.end, fmt);
      var d := WriteShards(dir[name := lines[r.start..r.end]], lines, rs[1..], fmt);
      assert ShardNames(rs, fmt) == {name} + ShardNames(rs[1..], fmt) by {
        assert rs == [r] + rs[1..];
      }
      d
  }

  /** `generate_report_parallel`: all shards of the key list written into `dir`. */
  function Generate(dir: Directory, keys: seq<string>, sizes: map<string, nat>, fmt: Format): Directory
    requires Sized(keys, sizes)
  {
    Partition(|keys|);
    WriteShards(dir, EntryLines(keys, sizes), Ranges(|keys|), fmt)
  }

  /** Shards with different starts have different file names. */
  lemma ShardNamesDiffer(s1: nat, e1: nat, s2: nat, e2: nat, fmt: Format)
    requires s1 != s2
    ensures ShardFileName(s1, e1, fmt) != ShardFileName(s2, e2, fmt)
  {
    SortKeyOfShard(s1, e1, fmt);
    SortKeyOfShard(s2, e2, fmt);
  }

  /** When the starts differ, the first shard's name is not written again later. */
  lemma FirstShardUnique(rs: seq<Range>, fmt: Format)
    requires |rs| > 0
    requires forall k :: 0 < k < |rs| ==> rs[0].start != rs[k].start
    ensures ShardFileName(rs[0].start, rs[0].end, fmt) !in ShardNames(rs[1..], fmt)
  {
    forall r | r in rs[1..]
      ensures ShardFileName(r.start, r.end, fmt) != ShardFileName(rs[0].start, rs[0].end, fmt)
    {
      var k :| 0 <= k < |rs[1..]| && rs[1..][k] == r;
      assert rs[k + 1] == r;
      ShardNamesDiffer(r.start, r.end, rs[0].start, rs[0].end, fmt);
    }
  }

  /** Shards written for ranges with distinct starts each keep their own lines. */
  lemma {:induction false} WriteShardsContents(dir: Directory, lines: seq<string>, rs: seq<Range>, fmt: Format)
    requires forall r :: r in rs ==> r.start <= r.end <= |lines|
    requires forall k1, k2 :: 0 <= k1 < k2 < |rs| ==> rs[k1].start != rs[k2].start
    ensures forall k :: 0 <= k < |rs| ==>
              WriteShards(dir, lines, rs, fmt)[ShardFileName(rs[k].start, rs[k].end, fmt)]
              == lines[rs[k].start..rs[k].end]
    decreases |rs|
  {
    if |rs| > 0 {
      var r := rs[0];
      var tail := rs[1..];
      var name := ShardFileName(r.start, r.end, fmt);
      var dir' := dir[name := lines[r.start..r.end]];
      assert forall r' :: r' in tail ==> r' in rs;
      assert forall k1, k2 :: 0 <= k1 < k2 < |tail| ==> tail[k1].start != tail[k2].start by {
        forall k1, k2 | 0 <= k1 < k2 < |tail|
          ensures tail[k1].start != tail[k2].start
        {
          assert tail[k1] == rs[k1 + 1] && tail[k2] == rs[k2 + 1];
        }
      }
      WriteShardsContents(dir', lines, tail, fmt);
      FirstShardUnique(rs, fmt);
      var d := WriteShards(dir', lines, tail, fmt);
      assert d[name] == lines[r.start..r.end];
      forall k | 0 < k < |rs|
        ensures d[ShardFileName(rs[k].start, rs[k].end, fmt)] == lines[rs[k].start..rs[k].end]
      {
        assert rs[k] == tail[k - 1];
      }
    }
  }

  /**
   What `generate_report_parallel` leaves in the directory: the shard of
   each range holds the lines of `keys[start:end]`, in key order; the only
   new names are shard names; every other file is untouched.
   */
  lemma GenerateContents(dir: Directory, keys: seq<string>, sizes: map<string, nat>, fmt: Format)
    requires Sized(keys, sizes)
    ensures var d := Generate(dir, keys, sizes, fmt);
      && d.Keys == dir.Keys + ShardNames(Ranges(|keys|), fmt)
      && (forall f :: f in dir && f !in ShardNames(Ranges(|keys|), fmt) ==> d[f] == dir[f])
      && (forall k :: 0 <= k < |Ranges(|keys|)| ==>
            d[ShardFileName(Ranges(|keys|)[k].start, Ranges(|keys|)[k].end, fmt)]
            == EntryLines(keys, sizes)[Ranges(|keys|)[k].start..Ranges(|keys|)[k].end])
  {
    ShardContents(dir, keys, sizes, fmt);
  }

  /** The shard of each range holds the lines of its slice of the key list. */
  lemma ShardContents(dir: Directory, keys: seq<string>, sizes: map<string, nat>, fmt: Format)
    requires Sized(keys, sizes)
    ensures forall k :: 0 <= k < |Ranges(|keys|)| ==>
              Generate(dir, keys, sizes, fmt)[ShardFileName(Ranges(|keys|)[k].start, Ranges(|keys|)[k].end, fmt)]
              == EntryLines(keys, sizes)[Ranges(|keys|)[k].start..Ranges(|keys|)[k].end]
  {
    Partition(|keys|);
    WriteShardsContents(dir, EntryLines(keys, sizes), Ranges(|keys|), fmt);
  }
}

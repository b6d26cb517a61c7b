/**
 The naming conventions shared by the report writer, the merger and the
 cleanup: a shard file is `report_{start}-{end}.{format}`, the merger orders
 shards by the number between the first `_` and the following `-`, and the
 combined report is `combined_report.txt` or `combined_report.csv`.

 The output directory is a map from file name to the file's lines.
 */
module ReportFiles {
  import opened Wrappers
  import opened Strings

  /** The two report formats; `Ext` is the string the source interpolates as `.{format}`. */
  datatype Format = Text | Csv

  function Ext(fmt: Format): string
  {
    match fmt
    case Text => "text"
    case Csv => "csv"
  }

  /** The output directory: file name to lines. */
  type Directory = map<string, seq<string>>

  const ShardPrefix: string := "report_"

  /** `f"report_{start}-{end}.{output_format}"`. */
  function ShardFileName(start: nat, end: nat, fmt: Format): string
  {
    ShardPrefix + ((NatToString(start) + "-") + (NatToString(end) + ("." + Ext(fmt))))
  }

  /**
   The file filter of both `combine_reports` and `clean_up_reports`:
   starts with `report_` and ends with `.{format}`.
   */
  predicate IsShardName(f: string, fmt: Format)
  {
    StartsWith(f, ShardPrefix) && EndsWith(f, "." + Ext(fmt))
  }

  /**
   The sort key `int(f.split("_")[1].split("-")[0])`, or `None` where Python
   raises (no second `_`-part, or a non-numeric first `-`-part).
   */
  function SortKey(f: string): (k: Option<nat>)
    ensures k.Some? ==> |Split(f, "_")| >= 2
  {
    var parts := Split(f, "_");
    if |parts| < 2 then None else ParseNat(Split(parts[1], "-")[0])
  }

  /** The combined report's name in the menu flow. */
  function CombinedName(fmt: Format): string
  {
    match fmt
    case Text => "combined_report.txt"
    case Csv => "combined_report.csv"
  }

  /** Every shard the writer creates passes the merge and cleanup filter of its format, and no other. */
  lemma ShardFileNameMatches(start: nat, end: nat, fmt: Format, other: Format)
    ensures IsShardName(ShardFileName(start, end, fmt), other) <==> other == fmt
  {
    var f := ShardFileName(start, end, fmt);
    var head := NatToString(start) + "-";
    var suffix := "." + Ext(fmt);
    StartsWithConcat(ShardPrefix, head + (NatToString(end) + suffix));
    Assoc(head, NatToString(end), suffix);
    Assoc(ShardPrefix, head + NatToString(end), suffix);
    EndsWithConcat(ShardPrefix + (head + NatToString(end)), suffix);
    if other != fmt {
      var os := "." + Ext(other);
      if EndsWith(f, os) {
        EndsWithLast(f, os);
        EndsWithLast(f, suffix);
      }
    }
  }

  /** A shard name regrouped around its `_` and its first `-`. */
  lemma ShardNameShape(start: nat, end: nat, fmt: Format)
    ensures ShardFileName(start, end, fmt)
            == ("report" + "_") + ((NatToString(start) + "-") + (NatToString(end) + ("." + Ext(fmt))))
  {
    assert ShardPrefix == "report" + "_";
  }

  /**
   A name `report_{d}-{rest}`, with `d` a run of digits and neither `_` nor
   `-` in `rest`, has the sort key `int(d)`.
   */
  lemma KeyOfShape(d: string, rest: string)
    requires AllDigits(d)
    requires forall i :: 0 <= i < |rest| ==> rest[i] != '-' && rest[i] != '_'
    ensures SortKey(("report" + "_") + ((d + "-") + rest)) == ParseNat(d)
  {
    var tail := (d + "-") + rest;
    assert forall i :: 0 <= i < |tail| ==> tail[i] != '_' by {
      forall i | 0 <= i < |tail|
        ensures tail[i] != '_'
      {
        if i < |d| {
          assert tail[i] == d[i];
        } else if i > |d| {
          assert tail[i] == rest[i - |d| - 1];
        }
      }
    }
    NoLeadChar("report", "_" + tail, "_");
    assert ("report" + "_") + tail == "report" + ("_" + tail);
    NoLeadChar(tail, "", "_");
    SplitPair("report", tail, "_");
    assert forall i :: 0 <= i < |d| ==> d[i] != '-';
    NoLeadChar(d, "-" + rest, "-");
    assert (d + "-") + rest == d + ("-" + rest);
    NoLeadChar(rest, "", "-");
    SplitPair(d, rest, "-");
  }

  /** The sort key of a shard's name is its start index. */
  lemma SortKeyOfShard(start: nat, end: nat, fmt: Format)
    ensures SortKey(ShardFileName(start, end, fmt)) == Some(start)
  {
    var rest := NatToString(end) + ("." + Ext(fmt));
    ShardNameShape(start, end, fmt);
    assert forall i :: 0 <= i < |rest| ==> rest[i] != '-' && rest[i] != '_';
    KeyOfShape(NatToString(start), rest);
    ParseRender(start);
  }

  /** The combined report never passes the shard filter, so cleanup leaves it in place. */
  lemma CombinedIsNotShard(fmt: Format, other: Format)
    ensures !IsShardName(CombinedName(fmt), other)
  {
    assert CombinedName(fmt)[0] != ShardPrefix[0];
  }
}

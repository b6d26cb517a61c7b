/**
 `combine_reports` and `clean_up_reports`.

 The merge lists the directory (`listing` is the order `os.listdir`
 returned), keeps the shard files of the requested format, sorts them by
 their numeric start index, reads their lines in that order and turns every
 line containing `": "` into a numbered row. The two output formats differ
 only in the separator of the rendered lines.
 */
module Merge {
  import opened Wrappers
  import opened Strings
  import opened ReportFiles

  /** A row of the combined report: serial number, stripped name, stripped size text. */
  datatype Row = Row(serial: nat, name: string, size: string)

  /** The separator between name and size in a shard line. */
  const Separator: string := ": "

  /** Names a list of shard files sorts by: the parsed start index and the name. */
  type Keyed = (nat, string)

  predicate Distinct<T(==)>(s: seq<T>)
  {
    forall i, j :: 0 <= i < j < |s| ==> s[i] != s[j]
  }

  // ---------------------------------------------------------------------------
  // Choosing and ordering the shard files (lines 199-202)
  // ---------------------------------------------------------------------------

  /** The listing filtered to the shard files of `fmt`, listing order kept. */
  function Select(listing: seq<string>, fmt: Format): (sel: seq<string>)
    ensures forall f :: f in sel <==> f in listing && IsShardName(f, fmt)
    ensures Distinct(listing) ==> Distinct(sel)
    decreases |listing|
  {
    if |listing| == 0 then []
    else
      var rest := Select(listing[1..], fmt);
      assert forall f :: f in listing[1..] ==> f in listing;
      if IsShardName(listing[0], fmt) then
        assert Distinct(listing) ==> listing[0] !in listing[1..];
        [listing[0]] + rest
      else rest
  }

  /**
   Every file paired with its sort key, or `None` when one key does not
   parse (Python's `sorted` evaluates every key and lets the error escape).
   */
  function KeyAll(files: seq<string>): (r: Option<seq<Keyed>>)
    ensures r.Some? <==> forall i :: 0 <= i < |files| ==> SortKey(files[i]).Some?
    ensures r.Some? ==> (|r.value| == |files|
              && forall i :: 0 <= i < |files| ==> r.value[i] == (SortKey(files[i]).value, files[i]))
    decreases |files|
  {
    if |files| == 0 then Some([])
    else
      match SortKey(files[0])
      case None => None
      case Some(k) =>
        match KeyAll(files[1..])
        case None => None
        case Some(rest) => Some([(k, files[0])] + rest)
  }

  predicate SortedByKey(s: seq<Keyed>)
  {
    forall i, j :: 0 <= i < j < |s| ==> s[i].0 <= s[j].0
  }

  /** Inserts `x` before the first element whose key is not smaller. */
  function InsertByKey(x: Keyed, s: seq<Keyed>): (r: seq<Keyed>)
    requires SortedByKey(s)
    ensures SortedByKey(r)
    ensures multiset(r) == multiset(s) + multiset{x}
    ensures |r| == |s| + 1
    ensures r[0] == x || (|s| > 0 && r[0] == s[0])
    decreases |s|
  {
    if |s| == 0 || x.0 <= s[0].0 then [x] + s
    else
      var rest := InsertByKey(x, s[1..]);
      assert s == [s[0]] + s[1..];
      assert s[0].0 <= rest[0].0;
      [s[0]] + rest
  }

  /** Python's `sorted(..., key=...)` as a stable insertion sort on the key. */
  function SortByKey(s: seq<Keyed>): (r: seq<Keyed>)
    ensures SortedByKey(r)
    ensures multiset(r) == multiset(s)
    decreases |s|
  {
    if |s| == 0 then []
    else
      assert s == [s[0]] + s[1..];
      InsertByKey(s[0], SortByKey(s[1..]))
  }

  /** No two distinct elements share a key. */
  predicate KeysUnique(s: seq<Keyed>)
  {
    forall x, y :: x in s && y in s && x.0 == y.0 ==> x == y
  }

  /**
   Sorting by a key that no two distinct elements share has one answer: two
   sorted arrangements of the same elements are equal, so the merge order
   does not depend on the order in which the directory was listed.
   */
  lemma {:induction false} SortedUnique(a: seq<Keyed>, b: seq<Keyed>)
    requires SortedByKey(a) && SortedByKey(b)
    requires multiset(a) == multiset(b)
    requires KeysUnique(a)
    ensures a == b
    decreases |a|
  {
    assert |a| == |multiset(a)| == |multiset(b)| == |b|;
    if |a| > 0 {
      assert a[0] in multiset(b) && b[0] in multiset(a);
      HeadIsLeast(a, b[0]);
      HeadIsLeast(b, a[0]);
      assert b[0] in a;
      assert a[0] == b[0];
      DropHead(a);
      DropHead(b);
      assert forall x :: x in a[1..] ==> x in a;
      SortedUnique(a[1..], b[1..]);
    }
  }

  /** The head of a sorted list has the least key. */
  lemma HeadIsLeast(a: seq<Keyed>, x: Keyed)
    requires SortedByKey(a)
    requires x in multiset(a)
    ensures a[0].0 <= x.0
  {
    var j :| 0 <= j < |a| && a[j] == x;
    if j > 0 {
      assert a[0].0 <= a[j].0;
    }
  }

  /** Dropping the head removes one copy of it from the multiset. */
  lemma DropHead<T>(s: seq<T>)
    requires |s| > 0
    ensures multiset(s[1..]) == multiset(s) - multiset{s[0]}
  {
    assert s == [s[0]] + s[1..];
  }

  /** Dropping position `j` removes one copy of `s[j]` from the multiset. */
  lemma DropAt<T>(s: seq<T>, j: int)
    requires 0 <= j < |s|
    ensures multiset(s[..j] + s[j + 1..]) == multiset(s) - multiset{s[j]}
  {
    assert s == s[..j] + [s[j]] + s[j + 1..];
  }

  /** The file names of a keyed list, in order. */
  function NamesOf(s: seq<Keyed>): (names: seq<string>)
    ensures |names| == |s|
    ensures forall i :: 0 <= i < |s| ==> names[i] == s[i].1
  {
    seq(|s|, i requires 0 <= i < |s| => s[i].1)
  }

  // ---------------------------------------------------------------------------
  // Turning lines into rows (lines 214-222 and 231-239)
  // ---------------------------------------------------------------------------

  /** The lines that pass `if ": " in line`, in order. */
  function Kept(lines: seq<string>): (k: seq<string>)
    ensures |k| <= |lines|
    decreases |lines|
  {
    if |lines| == 0 then []
    else if Contains(lines[0], Separator) then [lines[0]] + Kept(lines[1..])
    else Kept(lines[1..])
  }

  /** Exactly the lines containing `": "` are kept, and each splits into at least two parts. */
  lemma {:induction false} KeptLines(lines: seq<string>)
    ensures forall x :: x in Kept(lines) <==> x in lines && Contains(x, Separator)
    ensures forall i :: 0 <= i < |Kept(lines)| ==> |Split(Kept(lines)[i], Separator)| >= 2
    decreases |lines|
  {
    if |lines| > 0 {
      KeptLines(lines[1..]);
      assert forall x :: x in lines <==> x == lines[0] || x in lines[1..];
      if Contains(lines[0], Separator) {
        SplitCountContains(lines[0], Separator);
        assert Kept(lines) == [lines[0]] + Kept(lines[1..]);
      }
    }
  }

  /** `file_name, size = line.split(": ")` succeeds: exactly two parts. */
  predicate Unpackable(line: string)
  {
    |Split(line, Separator)| == 2
  }

  function RowOf(line: string, serial: nat): Row
    requires Unpackable(line)
  {
    var parts := Split(line, Separator);
    Row(serial, Strip(parts[0]), Strip(parts[1]))
  }

  /** The rows written, and whether an unpacking error ended the loop early. */
  datatype Parsed = Parsed(rows: seq<Row>, aborted: bool)

  /** The read loop with its running serial number. */
  function ParseLines(lines: seq<string>, serial: nat): Parsed
    decreases |lines|
  {
    if |lines| == 0 then Parsed([], false)
    else
      var line := lines[0];
      if !Contains(line, Separator) then ParseLines(lines[1..], serial)
      else if !Unpackable(line) then Parsed([], true)
      else
        var rest := ParseLines(lines[1..], serial + 1);
        Parsed([RowOf(line, serial)] + rest.rows, rest.aborted)
  }

  lemma ConsIndex<T>(x: T, s: seq<T>, i: int)
    requires 0 < i <= |s|
    ensures ([x] + s)[i] == s[i - 1]
  {
  }

  /**
   When the read loop stops early: exactly when some kept line does not
   unpack, and then it stops at the first such line, which holds two or more
   `": "`; otherwise it writes one row per kept line.
   */
  predicate StopsAtBadLine(p: Parsed, kept: seq<string>)
  {
    && (!p.aborted <==> forall l :: l in kept ==> Unpackable(l))
    && (!p.aborted ==> |p.rows| == |kept|)
    && (p.aborted ==> |p.rows| < |kept| && |Split(kept[|p.rows|], Separator)| >= 3)
  }

  lemma StopsAtBadLineCons(line: string, kept: seq<string>, p: Parsed, serial: nat)
    requires Unpackable(line)
    requires StopsAtBadLine(p, kept)
    ensures StopsAtBadLine(Parsed([RowOf(line, serial)] + p.rows, p.aborted), [line] + kept)
  {
    var kept' := [line] + kept;
    assert forall l :: l in kept' <==> l == line || l in kept;
    if p.aborted {
      ConsIndex(line, kept, |p.rows| + 1);
    }
  }

  lemma StopsAtBadLineHere(line: string, kept: seq<string>)
    requires Contains(line, Separator) && !Unpackable(line)
    ensures StopsAtBadLine(Parsed([], true), [line] + kept)
  {
    SplitCountContains(line, Separator);
    assert ([line] + kept)[0] == line;
  }

  /** The read loop stops at the first kept line that does not unpack, if any. */
  lemma {:induction false} ParseLinesAbort(lines: seq<string>, serial: nat)
    ensures StopsAtBadLine(ParseLines(lines, serial), Kept(lines))
    ensures forall i :: 0 <= i < |ParseLines(lines, serial).rows| ==> Unpackable(Kept(lines)[i])
    decreases |lines|
  {
    ParseLinesNumbering(lines, serial);
    if |lines| > 0 {
      var line := lines[0];
      if !Contains(line, Separator) {
        ParseLinesAbort(lines[1..], serial);
      } else if Unpackable(line) {
        ParseLinesAbort(lines[1..], serial + 1);
        StopsAtBadLineCons(line, Kept(lines[1..]), ParseLines(lines[1..], serial + 1), serial);
      } else {
        StopsAtBadLineHere(line, Kept(lines[1..]));
      }
    }
  }

  /** Row `i` comes from kept line `i` and carries number `serial + i`. */
  predicate Numbered(rows: seq<Row>, kept: seq<string>, serial: nat)
  {
    && |rows| <= |kept|
    && forall i :: 0 <= i < |rows| ==> Unpackable(kept[i]) && rows[i] == RowOf(kept[i], serial + i)
  }

  lemma NumberedCons(line: string, kept: seq<string>, rows: seq<Row>, serial: nat)
    requires Unpackable(line)
    requires Numbered(rows, kept, serial + 1)
    ensures Numbered([RowOf(line, serial)] + rows, [line] + kept, serial)
  {
    var rows' := [RowOf(line, serial)] + rows;
    var kept' := [line] + kept;
    forall i | 0 <= i < |rows'|
      ensures Unpackable(kept'[i]) && rows'[i] == RowOf(kept'[i], serial + i)
    {
      if i == 0 {
        assert kept'[0] == line;
      } else {
        var j := i - 1;
        ConsIndex(line, kept, i);
        ConsIndex(RowOf(line, serial), rows, i);
        assert Unpackable(kept[j]) && rows[j] == RowOf(kept[j], serial + 1 + j);
        assert serial + 1 + j == serial + i;
      }
    }
  }

  /**
   Numbering: row `i` comes from kept line `i` and carries number
   `serial + i`, so skipped lines take no number and the numbers are
   contiguous.
   */
  lemma {:induction false} ParseLinesNumbering(lines: seq<string>, serial: nat)
    ensures Numbered(ParseLines(lines, serial).rows, Kept(lines), serial)
    decreases |lines|
  {
    if |lines| > 0 {
      var line := lines[0];
      if !Contains(line, Separator) {
        ParseLinesNumbering(lines[1..], serial);
        assert Kept(lines) == Kept(lines[1..]);
      } else if Unpackable(line) {
        ParseLinesNumbering(lines[1..], serial + 1);
        assert Kept(lines) == [line] + Kept(lines[1..]);
        NumberedCons(line, Kept(lines[1..]), ParseLines(lines[1..], serial + 1).rows, serial);
      }
    }
  }

  /** The lines of the given files, read one file after another. */
  function Gather(dir: Directory, files: seq<string>): seq<string>
    requires forall f :: f in files ==> f in dir
    decreases |files|
  {
    if |files| == 0 then []
    else dir[files[0]] + Gather(dir, files[1..])
  }

  // ---------------------------------------------------------------------------
  // The combined report (lines 204-243)
  // ---------------------------------------------------------------------------

  function FieldSeparator(fmt: Format): string
  {
    match fmt
    case Text => "\t"
    case Csv => ","
  }

  function Header(fmt: Format): string
  {
    var sep := FieldSeparator(fmt);
    "S.No" + sep + "File Name" + sep + "Size (bytes)"
  }

  /** The combined file: the header line, then one line per row. */
  function Render(rows: seq<Row>, fmt: Format): (lines: seq<string>)
    ensures |lines| == |rows| + 1 && lines[0] == Header(fmt)
  {
    var sep := FieldSeparator(fmt);
    [Header(fmt)] + seq(|rows|, i requires 0 <= i < |rows| =>
                          NatToString(rows[i].serial) + sep + rows[i].name + sep + rows[i].size)
  }

  /** A field the separator of `fmt` does not occur in. */
  predicate FieldFree(field: string, fmt: Format)
  {
    forall i :: 0 <= i < |field| ==> field[i] != FieldSeparator(fmt)[0]
  }

  /** The header splits on the field separator into the three column titles. */
  lemma HeaderFields(fmt: Format)
    ensures Split(Header(fmt), FieldSeparator(fmt)) == ["S.No", "File Name", "Size (bytes)"]
  {
    SplitThree("S.No", "File Name", "Size (bytes)", FieldSeparator(fmt));
  }

  /**
   Every rendered row splits on the field separator back into its serial
   number, name and size text, as long as neither holds the separator; the
   serial number parses back to itself.
   */
  lemma RenderFields(rows: seq<Row>, fmt: Format, i: int)
    requires 0 <= i < |rows|
    requires FieldFree(rows[i].name, fmt) && FieldFree(rows[i].size, fmt)
    ensures var fields := Split(Render(rows, fmt)[i + 1], FieldSeparator(fmt));
      && fields == [NatToString(rows[i].serial), rows[i].name, rows[i].size]
      && ParseNat(fields[0]) == Some(rows[i].serial)
  {
    var serial := NatToString(rows[i].serial);
    assert forall k :: 0 <= k < |serial| ==> serial[k] != FieldSeparator(fmt)[0];
    SplitThree(serial, rows[i].name, rows[i].size, FieldSeparator(fmt));
    ParseRender(rows[i].serial);
  }

  /**
   How `combine_reports` ends: a sort key that does not parse raises before
   the combined file is opened (`int()` raises `ValueError`); otherwise the combined file is
   written, holding every row (`complete`) or the rows before an unpacking
   error, and `order` records the shard files in the order they were read.
   */
  datatype Outcome =
    | SortKeyError
    | Combined(dir: Directory, order: seq<string>, rows: seq<Row>, complete: bool)

  /** `combine_reports(output_dir, CombinedName(fmt), fmt)` over the listed directory. */
  function Combine(dir: Directory, listing: seq<string>, fmt: Format): (r: Outcome)
    requires forall f :: f in listing ==> f in dir
    ensures r.SortKeyError? <==> exists f :: f in listing && IsShardName(f, fmt) && SortKey(f).None?
    ensures r.Combined? ==>
              && (forall f :: f in r.order <==> f in listing && IsShardName(f, fmt))
              && multiset(r.order) == multiset(Select(listing, fmt))
              && (forall i, j :: 0 <= i < j < |r.order| ==> SortKey(r.order[i]).value <= SortKey(r.order[j]).value)
              && r.rows == ParseLines(Gather(dir, r.order), 1).rows
              && r.complete == !ParseLines(Gather(dir, r.order), 1).aborted
              && r.dir == dir[CombinedName(fmt) := Render(r.rows, fmt)]
  {
    var selected := Select(listing, fmt);
    var keyed := KeyAll(selected);
    SortKeyErrorWhen(listing, fmt);
    if keyed.None? then SortKeyError
    else
      var order := NamesOf(SortByKey(keyed.value));
      ListingOrder(listing, fmt);
      var parsed := ParseLines(Gather(dir, order), 1);
      Combined(dir[CombinedName(fmt) := Render(parsed.rows, fmt)], order, parsed.rows, !parsed.aborted)
  }

  /** `sorted` raises exactly when some listed shard file's key does not parse. */
  lemma SortKeyErrorWhen(listing: seq<string>, fmt: Format)
    ensures KeyAll(Select(listing, fmt)).None? <==>
              exists f :: f in listing && IsShardName(f, fmt) && SortKey(f).None?
  {
    var selected := Select(listing, fmt);
    if KeyAll(selected).None? {
      var i :| 0 <= i < |selected| && SortKey(selected[i]).None?;
      assert selected[i] in selected;
    }
  }

  /**
   The merge order of a listing whose keys all parse: the listed shard files
   of the format, each once per listing, in non-decreasing key order.
   */
  lemma ListingOrder(listing: seq<string>, fmt: Format)
    requires KeyAll(Select(listing, fmt)).Some?
    ensures var order := NamesOf(SortByKey(KeyAll(Select(listing, fmt)).value));
      && (forall f :: f in order <==> f in listing && IsShardName(f, fmt))
      && multiset(order) == multiset(Select(listing, fmt))
      && (forall i :: 0 <= i < |order| ==> SortKey(order[i]).Some?)
      && (forall i, j :: 0 <= i < j < |order| ==> SortKey(order[i]).value <= SortKey(order[j]).value)
  {
    MergeOrder(Select(listing, fmt), KeyAll(Select(listing, fmt)).value);
  }

  /**
   The files in sorted order: the same files as the selection, each as often,
   with non-decreasing start indices.
   */
  lemma MergeOrder(selected: seq<string>, keyed: seq<Keyed>)
    requires |keyed| == |selected|
    requires forall i :: 0 <= i < |selected| ==>
               SortKey(selected[i]).Some? && keyed[i] == (SortKey(selected[i]).value, selected[i])
    ensures var order := NamesOf(SortByKey(keyed));
      && multiset(order) == multiset(selected)
      && (forall f :: f in order <==> f in selected)
      && (forall i :: 0 <= i < |order| ==> SortKey(order[i]).Some?)
      && (forall i, j :: 0 <= i < j < |order| ==> SortKey(order[i]).value <= SortKey(order[j]).value)
  {
    SortedNamesMembers(selected, keyed);
    SortedNamesKeys(selected, keyed);
  }

  /** Sorting rearranges the names: the same files, each as often. */
  lemma SortedNamesMembers(selected: seq<string>, keyed: seq<Keyed>)
    requires |keyed| == |selected|
    requires forall i :: 0 <= i < |selected| ==> keyed[i].1 == selected[i]
    ensures multiset(NamesOf(SortByKey(keyed))) == multiset(selected)
    ensures forall f :: f in NamesOf(SortByKey(keyed)) <==> f in selected
  {
    KeyedNames(keyed, selected);
    NamesOfMultiset(SortByKey(keyed), keyed);
    SameMembers(NamesOf(SortByKey(keyed)), selected);
  }

  /** Each sorted name carries its own key, so the names come in key order. */
  lemma SortedNamesKeys(selected: seq<string>, keyed: seq<Keyed>)
    requires |keyed| == |selected|
    requires forall i :: 0 <= i < |selected| ==>
               SortKey(selected[i]).Some? && keyed[i] == (SortKey(selected[i]).value, selected[i])
    ensures var order := NamesOf(SortByKey(keyed));
      && (forall i :: 0 <= i < |order| ==> SortKey(order[i]).Some?)
      && (forall i, j :: 0 <= i < j < |order| ==> SortKey(order[i]).value <= SortKey(order[j]).value)
  {
    var sorted := SortByKey(keyed);
    var order := NamesOf(sorted);
    forall i | 0 <= i < |order|
      ensures SortKey(order[i]) == Some(sorted[i].0)
    {
      assert sorted[i] in multiset(keyed);
      var j :| 0 <= j < |keyed| && keyed[j] == sorted[i];
    }
  }

  /** Rearrangements hold the same members. */
  lemma SameMembers<T>(a: seq<T>, b: seq<T>)
    requires multiset(a) == multiset(b)
    ensures forall x :: x in a <==> x in b
  {
    forall x ensures x in a <==> x in b {
      assert x in a <==> x in multiset(a);
      assert x in b <==> x in multiset(b);
    }
  }

  /** The names of a keyed list built from `files` are `files` itself. */
  lemma KeyedNames(keyed: seq<Keyed>, files: seq<string>)
    requires |keyed| == |files|
    requires forall i :: 0 <= i < |files| ==> keyed[i].1 == files[i]
    ensures NamesOf(keyed) == files
  {
    Elementwise(NamesOf(keyed), files);
  }

  /** Rearranging a keyed list rearranges its names the same way. */
  lemma {:induction false} NamesOfMultiset(a: seq<Keyed>, b: seq<Keyed>)
    requires multiset(a) == multiset(b)
    ensures multiset(NamesOf(a)) == multiset(NamesOf(b))
    decreases |a|
  {
    if |a| > 0 {
      var x := a[0];
      assert x in multiset(b);
      var j :| 0 <= j < |b| && b[j] == x;
      var b' := b[..j] + b[j + 1..];
      DropHead(a);
      DropAt(b, j);
      NamesOfMultiset(a[1..], b');
      NamesOfSplit(a, b, j);
    }
  }

  /** Name-level bookkeeping for `NamesOfMultiset`. */
  lemma NamesOfSplit(a: seq<Keyed>, b: seq<Keyed>, j: int)
    requires |a| > 0 && 0 <= j < |b| && b[j] == a[0]
    requires multiset(NamesOf(a[1..])) == multiset(NamesOf(b[..j] + b[j + 1..]))
    ensures multiset(NamesOf(a)) == multiset(NamesOf(b))
  {
    assert NamesOf(a) == [a[0].1] + NamesOf(a[1..]);
    assert NamesOf(b) == NamesOf(b[..j]) + [a[0].1] + NamesOf(b[j + 1..]);
    assert NamesOf(b[..j] + b[j + 1..]) == NamesOf(b[..j]) + NamesOf(b[j + 1..]);
  }

  // ---------------------------------------------------------------------------
  // Cleanup (lines 183-185)
  // ---------------------------------------------------------------------------

  /** `clean_up_reports`: every shard file of the format is removed, nothing else changes. */
  function Cleanup(dir: Directory, fmt: Format): (d: Directory)
    ensures forall f :: f in d <==> f in dir && !IsShardName(f, fmt)
    ensures forall f :: f in d ==> d[f] == dir[f]
  {
    map f | f in dir && !IsShardName(f, fmt) :: dir[f]
  }
}

/**
 `ZipInspector.inspect`: read the object's length, check the leading bytes
 for the ZIP signature, locate the central directory and cache the entry
 list and the name-to-size table for the session.

 The `HEAD` request is reduced to its outcome (`head`, the declared length,
 or `None` when the request failed) and the leading fetch to its response
 (`leading`); the probe fetches and `ZipFile` decoding are oracles, as in
 `Locator`.
 */
module Inspection {
  import opened Wrappers
  import opened Locator

  /** One entry of the decoded central directory. */
  datatype Entry = Entry(name: string, size: nat)

  /** The exceptions `inspect` lets escape. */
  datatype InspectError =
    | MetadataUnavailable          // HEAD did not answer 200
    | FetchFailed                  // fetching the leading bytes raised
    | InvalidFormat                // leading bytes lack the "PK" signature
    | CentralDirectoryNotFound     // every probe window was rejected
    | StructureUnreadable          // ZipFile rejected leading + trailing bytes

  datatype Result<T> = Ok(value: T) | Err(error: InspectError)

  /**
   The state `inspect` leaves behind: the object length, `file_list` (every
   entry name in directory order), `file_sizes`, and the dictionary's key
   order, which is the order in which names first appear.
   */
  datatype Session = Session(contentLength: int, fileList: seq<string>,
                             fileSizes: map<string, nat>, keys: seq<string>)

  /** The leading sample, bytes 0 to 8191. */
  const LeadingWindow: Window := Window(0, 8191)

  /**
   The first two bytes of the local file header signature `PK\x03\x04`
   (section 4.3.7 of PKWARE's APPNOTE.TXT).
   */
  predicate HasZipSignature(b: Bytes)
  {
    |b| >= 2 && b[0] == 0x50 && b[1] == 0x4B
  }

  function Names(entries: seq<Entry>): (names: seq<string>)
    ensures |names| == |entries|
    ensures forall i :: 0 <= i < |entries| ==> names[i] == entries[i].name
  {
    seq(|entries|, i requires 0 <= i < |entries| => entries[i].name)
  }

  /** The distinct names of `s`, each kept at its first occurrence. */
  function Dedup(s: seq<string>): (r: seq<string>)
    ensures forall x :: x in r <==> x in s
    ensures forall i, j :: 0 <= i < j < |r| ==> r[i] != r[j]
    decreases |s|
  {
    if |s| == 0 then []
    else
      var d := Dedup(s[..|s| - 1]);
      if s[|s| - 1] in d then d else d + [s[|s| - 1]]
  }

  /** The position of the first occurrence of `x` in `s`. */
  function FirstIndex(s: seq<string>, x: string): (i: nat)
    requires x in s
    ensures i < |s| && s[i] == x
    ensures forall j :: 0 <= j < i ==> s[j] != x
    decreases |s|
  {
    if s[0] == x then 0
    else
      var k := FirstIndex(s[1..], x);
      assert forall j :: 1 <= j <= k ==> s[j] == s[1..][j - 1];
      k + 1
  }

  /** Appending never moves a first occurrence. */
  lemma FirstIndexPrefix(s: seq<string>, t: seq<string>, x: string)
    requires x in s
    ensures x in s + t && FirstIndex(s + t, x) == FirstIndex(s, x)
  {
    var i := FirstIndex(s, x);
    assert (s + t)[i] == x;
    assert forall j :: 0 <= j < i ==> (s + t)[j] == s[j];
  }

  /**
   The dictionary keeps its keys in the order in which the names first
   appear in `file_list`.
   */
  lemma {:induction false} DedupFirstOrder(s: seq<string>)
    ensures forall x :: x in Dedup(s) ==> x in s
    ensures forall i, j :: 0 <= i < j < |Dedup(s)| ==>
              FirstIndex(s, Dedup(s)[i]) < FirstIndex(s, Dedup(s)[j])
    decreases |s|
  {
    if |s| > 0 {
      var init := s[..|s| - 1];
      var last := s[|s| - 1];
      var d := Dedup(init);
      DedupFirstOrder(init);
      assert s == init + [last];
      forall x | x in init
        ensures FirstIndex(s, x) == FirstIndex(init, x)
      {
        FirstIndexPrefix(init, [last], x);
      }
      if last !in d {
        assert last !in init;
        var r := d + [last];
        forall i, j | 0 <= i < j < |r|
          ensures FirstIndex(s, r[i]) < FirstIndex(s, r[j])
        {
          assert r[i] == d[i] && d[i] in init;
          if j < |d| {
            assert r[j] == d[j];
          } else {
            assert FirstIndex(s, r[j]) == |s| - 1;
          }
        }
      }
    }
  }

  /** Names that never repeat keep their order: the key list is `file_list` itself. */
  lemma {:induction false} DedupDistinct(s: seq<string>)
    requires forall i, j :: 0 <= i < j < |s| ==> s[i] != s[j]
    ensures Dedup(s) == s
    decreases |s|
  {
    if |s| > 0 {
      var init := s[..|s| - 1];
      DedupDistinct(init);
      assert s[|s| - 1] !in init;
      assert s == init + [s[|s| - 1]];
    }
  }

  /** No later entry carries the same name as entry `i`. */
  predicate LastWithName(entries: seq<Entry>, i: int)
    requires 0 <= i < |entries|
  {
    forall j :: i < j < |entries| ==> entries[j].name != entries[i].name
  }

  /** One step of the size table: recording the last entry keeps both properties of `SizeTable`. */
  lemma SizeTableStep(entries: seq<Entry>, m: map<string, nat>)
    requires |entries| > 0
    requires forall n :: n in m <==> n in Names(entries[..|entries| - 1])
    requires forall i :: 0 <= i < |entries| - 1 && LastWithName(entries[..|entries| - 1], i)
               ==> m[entries[i].name] == entries[i].size
    ensures var e := entries[|entries| - 1];
      && (forall n :: n in m[e.name := e.size] <==> n in Names(entries))
      && (forall i :: 0 <= i < |entries| && LastWithName(entries, i) ==> m[e.name := e.size][entries[i].name] == entries[i].size)
  {
    var last := |entries| - 1;
    var init := entries[..last];
    var e := entries[last];
    assert Names(entries) == Names(init) + [e.name];
    forall i | 0 <= i < |entries| && LastWithName(entries, i)
      ensures m[e.name := e.size][entries[i].name] == entries[i].size
    {
      if i < last {
        assert entries[i] == init[i];
        assert LastWithName(init, i);
      }
    }
  }

  /**
   The name-to-size table: `zf.getinfo(name)` answers with the last entry of
   that name, so a later duplicate decides the size.
   */
  function SizeTable(entries: seq<Entry>): (m: map<string, nat>)
    ensures forall n :: n in m <==> n in Names(entries)
    ensures forall i :: 0 <= i < |entries| && LastWithName(entries, i) ==> m[entries[i].name] == entries[i].size
    decreases |entries|
  {
    if |entries| == 0 then map[]
    else
      var last := |entries| - 1;
      var init := entries[..last];
      var e := entries[last];
      var m := SizeTable(init);
      SizeTableStep(entries, m);
      m[e.name := e.size]
  }

  /** The session cached after a successful decode of `entries`. */
  function SessionOf(contentLength: int, entries: seq<Entry>): (s: Session)
    ensures s.contentLength == contentLength
    ensures s.fileList == Names(entries)
    ensures forall n :: n in s.keys <==> n in s.fileSizes
    ensures forall n :: n in s.fileSizes <==> n in s.fileList
    ensures forall i, j :: 0 <= i < j < |s.keys| ==> s.keys[i] != s.keys[j]
    ensures forall i :: 0 <= i < |entries| && LastWithName(entries, i)
              ==> s.fileSizes[entries[i].name] == entries[i].size
  {
    var names := Names(entries);
    var m := SizeTable(entries);
    Session(contentLength, names, m, Dedup(names))
  }

  /** `inspect` gets past the signature check: HEAD answered and the leading sample starts with `PK`. */
  predicate SignatureChecked(head: Option<int>, leading: Option<Bytes>)
  {
    head.Some? && leading.Some? && HasZipSignature(leading.value)
  }

  /**
   Lines 90-99: the probe sweep, then the decode of the leading sample
   followed by the located bytes. `probes` lists the windows fetched.
   */
  method LocateAndDecode(contentLength: int, leading: Bytes, fetch: Fetcher, isArchive: Bytes -> bool,
                         decode: Bytes -> Option<seq<Entry>>)
    returns (r: Result<Session>, probes: seq<Window>)
    ensures var sweep := SweepFrom(contentLength, DefaultStep, DefaultMaxAttempts, fetch, isArchive, 0);
      && probes == Schedule(contentLength, DefaultStep, |probes|)
      && |probes| == sweep.fetches
      && 1 <= |probes| <= DefaultMaxAttempts
      && (r.Ok? || r == Err(CentralDirectoryNotFound) || r == Err(StructureUnreadable))
      && (r == Err(CentralDirectoryNotFound) <==> sweep.Exhausted?)
      && (r == Err(StructureUnreadable) <==> sweep.Found? && decode(leading + sweep.bytes).None?)
      && (r.Ok? <==> sweep.Found? && decode(leading + sweep.bytes).Some?)
      && (r.Ok? ==> r.value == SessionOf(contentLength, decode(leading + sweep.bytes).value))
    ensures r == Err(CentralDirectoryNotFound) ==>
              |probes| == DefaultMaxAttempts && forall a :: 0 <= a < |probes| ==> !Accepts(fetch, isArchive, a, probes[a])
    ensures r.Ok? || r == Err(StructureUnreadable) ==>
              && Accepts(fetch, isArchive, |probes| - 1, probes[|probes| - 1])
              && forall a :: 0 <= a < |probes| - 1 ==> !Accepts(fetch, isArchive, a, probes[a])
  {
    var located;
    located, probes := Locate(contentLength, DefaultStep, DefaultMaxAttempts, fetch, isArchive);
    if located.None? {
      return Err(CentralDirectoryNotFound), probes;
    }
    var decoded := decode(leading + located.value);
    if decoded.None? {
      return Err(StructureUnreadable), probes;
    }
    r := Ok(SessionOf(contentLength, decoded.value));
  }

  /**
   `inspect`. `leading` is the response to the request for bytes 0-8191
   (`None` when that fetch raised); `requested` lists every window fetched,
   the leading sample first. A missing signature fails before any probe
   window is requested; otherwise the probe sweep of `Locator.Locate` runs
   with its default step and attempt count, and the leading sample followed
   by the located bytes is decoded into the session. Each outcome is tied
   to the reference sweep `SweepFrom` in both directions.
   */
  method Inspect(head: Option<int>, leading: Option<Bytes>, fetch: Fetcher, isArchive: Bytes -> bool,
                 decode: Bytes -> Option<seq<Entry>>)
    returns (r: Result<Session>, requested: seq<Window>)
    ensures head.None? <==> r == Err(MetadataUnavailable)
    ensures head.None? ==> requested == []
    ensures head.Some? ==> |requested| >= 1 && requested[0] == LeadingWindow
    ensures r == Err(FetchFailed) <==> head.Some? && leading.None?
    ensures r == Err(InvalidFormat) <==> head.Some? && leading.Some? && !HasZipSignature(leading.value)
    ensures !SignatureChecked(head, leading) && head.Some? ==> requested == [LeadingWindow]
    ensures SignatureChecked(head, leading) ==>
              var sweep := SweepFrom(head.value, DefaultStep, DefaultMaxAttempts, fetch, isArchive, 0);
              && requested[1..] == Schedule(head.value, DefaultStep, |requested| - 1)
              && |requested| - 1 == sweep.fetches
              && 1 <= sweep.fetches <= DefaultMaxAttempts
              && (r == Err(CentralDirectoryNotFound) <==> sweep.Exhausted?)
              && (r == Err(StructureUnreadable) <==> sweep.Found? && decode(leading.value + sweep.bytes).None?)
              && (r.Ok? <==> sweep.Found? && decode(leading.value + sweep.bytes).Some?)
              && (r.Ok? ==> r.value == SessionOf(head.value, decode(leading.value + sweep.bytes).value))
    ensures r == Err(CentralDirectoryNotFound) ==>
              && |requested| == 1 + DefaultMaxAttempts
              && forall a :: 0 <= a < |requested| - 1 ==> !Accepts(fetch, isArchive, a, requested[1..][a])
    ensures r.Ok? || r == Err(StructureUnreadable) ==>
              && SignatureChecked(head, leading)
              && Accepts(fetch, isArchive, |requested| - 2, requested[|requested| - 1])
              && forall a :: 0 <= a < |requested| - 2 ==> !Accepts(fetch, isArchive, a, requested[1..][a])
  {
    if head.None? {
      return Err(MetadataUnavailable), [];
    }
    requested := [LeadingWindow];
    if leading.None? {
      return Err(FetchFailed), requested;
    }
    if !HasZipSignature(leading.value) {
      return Err(InvalidFormat), requested;
    }
    var probes;
    r, probes := LocateAndDecode(head.value, leading.value, fetch, isArchive, decode);
    requested := requested + probes;
    assert requested[1..] == probes;
    assert requested[|requested| - 1] == probes[|probes| - 1];
  }
}

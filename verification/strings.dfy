/**
 The string primitives the inspector relies on, written out so that their
 behaviour is explicit: Python's `str.split(sep)`, `str.startswith`,
 `str.endswith`, `sep in s`, `str.strip()`, f-string rendering of an integer
 and `int()` applied to a run of decimal digits.
 */
module Strings {
  import opened Wrappers

  /** True when `sep` occurs in `s` starting at index `k`. */
  predicate MatchAt(s: string, k: int, sep: string)
  {
    0 <= k && k + |sep| <= |s| && s[k..k + |sep|] == sep
  }

  /** Python's `sep in s`. */
  predicate Contains(s: string, sep: string)
  {
    exists k :: 0 <= k <= |s| - |sep| && MatchAt(s, k, sep)
  }

  /** No occurrence of `sep` starts before index `n` of `s`. */
  predicate NoMatchBefore(s: string, n: int, sep: string)
  {
    forall k :: 0 <= k < n ==> !MatchAt(s, k, sep)
  }

  /** Python's `s.startswith(p)`. */
  predicate StartsWith(s: string, p: string)
  {
    |p| <= |s| && s[..|p|] == p
  }

  /** Python's `s.endswith(suffix)`. */
  predicate EndsWith(s: string, suffix: string)
  {
    |suffix| <= |s| && s[|s| - |suffix|..] == suffix
  }

  lemma Assoc<T>(a: seq<T>, b: seq<T>, c: seq<T>)
    ensures a + (b + c) == (a + b) + c
  {
  }

  lemma StartsWithConcat(p: string, x: string)
    ensures StartsWith(p + x, p)
  {
    assert (p + x)[..|p|] == p;
  }

  lemma EndsWithConcat(x: string, q: string)
    ensures EndsWith(x + q, q)
  {
    assert (x + q)[|x + q| - |q|..] == q;
  }

  /** A string ending with a non-empty suffix ends with the suffix's last character. */
  lemma EndsWithLast(s: string, q: string)
    requires EndsWith(s, q) && |q| > 0
    ensures s[|s| - 1] == q[|q| - 1]
  {
    assert s[|s| - |q|..][|q| - 1] == s[|s| - 1];
  }

  /**
   Python's `s.split(sep)` for a non-empty separator: occurrences are found
   left to right and never overlap; there is always one more part than there
   are occurrences, and parts may be empty.
   */
  function Split(s: string, sep: string): (parts: seq<string>)
    requires |sep| > 0
    ensures |parts| >= 1
    decreases |s|
  {
    if |s| < |sep| then [s]
    else if s[..|sep|] == sep then [""] + Split(s[|sep|..], sep)
    else
      var rest := Split(s[1..], sep);
      [[s[0]] + rest[0]] + rest[1..]
  }

  /** Python's `sep.join(parts)`. */
  function Join(parts: seq<string>, sep: string): string
  {
    if |parts| == 0 then ""
    else if |parts| == 1 then parts[0]
    else parts[0] + sep + Join(parts[1..], sep)
  }

  /** Splitting loses nothing: joining the parts back gives the original string. */
  lemma {:induction false} SplitJoin(s: string, sep: string)
    requires |sep| > 0
    ensures Join(Split(s, sep), sep) == s
    decreases |s|
  {
    if |s| < |sep| {
    } else if s[..|sep|] == sep {
      SplitJoin(s[|sep|..], sep);
      JoinLeadingEmpty(Split(s[|sep|..], sep), sep);
      assert s == sep + s[|sep|..];
    } else {
      var rest := Split(s[1..], sep);
      SplitJoin(s[1..], sep);
      JoinGlued(s[0], rest, sep);
      assert s == [s[0]] + s[1..];
    }
  }

  /** Joining behind an empty first part puts a separator in front. */
  lemma JoinLeadingEmpty(parts: seq<string>, sep: string)
    requires |parts| >= 1
    ensures Join([""] + parts, sep) == sep + Join(parts, sep)
  {
    assert ([""] + parts)[1..] == parts;
  }

  /** Gluing a character onto the first part puts it in front of the join. */
  lemma JoinGlued(c: char, parts: seq<string>, sep: string)
    requires |parts| >= 1
    ensures Join([[c] + parts[0]] + parts[1..], sep) == [c] + Join(parts, sep)
  {
    var glued := [[c] + parts[0]] + parts[1..];
    assert glued[0] == [c] + parts[0];
    if |parts| > 1 {
      assert glued[1..] == parts[1..];
      var rest := Join(parts[1..], sep);
      Assoc([c], parts[0], sep);
      Assoc([c], parts[0] + sep, rest);
    }
  }

  /** When no occurrence starts at 0, `sep` occurs in `s` exactly when it occurs in `s[1..]`. */
  lemma ContainsShift(s: string, sep: string)
    requires |s| >= 1 && |sep| > 0
    requires !MatchAt(s, 0, sep)
    ensures Contains(s, sep) <==> Contains(s[1..], sep)
  {
    if Contains(s[1..], sep) {
      var k :| 0 <= k <= |s[1..]| - |sep| && MatchAt(s[1..], k, sep);
      assert s[k + 1..k + 1 + |sep|] == s[1..][k..k + |sep|];
      assert MatchAt(s, k + 1, sep);
    }
    if Contains(s, sep) {
      var k :| 0 <= k <= |s| - |sep| && MatchAt(s, k, sep);
      assert s[1..][k - 1..k - 1 + |sep|] == s[k..k + |sep|];
      assert MatchAt(s[1..], k - 1, sep);
    }
  }

  /** `sep in s` holds exactly when `s.split(sep)` has more than one part. */
  lemma {:induction false} SplitCountContains(s: string, sep: string)
    requires |sep| > 0
    ensures |Split(s, sep)| > 1 <==> Contains(s, sep)
    decreases |s|
  {
    if |s| < |sep| {
      assert !Contains(s, sep);
    } else if s[..|sep|] == sep {
      assert MatchAt(s, 0, sep);
    } else {
      SplitCountContains(s[1..], sep);
      ContainsShift(s, sep);
    }
  }

  /** A string without the separator splits into itself alone. */
  lemma SplitWithout(s: string, sep: string)
    requires |sep| > 0
    requires !Contains(s, sep)
    ensures Split(s, sep) == [s]
  {
    SplitCountContains(s, sep);
    SplitJoin(s, sep);
  }

  /**
   When no occurrence of `sep` starts inside the leading `a`, that prefix is
   glued onto the first part of what follows.
   */
  lemma {:induction false} SplitPrefix(a: string, c: string, sep: string)
    requires |sep| > 0
    requires NoMatchBefore(a + c, |a|, sep)
    ensures Split(a + c, sep) == [a + Split(c, sep)[0]] + Split(c, sep)[1..]
    decreases |a|
  {
    var p := Split(c, sep);
    if |a| > 0 {
      var s := a + c;
      NoMatchBeforeShift(a, c, sep);
      SplitPrefix(a[1..], c, sep);
      if |s| < |sep| {
        SplitWithout(c, sep);
      }
      Assoc([a[0]], a[1..], p[0]);
      assert [a[0]] + a[1..] == a;
    } else {
      assert a + c == c;
      HeadTail(p);
      assert a + p[0] == p[0];
    }
  }

  /** Dropping the first character keeps "no occurrence before the end of the prefix". */
  lemma NoMatchBeforeShift(a: string, c: string, sep: string)
    requires |a| > 0 && |sep| > 0
    requires NoMatchBefore(a + c, |a|, sep)
    ensures (a + c)[1..] == a[1..] + c
    ensures !MatchAt(a + c, 0, sep)
    ensures NoMatchBefore(a[1..] + c, |a| - 1, sep)
  {
    var s := a + c;
    assert !MatchAt(s, 0, sep);
    assert s[1..] == a[1..] + c;
    forall k | 0 <= k < |a| - 1
      ensures !MatchAt(a[1..] + c, k, sep)
    {
      assert !MatchAt(s, k + 1, sep);
      if k + |sep| <= |s[1..]| {
        assert s[1..][k..k + |sep|] == s[k + 1..k + 1 + |sep|];
      }
    }
  }

  /** Sequences that agree at every position are equal. */
  lemma Elementwise<T>(a: seq<T>, b: seq<T>)
    requires |a| == |b|
    requires forall i :: 0 <= i < |a| ==> a[i] == b[i]
    ensures a == b
  {
  }

  lemma HeadTail<T>(s: seq<T>)
    requires |s| > 0
    ensures s == [s[0]] + s[1..]
  {
  }

  /**
   `a + sep + b` splits into exactly `[a, b]` when no occurrence of `sep`
   starts inside `a` and `b` does not contain `sep`: the unpacking
   `x, y = line.split(sep)` then succeeds and recovers both halves.
   */
  lemma SplitPair(a: string, b: string, sep: string)
    requires |sep| > 0
    requires NoMatchBefore(a + sep + b, |a|, sep)
    requires !Contains(b, sep)
    ensures Split(a + sep + b, sep) == [a, b]
  {
    var c := sep + b;
    assert a + sep + b == a + c;
    var parts := Split(c, sep);
    assert parts == [""] + [b] by {
      SplitLeading(sep, b);
      SplitWithout(b, sep);
    }
    assert Split(a + c, sep) == [a + parts[0]] + parts[1..] by {
      SplitPrefix(a, c, sep);
    }
    assert parts[0] == "" && parts[1..] == [b];
    assert a + parts[0] == a;
  }

  /** Three fields joined by `sep`, none holding `sep`'s first character, split back into those fields. */
  lemma SplitThree(a: string, b: string, c: string, sep: string)
    requires |sep| > 0
    requires forall i :: 0 <= i < |a| ==> a[i] != sep[0]
    requires forall i :: 0 <= i < |b| ==> b[i] != sep[0]
    requires forall i :: 0 <= i < |c| ==> c[i] != sep[0]
    ensures Split(a + sep + b + sep + c, sep) == [a, b, c]
  {
    var rest := b + sep + c;
    SplitAfterSeparator(b, c, sep);
    NoLeadChar(a, sep + rest, sep);
    SplitPrefix(a, sep + rest, sep);
    GlueFirst(a, Split(sep + rest, sep), [b, c]);
    Assoc(a + sep + b, sep, c);
    Assoc(a + sep, b, sep + c);
    Assoc(b, sep, c);
    Assoc(a, sep, rest);
  }

  /** Gluing `a` onto an empty first part of `[""] + rest` gives `[a] + rest`. */
  lemma GlueFirst(a: string, parts: seq<string>, rest: seq<string>)
    requires parts == [""] + rest
    ensures [a + parts[0]] + parts[1..] == [a] + rest
  {
    assert parts[0] == "" && parts[1..] == rest;
    assert a + "" == a;
  }

  /** A separator followed by two fields splits into an empty part and the fields. */
  lemma SplitAfterSeparator(b: string, c: string, sep: string)
    requires |sep| > 0
    requires forall i :: 0 <= i < |b| ==> b[i] != sep[0]
    requires forall i :: 0 <= i < |c| ==> c[i] != sep[0]
    ensures Split(sep + (b + sep + c), sep) == [""] + [b, c]
  {
    SplitTail(b, c, sep);
    SplitLeading(sep, b + sep + c);
  }

  /** The last two of three fields split apart. */
  lemma SplitTail(b: string, c: string, sep: string)
    requires |sep| > 0
    requires forall i :: 0 <= i < |b| ==> b[i] != sep[0]
    requires forall i :: 0 <= i < |c| ==> c[i] != sep[0]
    ensures Split(b + sep + c, sep) == [b, c]
  {
    NoLeadChar(b, sep + c, sep);
    Assoc(b, sep, c);
    NoLeadChar(c, "", sep);
    SplitPair(b, c, sep);
  }

  /** A string that starts with the separator splits into an empty part first. */
  lemma SplitLeading(sep: string, b: string)
    requires |sep| > 0
    ensures Split(sep + b, sep) == [""] + Split(b, sep)
  {
    var c := sep + b;
    assert c[..|sep|] == sep;
    assert c[|sep|..] == b;
  }

  /**
   When no character of `s` can begin `sep`, no occurrence of `sep` starts
   inside `s`, whatever follows it.
   */
  lemma NoLeadChar(s: string, t: string, sep: string)
    requires |sep| > 0
    requires forall i :: 0 <= i < |s| ==> s[i] != sep[0]
    ensures NoMatchBefore(s + t, |s|, sep)
    ensures !Contains(s, sep)
  {
    forall k | 0 <= k < |s|
      ensures !MatchAt(s + t, k, sep)
    {
      if k + |sep| <= |s + t| {
        assert (s + t)[k..k + |sep|][0] == s[k];
      }
    }
    forall k | 0 <= k <= |s| - |sep|
      ensures !MatchAt(s, k, sep)
    {
      assert s[k..k + |sep|][0] == s[k];
    }
  }

  /** Python's `str.isspace()` for a single character. */
  predicate IsSpace(c: char)
  {
    var k := c as int;
    k == 0x20 || (0x09 <= k <= 0x0D) || (0x1C <= k <= 0x1F)
    || k == 0x85 || k == 0xA0 || k == 0x1680
    || (0x2000 <= k <= 0x200A) || k == 0x2028 || k == 0x2029
    || k == 0x202F || k == 0x205F || k == 0x3000
  }

  /** Drops leading whitespace. */
  function TrimLeft(s: string): (r: string)
    ensures |r| <= |s| && r == s[|s| - |r|..]
    ensures |r| > 0 ==> !IsSpace(r[0])
    ensures forall i :: 0 <= i < |s| - |r| ==> IsSpace(s[i])
    decreases |s|
  {
    if |s| > 0 && IsSpace(s[0]) then TrimLeft(s[1..]) else s
  }

  /** Drops trailing whitespace. */
  function TrimRight(s: string): (r: string)
    ensures |r| <= |s| && r == s[..|r|]
    ensures |r| > 0 ==> !IsSpace(r[|r| - 1])
    ensures forall i :: |r| <= i < |s| ==> IsSpace(s[i])
    decreases |s|
  {
    if |s| > 0 && IsSpace(s[|s| - 1]) then TrimRight(s[..|s| - 1]) else s
  }

  /** Python's `s.strip()`: both ends lose their whitespace, nothing else changes. */
  function Strip(s: string): (r: string)
    ensures |r| <= |s|
    ensures |r| > 0 ==> !IsSpace(r[0]) && !IsSpace(r[|r| - 1])
  {
    TrimRight(TrimLeft(s))
  }

  /**
   `strip()` removes whitespace at the two ends and nothing else: the result
   is a contiguous slice of the input, and everything cut off on either
   side is whitespace.
   */
  lemma StripRemovesPadding(s: string)
    ensures var r := Strip(s);
      exists i :: 0 <= i <= |s| - |r| && r == s[i..][..|r|]
        && (forall k :: 0 <= k < i ==> IsSpace(s[k]))
        && (forall k :: i + |r| <= k < |s| ==> IsSpace(s[k]))
  {
    var l := TrimLeft(s);
    var r := TrimRight(l);
    assert r == s[|s| - |l|..][..|r|];
  }

  /** A string that neither starts nor ends with whitespace is left alone by `strip()`. */
  lemma StripUnpadded(s: string)
    requires |s| > 0 ==> !IsSpace(s[0]) && !IsSpace(s[|s| - 1])
    ensures Strip(s) == s
  {
  }

  predicate IsDigit(c: char)
  {
    '0' <= c <= '9'
  }

  predicate AllDigits(s: string)
  {
    forall i :: 0 <= i < |s| ==> IsDigit(s[i])
  }

  /** The value of a run of decimal digits, most significant first. */
  function DigitsValue(s: string): nat
    requires AllDigits(s)
    decreases |s|
  {
    if |s| == 0 then 0
    else DigitsValue(s[..|s| - 1]) * 10 + (s[|s| - 1] as int - '0' as int)
  }

  /** Python's `f"{n}"` for a non-negative integer. */
  function NatToString(n: nat): (s: string)
    ensures |s| > 0 && AllDigits(s)
    ensures |s| > 1 ==> s[0] != '0'
  {
    var d := ['0' + (n % 10) as char];
    if n < 10 then d else NatToString(n / 10) + d
  }

  /**
   Python's `int(s)` on the strings the merge meets: a non-empty run of ASCII
   decimal digits (leading zeros allowed) is accepted, anything else raises.
   */
  function ParseNat(s: string): (r: Option<nat>)
    ensures r.Some? <==> |s| > 0 && AllDigits(s)
  {
    if |s| > 0 && AllDigits(s) then Some(DigitsValue(s)) else None
  }

  /** Rendering then parsing a number gives the number back. */
  lemma {:induction false} ParseRender(n: nat)
    ensures ParseNat(NatToString(n)) == Some(n)
    decreases n
  {
    var s := NatToString(n);
    var d := ['0' + (n % 10) as char];
    assert s[|s| - 1] as int - '0' as int == n % 10;
    if n >= 10 {
      ParseRender(n / 10);
      assert s == NatToString(n / 10) + d;
      assert s[..|s| - 1] == NatToString(n / 10);
      assert DigitsValue(s) == (n / 10) * 10 + n % 10;
    } else {
      assert s == d;
      assert s[..|s| - 1] == [];
      assert DigitsValue(s) == DigitsValue([]) * 10 + n % 10;
    }
  }
}

/**
 The folder tree that `navigate_and_display` builds before its menu loop:
 every entry name is split on `/`, the leading parts become nested folders
 (created on demand with `setdefault`) and the last part holds the entry's
 size, or 0 when the name is missing from `file_sizes`.
 */
module FolderTree {
  import opened Wrappers
  import opened Strings

  /** A tree node: a file with its size, or a folder mapping names to nodes. */
  datatype Node = File(size: nat) | Folder(children: map<string, Node>)

  type Tree = map<string, Node>

  /** The parts of an entry name, as `file_name.split("/")`. */
  function Path(name: string): (p: seq<string>)
    ensures |p| >= 1
  {
    Split(name, "/")
  }

  /** `file_sizes.get(name, 0)`. */
  function SizeOf(sizes: map<string, nat>, name: string): nat
  {
    if name in sizes then sizes[name] else 0
  }

  /** The node reached by following `path` from the root, if any. */
  function Lookup(t: Tree, path: seq<string>): Option<Node>
    decreases |path|
  {
    if |path| == 0 then Some(Folder(t))
    else if path[0] !in t then None
    else match t[path[0]]
      case File(s) => if |path| == 1 then Some(File(s)) else None
      case Folder(c) => Lookup(c, path[1..])
  }

  predicate IsFileAt(t: Tree, path: seq<string>)
  {
    Lookup(t, path).Some? && Lookup(t, path).value.File?
  }

  predicate IsProperPrefix(p: seq<string>, q: seq<string>)
  {
    |p| < |q| && q[..|p|] == p
  }

  /** Some proper, non-empty prefix of `parts` already names a file. */
  predicate Blocked(t: Tree, parts: seq<string>)
  {
    exists k :: 1 <= k < |parts| && IsFileAt(t, parts[..k])
  }

  /**
   Placing one entry: walk `parts[..|parts| - 1]` with `setdefault(part, {})`
   and store the size under the last part. `None` is the exception Python
   raises when a part on the way already holds a file's size (an `int` has
   no `setdefault` and does not support item assignment).
   */
  function Insert(t: Tree, parts: seq<string>, size: nat): Option<Tree>
    requires |parts| >= 1
    decreases |parts|
  {
    if |parts| == 1 then Some(t[parts[0] := File(size)])
    else
      var child := if parts[0] in t then t[parts[0]] else Folder(map[]);
      match child
      case File(_) => None
      case Folder(c) =>
        match Insert(c, parts[1..], size)
        case None => None
        case Some(c') => Some(t[parts[0] := Folder(c')])
  }

  /** The whole build loop, one entry after another in `file_list` order. */
  function Build(names: seq<string>, sizes: map<string, nat>): Option<Tree>
    decreases |names|
  {
    if |names| == 0 then Some(map[])
    else
      var last := names[|names| - 1];
      match Build(names[..|names| - 1], sizes)
      case None => None
      case Some(t) => Insert(t, Path(last), SizeOf(sizes, last))
  }

  /** Placing an entry fails exactly when a file sits on a proper prefix of its path. */
  lemma {:induction false} InsertFailsIffBlocked(t: Tree, parts: seq<string>, size: nat)
    requires |parts| >= 1
    ensures Insert(t, parts, size).None? <==> Blocked(t, parts)
    decreases |parts|
  {
    if |parts| > 1 {
      var p0 := parts[0];
      assert parts[..1] == [p0];
      if p0 in t && t[p0].File? {
        assert IsFileAt(t, parts[..1]);
      } else {
        var c := if p0 in t then t[p0].children else map[];
        var tail := parts[1..];
        InsertFailsIffBlocked(c, tail, size);
        forall k | 1 <= k < |parts|
          ensures IsFileAt(t, parts[..k]) <==> (k >= 2 && IsFileAt(c, tail[..k - 1]))
        {
          var pk := parts[..k];
          assert pk[0] == p0;
          assert pk[1..] == tail[..k - 1];
          if p0 !in t {
            assert Lookup(t, pk) == None;
            if k >= 2 {
              assert Lookup(c, tail[..k - 1]) == None;
            }
          } else {
            assert Lookup(t, pk) == Lookup(c, pk[1..]);
            if k == 1 {
              assert pk[1..] == [];
            }
          }
        }
        if Blocked(c, tail) {
          var k :| 1 <= k < |tail| && IsFileAt(c, tail[..k]);
          assert IsFileAt(t, parts[..k + 1]);
        }
      }
    }
  }

  /**
   What placing one entry does to every path `q`: the entry's own path now
   holds a file of the given size (a later entry overwrites an earlier one),
   every proper prefix is a folder, nothing lies below the new file, and every
   other path is unchanged.
   */
  lemma {:induction false} InsertLookup(t: Tree, parts: seq<string>, size: nat, q: seq<string>)
    requires |parts| >= 1
    requires Insert(t, parts, size).Some?
    ensures var t' := Insert(t, parts, size).value;
      if q == parts then Lookup(t', q) == Some(File(size))
      else if IsProperPrefix(q, parts) then Lookup(t', q).Some? && Lookup(t', q).value.Folder?
      else if IsProperPrefix(parts, q) then Lookup(t', q) == None
      else Lookup(t', q) == Lookup(t, q)
    decreases |parts|
  {
    var t' := Insert(t, parts, size).value;
    var p0 := parts[0];
    if |q| > 0 && q[0] == p0 {
      if |parts| > 1 {
        var c := if p0 in t then t[p0].children else map[];
        var c' := Insert(c, parts[1..], size).value;
        assert t'[p0] == Folder(c');
        InsertLookup(c, parts[1..], size, q[1..]);
        assert Lookup(t', q) == Lookup(c', q[1..]);
        assert q == parts <==> q[1..] == parts[1..] by {
          if q[1..] == parts[1..] {
            assert q == [p0] + q[1..] && parts == [p0] + parts[1..];
          }
        }
        assert IsProperPrefix(q, parts) <==> IsProperPrefix(q[1..], parts[1..]) by {
          if |q| < |parts| {
            assert parts[..|q|] == [p0] + parts[1..][..|q| - 1];
            assert q == [p0] + q[1..];
          }
        }
        assert IsProperPrefix(parts, q) <==> IsProperPrefix(parts[1..], q[1..]) by {
          if |parts| < |q| {
            assert q[..|parts|] == [p0] + q[1..][..|parts| - 1];
            assert parts == [p0] + parts[1..];
          }
        }
        if p0 !in t && !(q == parts) && !IsProperPrefix(q, parts) && !IsProperPrefix(parts, q) {
          assert |q| > 1;
          assert Lookup(c, q[1..]) == None;
        }
      } else {
        if |q| > 1 {
          assert IsProperPrefix(parts, q) by {
            assert q[..1] == [p0];
          }
        } else {
          assert q == parts;
        }
      }
    } else if |q| == 0 {
      assert parts[..0] == q;
    } else {
      assert q[0] != p0;
      if |parts| > 1 {
        var c := if p0 in t then t[p0].children else map[];
        assert t' == t[p0 := Folder(Insert(c, parts[1..], size).value)];
      }
      assert !IsProperPrefix(q, parts) && !IsProperPrefix(parts, q);
    }
  }

  /** No entry's path is a proper prefix of another entry's path. */
  predicate PrefixFree(names: seq<string>)
  {
    forall i, j :: 0 <= i < |names| && 0 <= j < |names| ==> !IsProperPrefix(Path(names[i]), Path(names[j]))
  }

  /** Distinct entry names have distinct paths. */
  lemma PathInjective(a: string, b: string)
    requires Path(a) == Path(b)
    ensures a == b
  {
    SplitJoin(a, "/");
    SplitJoin(b, "/");
  }

  /**
   When no entry path is a proper prefix of another (true of an archive
   whose folders appear only implicitly, or as names ending in `/`), the build
   succeeds, every entry's size sits at its path, and every file in the tree
   belongs to some entry.
   */
  lemma {:induction false} BuildPlacesEveryEntry(names: seq<string>, sizes: map<string, nat>)
    requires PrefixFree(names)
    ensures Build(names, sizes).Some?
    ensures forall i :: 0 <= i < |names| ==>
              Lookup(Build(names, sizes).value, Path(names[i])) == Some(File(SizeOf(sizes, names[i])))
    ensures forall q :: IsFileAt(Build(names, sizes).value, q) ==> exists i :: 0 <= i < |names| && q == Path(names[i])
    decreases |names|
  {
    if |names| > 0 {
      var init := names[..|names| - 1];
      var n := names[|names| - 1];
      var parts := Path(n);
      var size := SizeOf(sizes, n);
      assert forall i :: 0 <= i < |init| ==> init[i] == names[i];
      assert PrefixFree(init);
      BuildPlacesEveryEntry(init, sizes);
      var t := Build(init, sizes).value;
      forall k | 1 <= k < |parts|
        ensures !IsFileAt(t, parts[..k])
      {
        forall j | 0 <= j < |init|
          ensures parts[..k] != Path(init[j])
        {
          assert !IsProperPrefix(Path(names[j]), Path(names[|names| - 1]));
        }
      }
      InsertFailsIffBlocked(t, parts, size);
      var t' := Insert(t, parts, size).value;
      assert Build(names, sizes) == Some(t');
      forall i | 0 <= i < |names|
        ensures Lookup(t', Path(names[i])) == Some(File(SizeOf(sizes, names[i])))
      {
        var q := Path(names[i]);
        InsertLookup(t, parts, size, q);
        if i < |init| && q != parts {
          assert !IsProperPrefix(Path(names[i]), Path(names[|names| - 1]));
          assert !IsProperPrefix(Path(names[|names| - 1]), Path(names[i]));
          assert Lookup(t, Path(init[i])) == Some(File(SizeOf(sizes, init[i])));
        } else if q == parts {
          PathInjective(names[i], n);
        }
      }
      forall q | IsFileAt(t', q)
        ensures exists i :: 0 <= i < |names| && q == Path(names[i])
      {
        InsertLookup(t, parts, size, q);
        if q != parts {
          assert IsFileAt(t, q);
          var j :| 0 <= j < |init| && q == Path(init[j]);
          assert q == Path(names[j]);
        } else {
          assert q == Path(names[|names| - 1]);
        }
      }
    }
  }
}

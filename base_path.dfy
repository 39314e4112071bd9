/**
 * The path value of server/df_basepath.py: a path is the tuple of its parts,
 * set once when it is built and never changed; every operation builds a new
 * path. Parsing a string into parts belongs to each kind of path (the remote
 * one is in module Sftp). The '/'-join and '/'-split of Python strings are
 * defined here, with their round trips.
 */
module BasePath {
  import opened Wrappers

  datatype Path = Path(parts: seq<string>)

  /** What `__init__` is given, apart from a string: nothing, another path, or parts. */
  datatype Source = NoPath | OfPath(path: Path) | OfParts(parts: seq<string>)

  /** `__init__`: no path means no parts; another path lends its parts. */
  function Make(src: Source): (p: Path)
    ensures src.NoPath? ==> p.parts == []
    ensures src.OfPath? ==> p == src.path
    ensures src.OfParts? ==> p.parts == src.parts
  {
    match src
    case NoPath => Path([])
    case OfPath(q) => Path(q.parts)
    case OfParts(parts) => Path(parts)
  }

  /** Python's `s[:n]` for `n >= 0`: the whole sequence when it is shorter than `n`. */
  function Take<T>(s: seq<T>, n: nat): (r: seq<T>)
    ensures |r| == if n <= |s| then n else |s|
    ensures r == s[..|r|]
  {
    if n <= |s| then s[..n] else s
  }

  /** `p.parts[:len(base.parts)] == base.parts`: `base` is a prefix of `p`. */
  predicate Under(p: Path, base: Path)
  {
    Take(p.parts, |base.parts|) == base.parts
  }

  /** `'/'.join(parts)`. */
  function SlashJoin(parts: seq<string>): (r: string)
    ensures |r| >= |parts| - 1
  {
    if |parts| == 0 then ""
    else if |parts| == 1 then parts[0]
    else parts[0] + "/" + SlashJoin(parts[1..])
  }

  /** `s.split('/')`: the pieces between the slashes, never fewer than one, none holding a slash. */
  function SlashSplit(s: string): (r: seq<string>)
    ensures |r| >= 1
    ensures forall i :: 0 <= i < |r| ==> '/' !in r[i]
    decreases |s|
  {
    if |s| == 0 then
      [""]
    else
      var rest := SlashSplit(s[1..]);
      if s[0] == '/' then [""] + rest else [[s[0]] + rest[0]] + rest[1..]
  }

  /** Joining what was split gives the string back. */
  lemma {:induction false} JoinSplit(s: string)
    ensures SlashJoin(SlashSplit(s)) == s
    decreases |s|
  {
    if |s| > 0 {
      var rest := SlashSplit(s[1..]);
      JoinSplit(s[1..]);
      if s[0] == '/' {
        assert SlashSplit(s) == [""] + rest;
      } else {
        var split := SlashSplit(s);
        assert split[1..] == rest[1..];
        if |rest| > 1 {
          assert SlashJoin(rest) == rest[0] + "/" + SlashJoin(rest[1..]);
        }
        assert SlashJoin(split) == [s[0]] + SlashJoin(rest);
        assert s == [s[0]] + s[1..];
      }
    }
  }

  /** A slash-free head fuses with the first piece of what follows it. */
  lemma {:induction false} SplitAfterPiece(a: string, t: string)
    requires '/' !in a
    ensures SlashSplit(a + t) == [a + SlashSplit(t)[0]] + SlashSplit(t)[1..]
    decreases |a|
  {
    var st := SlashSplit(t);
    if |a| == 0 {
      assert a + t == t && a + st[0] == st[0];
      assert st == [st[0]] + st[1..];
    } else {
      SplitAfterPiece(a[1..], t);
      assert (a + t)[1..] == a[1..] + t;
      assert [a[0]] + (a[1..] + st[0]) == a + st[0];
    }
  }

  /** Splitting what was joined gives the parts back, when no part holds a slash. */
  lemma {:induction false} SplitJoin(parts: seq<string>)
    requires |parts| >= 1
    requires forall i :: 0 <= i < |parts| ==> '/' !in parts[i]
    ensures SlashSplit(SlashJoin(parts)) == parts
    decreases |parts|
  {
    if |parts| == 1 {
      SplitAfterPiece(parts[0], "");
      assert parts[0] + "" == parts[0];
    } else {
      var tail := "/" + SlashJoin(parts[1..]);
      SplitJoin(parts[1..]);
      assert tail[0] == '/' && tail[1..] == SlashJoin(parts[1..]);
      assert SlashSplit(tail) == [""] + parts[1..];
      SplitAfterPiece(parts[0], tail);
      assert parts[0] + tail == SlashJoin(parts);
      assert parts[0] + "" == parts[0];
      assert parts == [parts[0]] + parts[1..];
    }
  }

  /** join: the path one part deeper. */
  function Join(p: Path, name: string): (r: Path)
    ensures |r.parts| == |p.parts| + 1 && r.parts[|p.parts|] == name
    ensures Under(r, p)
  {
    Path(p.parts + [name])
  }

  /** parent: `parts[:-1]`, so the path with no parts is its own parent. */
  function Parent(p: Path): (r: Path)
    ensures |p.parts| > 0 ==> |r.parts| == |p.parts| - 1
    ensures |p.parts| == 0 ==> r == p
    ensures Under(p, r)
  {
    if |p.parts| == 0 then p else Path(p.parts[..|p.parts| - 1])
  }

  /** The parent of a joined path is the path joined to. */
  lemma ParentOfJoin(p: Path, name: string)
    ensures Parent(Join(p, name)) == p
  {
    assert (p.parts + [name])[..|p.parts|] == p.parts;
  }

  /** A path with parts is its parent joined with its last part. */
  lemma JoinOfParent(p: Path)
    requires |p.parts| > 0
    ensures Join(Parent(p), p.parts[|p.parts| - 1]) == p
  {
    assert p.parts[..|p.parts| - 1] + [p.parts[|p.parts| - 1]] == p.parts;
  }

  /**
   * relpath: the '/'-joined parts of `p` below `base`, or None when `base`
   * is not a prefix of `p`.
   */
  function Relpath(p: Path, base: Path): (r: Option<string>)
    ensures r.Some? <==> |base.parts| <= |p.parts| && p.parts[..|base.parts|] == base.parts
    ensures r.Some? ==> r.value == SlashJoin(p.parts[|base.parts|..])
  {
    if Under(p, base) then Some(SlashJoin(p.parts[|base.parts|..])) else None
  }

  /** A path relative to itself is the empty string. */
  lemma RelpathSelf(p: Path)
    ensures Relpath(p, p) == Some("")
  {
    assert p.parts[|p.parts|..] == [];
  }

  /** A path joined with `name`, relative to the path joined to, is `name`. */
  lemma RelpathJoin(p: Path, name: string)
    ensures Relpath(Join(p, name), p) == Some(name)
  {
    assert (p.parts + [name])[|p.parts|..] == [name];
  }

  /**
   * convert: re-roots `p` from under `baseFrom` to under `baseTo`, keeping the
   * parts below the base; None when `baseFrom` is not a prefix of `p`.
   */
  function Convert(p: Path, baseFrom: Path, baseTo: Path): (r: Option<Path>)
    ensures r.Some? <==> Under(p, baseFrom)
    ensures r.Some? ==> Under(r.value, baseTo)
    ensures r.Some? ==> |r.value.parts| == |baseTo.parts| + |p.parts| - |baseFrom.parts|
    ensures r.Some? ==> r.value.parts == baseTo.parts + p.parts[|baseFrom.parts|..]
  {
    if Under(p, baseFrom) then Some(Path(baseTo.parts + p.parts[|baseFrom.parts|..])) else None
  }

  /** Converting back with the bases swapped restores the original path. */
  lemma ConvertRoundTrip(p: Path, baseFrom: Path, baseTo: Path)
    requires Convert(p, baseFrom, baseTo).Some?
    ensures Convert(Convert(p, baseFrom, baseTo).value, baseTo, baseFrom) == Some(p)
  {
    var q := Convert(p, baseFrom, baseTo).value;
    var rest := p.parts[|baseFrom.parts|..];
    assert q.parts[|baseTo.parts|..] == rest;
    assert baseFrom.parts + rest == p.parts;
  }

  /** Converting keeps the path relative to its base. */
  lemma ConvertKeepsRelpath(p: Path, baseFrom: Path, baseTo: Path)
    requires Convert(p, baseFrom, baseTo).Some?
    ensures Relpath(Convert(p, baseFrom, baseTo).value, baseTo) == Relpath(p, baseFrom)
  {
    var q := Convert(p, baseFrom, baseTo).value;
    assert q.parts[|baseTo.parts|..] == p.parts[|baseFrom.parts|..];
  }

  /**
   * The ancestors `parts[:i]`, `parts[:i-1]`, ..., `parts[:1]`, cut short at
   * the first one that does not lie under `root`.
   */
  function Ancestors(parts: seq<string>, i: nat, root: Option<Path>): (r: seq<Path>)
    requires i <= |parts|
    ensures |r| <= i
    ensures forall k :: 0 <= k < |r| ==> r[k].parts == parts[..i - k]
    ensures root.None? ==> |r| == i
    ensures root.Some? ==> forall k :: 0 <= k < |r| ==> Under(r[k], root.value)
    ensures root.Some? && |r| < i ==> !Under(Path(parts[..i - |r|]), root.value)
    decreases i
  {
    if i == 0 then
      []
    else if root.Some? && !Under(Path(parts[..i]), root.value) then
      []
    else
      [Path(parts[..i])] + Ancestors(parts, i - 1, root)
  }

  /**
   * parents: the proper non-empty prefixes of `p`, longest first, each the
   * parent of the one before; with a root, it stops at the first prefix that
   * does not lie under the root.
   */
  function Parents(p: Path, root: Option<Path>): (r: seq<Path>)
    ensures root.None? ==> |r| == if |p.parts| == 0 then 0 else |p.parts| - 1
    ensures forall k :: 0 <= k < |r| ==> |r[k].parts| == |p.parts| - 1 - k >= 1 && Under(p, r[k])
    ensures |r| > 0 ==> r[0] == Parent(p)
    ensures forall k :: 0 <= k < |r| - 1 ==> r[k + 1] == Parent(r[k])
    ensures root.Some? ==> forall k :: 0 <= k < |r| ==> Under(r[k], root.value)
    ensures root.Some? && |r| < |p.parts| - 1 ==> !Under(Path(p.parts[..|p.parts| - 1 - |r|]), root.value)
  {
    var n := if |p.parts| == 0 then 0 else |p.parts| - 1;
    var r := Ancestors(p.parts, n, root);
    assert forall k :: 0 <= k < |r| - 1 ==> r[k + 1].parts == r[k].parts[..n - k - 1];
    r
  }

  /** __str__: '/' for the root's one empty part, otherwise the '/'-joined parts. */
  function Str(p: Path): (r: string)
    ensures p.parts == [""] ==> r == "/"
    ensures p.parts != [""] ==> r == SlashJoin(p.parts)
  {
    if p.parts == [""] then "/" else SlashJoin(p.parts)
  }
}

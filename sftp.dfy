/**
 * Remote paths over SFTP (server/df_sftp.py): parsing a path string against
 * the session's working directory, the cached file mode behind isfile/isdir,
 * creating a missing directory chain, and walking a remote tree. The SFTP
 * session is an oracle: `stat` is a function from a path string to the file
 * mode (None when the file is not found), and a remote tree is a value.
 */
module Sftp {
  import opened Wrappers
  import opened BasePath

  /** cwdparts: the '/'-split of the working directory, or no parts when there is none. */
  function CwdParts(cwd: Option<string>): (r: seq<string>)
    ensures r == [] <==> cwd.None?
    ensures cwd.Some? ==> SlashJoin(r) == cwd.value
  {
    if cwd.None? then [] else JoinSplit(cwd.value); SlashSplit(cwd.value)
  }

  /** `path.startswith('/')`. */
  function Absolute(path: string): (r: bool)
    ensures r <==> |path| > 0 && SlashSplit(path)[0] == ""
  {
    |path| > 0 && path[0] == '/'
  }

  /**
   * The parts `_toparts` accumulates onto `acc` from `pieces`: '..' removes
   * the last part, any other piece is appended as it is; None where a '..'
   * finds nothing to remove (the pop raises).
   */
  ghost function Resolve(acc: seq<string>, pieces: seq<string>): Option<seq<string>>
    decreases |pieces|
  {
    if |pieces| == 0 then
      Some(acc)
    else if pieces[0] == ".." then
      if |acc| == 0 then None else Resolve(acc[..|acc| - 1], pieces[1..])
    else
      Resolve(acc + [pieces[0]], pieces[1..])
  }

  /** `_toparts`: starts from the working directory for a relative path, then folds in the pieces. */
  method ToParts(path: string, cwdparts: seq<string>) returns (r: Option<seq<string>>)
    ensures r == Resolve(if Absolute(path) then [] else cwdparts, SlashSplit(path))
  {
    var parts: seq<string> := [];
    if !Absolute(path) {
      parts := cwdparts;
    }
    ghost var start := parts;
    var pieces := SlashSplit(path);
    for i := 0 to |pieces|
      invariant Resolve(parts, pieces[i..]) == Resolve(start, pieces)
    {
      assert pieces[i..][0] == pieces[i] && pieces[i..][1..] == pieces[i + 1..];
      if pieces[i] == ".." {
        if |parts| == 0 {
          return None;
        }
        parts := parts[..|parts| - 1];
      } else {
        parts := parts + [pieces[i]];
      }
    }
    assert pieces[|pieces|..] == [];
    return Some(parts);
  }

  /** Without '..' every piece is appended verbatim, in order, empty and '.' pieces included. */
  lemma {:induction false} ResolveNoDots(acc: seq<string>, pieces: seq<string>)
    requires forall i :: 0 <= i < |pieces| ==> pieces[i] != ".."
    ensures Resolve(acc, pieces) == Some(acc + pieces)
    decreases |pieces|
  {
    if |pieces| > 0 {
      ResolveNoDots(acc + [pieces[0]], pieces[1..]);
      assert pieces == [pieces[0]] + pieces[1..];
      assert acc + [pieces[0]] + pieces[1..] == acc + pieces;
    } else {
      assert acc + pieces == acc;
    }
  }

  /** A '..' right after a name undoes that name. */
  lemma {:induction false} ResolveNameThenUp(acc: seq<string>, name: string, rest: seq<string>)
    requires name != ".."
    ensures Resolve(acc, [name, ".."] + rest) == Resolve(acc, rest)
  {
    var pieces := [name, ".."] + rest;
    assert pieces[1..] == [".."] + rest;
    assert pieces[1..][1..] == rest;
    assert (acc + [name])[..|acc|] == acc;
  }

  /**
   * Printing an absolute path and parsing it back gives its parts again, when
   * no part holds a slash or is '..'.
   */
  lemma ParsePrintRoundTrip(p: Path, cwdparts: seq<string>)
    requires |p.parts| >= 2 && p.parts[0] == ""
    requires forall i :: 0 <= i < |p.parts| ==> '/' !in p.parts[i] && p.parts[i] != ".."
    ensures Absolute(Str(p))
    ensures Resolve(if Absolute(Str(p)) then [] else cwdparts, SlashSplit(Str(p))) == Some(p.parts)
  {
    assert Str(p) == "" + "/" + SlashJoin(p.parts[1..]);
    SplitJoin(p.parts);
    ResolveNoDots([], p.parts);
    assert [] + p.parts == p.parts;
  }

  /**
   * The one exception: the root prefix that parents yields, ('',), prints as
   * '/', which parses back to ('', '').
   */
  lemma RootPrintsAsParsedRoot()
    ensures Str(Path([""])) == "/" == Str(Path(["", ""]))
    ensures Resolve([], SlashSplit("/")) == Some(["", ""])
  {
    assert "/"[1..] == "";
    assert SlashSplit("/") == ["", ""];
    ResolveNoDots([], ["", ""]);
    assert [] + ["", ""] == ["", ""];
  }

  /** A file mode as stat reports it. */
  type Mode = bv32

  const ModeTypeMask: Mode := 0xF000
  const ModeDir: Mode := 0x4000

  /** stat.S_ISDIR. */
  function IsDirMode(m: Mode): (r: bool)
    ensures r <==> (m >> 12) & 0xF == 4
  {
    m & ModeTypeMask == ModeDir
  }

  /** isfile on a fetched mode: a mode that is there and is not a directory. */
  predicate FileMode(m: Option<Mode>)
  {
    m.Some? && !IsDirMode(m.value)
  }

  /** isdir on a fetched mode: a mode that is there and is a directory. */
  predicate DirMode(m: Option<Mode>)
  {
    m.Some? && IsDirMode(m.value)
  }

  /** A path is never both a file and a directory, and a missing one is neither. */
  lemma FileDirExclusive(m: Option<Mode>)
    ensures !(FileMode(m) && DirMode(m))
    ensures m.None? ==> !FileMode(m) && !DirMode(m)
  {
  }

  /** `stat` on the remote side: the mode of a path, or None when it is not found. */
  type StatOracle = string -> Option<Mode>

  /** The `__mode` cache: not fetched yet, or what stat said (None for missing). */
  datatype ModeCache = NotFetched | Fetched(mode: Option<Mode>)

  /** `_RemotePath`: a path with the cached mode of what it names. */
  class RemotePath {
    const path: Path
    var cache: ModeCache

    constructor (path: Path)
      ensures this.path == path && cache == NotFetched
    {
      this.path := path;
      cache := NotFetched;
    }

    /** getmode: asks stat once and then answers from the cache. */
    method GetMode(stat: StatOracle) returns (m: Option<Mode>)
      modifies this
      ensures cache == Fetched(m)
      ensures old(cache).NotFetched? ==> m == stat(Str(path))
      ensures old(cache).Fetched? ==> m == old(cache).mode
    {
      if cache.NotFetched? {
        cache := Fetched(stat(Str(path)));
      }
      m := cache.mode;
    }

    /** isfile: the cached mode is there and is not a directory. */
    method IsFile(stat: StatOracle) returns (r: bool)
      modifies this
      ensures cache.Fetched? && (old(cache).Fetched? ==> cache == old(cache))
      ensures old(cache).NotFetched? ==> cache.mode == stat(Str(path))
      ensures r <==> FileMode(cache.mode)
    {
      var mode := GetMode(stat);
      r := mode.Some? && !IsDirMode(mode.value);
    }

    /** isdir: the cached mode is there and is a directory. */
    method IsDir(stat: StatOracle) returns (r: bool)
      modifies this
      ensures cache.Fetched? && (old(cache).Fetched? ==> cache == old(cache))
      ensures old(cache).NotFetched? ==> cache.mode == stat(Str(path))
      ensures r <==> DirMode(cache.mode)
    {
      var mode := GetMode(stat);
      r := mode.Some? && IsDirMode(mode.value);
    }
  }

  /** `path, *path.parents()`: the path and then each of its ancestors, each the parent of the one before. */
  function Lineage(path: Path): (chain: seq<Path>)
    ensures |chain| >= 1 && chain[0] == path
    ensures forall k :: 0 <= k < |chain| - 1 ==> chain[k + 1] == Parent(chain[k])
    ensures |chain[|chain| - 1].parts| <= 1
  {
    [path] + Parents(path, None)
  }

  /**
   * Creating, deepest last, the first `n` paths of a lineage that stat does
   * not find, up to one it finds or the end of the lineage, creates exactly
   * the missing chain below the first existing ancestor.
   */
  lemma CreatedChain(path: Path, stat: StatOracle, n: nat, created: seq<Path>)
    requires n <= |Lineage(path)|
    requires forall k :: 0 <= k < n ==> stat(Str(Lineage(path)[k])).None?
    requires n < |Lineage(path)| ==> stat(Str(Lineage(path)[n])).Some?
    requires |created| == n && forall k :: 0 <= k < n ==> created[k] == Lineage(path)[n - 1 - k]
    ensures stat(Str(path)).Some? ==> created == []
    ensures stat(Str(path)).None? ==> |created| >= 1 && created[|created| - 1] == path
    ensures forall k :: 0 <= k < |created| ==> stat(Str(created[k])).None?
    ensures forall k :: 0 <= k < |created| - 1 ==> created[k] == Parent(created[k + 1])
    ensures |created| >= 1 && |created[0].parts| >= 2 ==> stat(Str(Parent(created[0]))).Some?
  {
    var chain := Lineage(path);
    forall k | 0 <= k < |created| - 1 ensures created[k] == Parent(created[k + 1]) {
      assert chain[n - 1 - k] == Parent(chain[n - 2 - k]);
    }
  }

  /**
   * sftp_makedirs: looks up `path` and then its parents until one exists,
   * then creates the missing ones shallowest first. The result lists the
   * directories created, in the order they are made.
   */
  method Makedirs(path: Path, stat: StatOracle) returns (created: seq<Path>)
    ensures stat(Str(path)).Some? ==> created == []
    ensures stat(Str(path)).None? ==> |created| >= 1 && created[|created| - 1] == path
    ensures forall k :: 0 <= k < |created| ==> stat(Str(created[k])).None?
    ensures forall k :: 0 <= k < |created| - 1 ==> created[k] == Parent(created[k + 1])
    ensures |created| >= 1 && |created[0].parts| >= 2 ==> stat(Str(Parent(created[0]))).Some?
  {
    var chain := Lineage(path);
    var toCreate: seq<Path> := [];
    var i := 0;
    while i < |chain| && stat(Str(chain[i])).None?
      invariant 0 <= i <= |chain| && toCreate == chain[..i]
      invariant forall k :: 0 <= k < i ==> stat(Str(chain[k])).None?
    {
      toCreate := toCreate + [chain[i]];
      i := i + 1;
    }
    created := [];
    var j := |toCreate|;
    while j > 0
      invariant 0 <= j <= |toCreate| && |created| == |toCreate| - j
      invariant forall k :: 0 <= k < |created| ==> created[k] == toCreate[|toCreate| - 1 - k]
    {
      j := j - 1;
      created := created + [toCreate[j]];
    }
    CreatedChain(path, stat, i, created);
  }

  /** A remote directory entry: a file, or a directory with its own entries. */
  datatype Entry = File(name: string) | Dir(name: string, entries: seq<Entry>)

  /** One step of the walk: a directory, its subdirectory names and its file names. */
  datatype Visit = Visit(root: string, dirs: seq<string>, files: seq<string>)

  /** The names of the directories among `es`, in listing order. */
  function DirNames(es: seq<Entry>): (r: seq<string>)
    ensures |r| <= |es|
  {
    if |es| == 0 then []
    else
      var last := es[|es| - 1];
      DirNames(es[..|es| - 1]) + (if last.Dir? then [last.name] else [])
  }

  /** The names of the files among `es`, in listing order. */
  function FileNames(es: seq<Entry>): (r: seq<string>)
    ensures |r| + |DirNames(es)| == |es|
  {
    if |es| == 0 then []
    else
      var last := es[|es| - 1];
      FileNames(es[..|es| - 1]) + (if last.File? then [last.name] else [])
  }

  /** The directories below the one listed as `es`, at any depth. */
  function DirCount(es: seq<Entry>): nat
    decreases es
  {
    if |es| == 0 then 0
    else
      var last := es[|es| - 1];
      (if last.Dir? then 1 + DirCount(last.entries) else 0) + DirCount(es[..|es| - 1])
  }

  /**
   * The visits a top-down walk of the directory at `root`, listed as `es`,
   * yields: the directory itself, then its subdirectories' walks, last one
   * first (the stack pops what was pushed last).
   */
  ghost function WalkOf(root: string, es: seq<Entry>): (r: seq<Visit>)
    ensures |r| == 1 + DirCount(es)
    decreases es, 1
  {
    [Visit(root, DirNames(es), FileNames(es))] + WalkBelow(root, es)
  }

  ghost function WalkBelow(root: string, es: seq<Entry>): (r: seq<Visit>)
    ensures |r| == DirCount(es)
    decreases es, 0
  {
    if |es| == 0 then []
    else
      var last := es[|es| - 1];
      (if last.Dir? then WalkOf(root + "/" + last.name, last.entries) else [])
        + WalkBelow(root, es[..|es| - 1])
  }

  /** The visits still owed for a stack of (path, listing) pairs, top (last) first. */
  ghost function WalkStack(stack: seq<(string, seq<Entry>)>): seq<Visit>
  {
    if |stack| == 0 then []
    else
      var top := stack[|stack| - 1];
      WalkOf(top.0, top.1) + WalkStack(stack[..|stack| - 1])
  }

  /** What `to_pass.extend(...)` pushes: the subdirectories of `root`, in listing order. */
  function Pushes(root: string, es: seq<Entry>): (r: seq<(string, seq<Entry>)>)
    ensures |r| == |DirNames(es)|
  {
    if |es| == 0 then []
    else
      var last := es[|es| - 1];
      Pushes(root, es[..|es| - 1])
        + (if last.Dir? then [(root + "/" + last.name, last.entries)] else [])
  }

  lemma {:induction false} WalkStackAppend(s: seq<(string, seq<Entry>)>, t: seq<(string, seq<Entry>)>)
    ensures WalkStack(s + t) == WalkStack(t) + WalkStack(s)
    decreases |t|
  {
    if |t| == 0 {
      assert s + t == s;
    } else {
      var top := t[|t| - 1];
      assert (s + t)[..|s + t| - 1] == s + t[..|t| - 1];
      WalkStackAppend(s, t[..|t| - 1]);
    }
  }

  lemma {:induction false} WalkStackPushes(root: string, es: seq<Entry>)
    ensures WalkStack(Pushes(root, es)) == WalkBelow(root, es)
    decreases |es|
  {
    if |es| > 0 {
      var last := es[|es| - 1];
      var front := Pushes(root, es[..|es| - 1]);
      WalkStackPushes(root, es[..|es| - 1]);
      if last.Dir? {
        var item := (root + "/" + last.name, last.entries);
        WalkStackAppend(front, [item]);
        assert WalkStack([item]) == WalkOf(item.0, item.1) by {
          assert [item][..0] == [];
        }
      } else {
        assert Pushes(root, es) == front;
      }
    }
  }


  /** Popping a directory owes its own visit, then its subdirectories' walks, then the rest. */
  lemma PopAndPush(stack: seq<(string, seq<Entry>)>)
    requires |stack| > 0
    ensures var top := stack[|stack| - 1];
            WalkStack(stack) ==
              [Visit(top.0, DirNames(top.1), FileNames(top.1))]
                + WalkStack(stack[..|stack| - 1] + Pushes(top.0, top.1))
  {
    var top := stack[|stack| - 1];
    var below := stack[..|stack| - 1];
    WalkStackAppend(below, Pushes(top.0, top.1));
    WalkStackPushes(top.0, top.1);
  }

  /**
   * sftp_walk: refuses the bottom-up order (NotImplementedError, here None);
   * top-down, it pops a directory off a stack, yields its listing split into
   * subdirectory and file names, and pushes the subdirectories.
   */
  method Walk(root: string, listing: seq<Entry>, topDown: bool) returns (r: Option<seq<Visit>>)
    ensures !topDown ==> r.None?
    ensures topDown ==> r == Some(WalkOf(root, listing))
  {
    if !topDown {
      return None;
    }
    var toPass := [(root, listing)];
    var visits: seq<Visit> := [];
    assert WalkStack(toPass) == WalkOf(root, listing) + WalkStack([]);
    while |toPass| > 0
      invariant visits + WalkStack(toPass) == WalkOf(root, listing)
      decreases |WalkStack(toPass)|
    {
      PopAndPush(toPass);
      var curr := toPass[|toPass| - 1];
      toPass := toPass[..|toPass| - 1];
      var es := curr.1;
      visits := visits + [Visit(curr.0, DirNames(es), FileNames(es))];
      toPass := toPass + Pushes(curr.0, es);
    }
    assert visits + [] == visits;
    return Some(visits);
  }
}

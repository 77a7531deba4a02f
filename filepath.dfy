/**
 * Go's path/filepath on a Unix host (separator '/'): Clean, Join, Abs and
 * Split, which the discovery, matching and URI code use to build paths.
 */
module FilePath {
  import GoStrings

  /** filepath.IsAbs */
  predicate IsAbs(p: string) {
    |p| > 0 && p[0] == '/'
  }

  /**
   * The element-by-element pass of filepath.Clean: empty and "." elements
   * vanish, ".." removes the element before it; at the root ".." vanishes,
   * in a relative path a ".." that has nothing to remove is kept.
   */
  function Resolve(rooted: bool, stack: seq<string>, elems: seq<string>): seq<string>
    decreases |elems|
  {
    if elems == [] then stack
    else
      var e := elems[0];
      if e == "" || e == "." then Resolve(rooted, stack, elems[1..])
      else if e == ".." then
        if |stack| > 0 && stack[|stack| - 1] != ".." then Resolve(rooted, stack[..|stack| - 1], elems[1..])
        else if rooted then Resolve(rooted, stack, elems[1..])
        else Resolve(rooted, stack + [".."], elems[1..])
      else Resolve(rooted, stack + [e], elems[1..])
  }

  /** filepath.Clean: the shortest lexically equivalent path */
  function Clean(p: string): (r: string)
    ensures IsAbs(p) ==> IsAbs(r)
  {
    if p == "" then "."
    else
      var rooted := p[0] == '/';
      var elems := Resolve(rooted, [], GoStrings.Split(p, '/'));
      if rooted then "/" + GoStrings.Join(elems, '/')
      else if elems == [] then "."
      else GoStrings.Join(elems, '/')
  }

  /** filepath.Join: the non-empty elements joined with '/' and cleaned; "" when all are empty */
  function Join(parts: seq<string>): (r: string)
    ensures (forall k | 0 <= k < |parts| :: parts[k] == "") ==> r == ""
  {
    if parts == [] then ""
    else if parts[0] == "" then Join(parts[1..])
    else Clean(GoStrings.Join(parts, '/'))
  }

  /** filepath.Abs, with the working directory (os.Getwd) as a parameter */
  function Abs(cwd: string, p: string): (r: string)
    requires IsAbs(cwd)
    ensures IsAbs(r)
  {
    if IsAbs(p) then Clean(p)
    else
      assert GoStrings.Join([cwd, p], '/') == cwd + "/" + p;
      Join([cwd, p])
  }

  /** The two results of filepath.Split */
  datatype DirAndFile = DirAndFile(dir: string, file: string)

  /** filepath.Split: everything up to and including the last separator, and the rest */
  function Split(p: string): (r: DirAndFile)
    ensures r.dir + r.file == p
    ensures forall k | 0 <= k < |r.file| :: r.file[k] != '/'
    ensures r.dir == "" || r.dir[|r.dir| - 1] == '/'
  {
    var i := LastSeparator(p);
    DirAndFile(p[..i + 1], p[i + 1..])
  }

  /** The index of the last '/' in `p`, or -1 */
  function LastSeparator(p: string): (i: int)
    ensures -1 <= i < |p|
    ensures i >= 0 ==> p[i] == '/'
    ensures forall k | i < k < |p| :: p[k] != '/'
  {
    if |p| == 0 then -1
    else if p[|p| - 1] == '/' then |p| - 1
    else LastSeparator(p[..|p| - 1])
  }

  // ---------------------------------------------------------------------
  // Properties of Clean used by the container matching
  // ---------------------------------------------------------------------

  /** A path element that Clean leaves alone. */
  predicate IsPlainElement(e: string) {
    e != "" && e != "." && e != ".." && '/' !in e
  }

  predicate AllPlain(elems: seq<string>) {
    forall k | 0 <= k < |elems| :: IsPlainElement(elems[k])
  }

  /** The absolute path whose elements are `elems` */
  function RootedPath(elems: seq<string>): string {
    "/" + GoStrings.Join(elems, '/')
  }

  lemma {:induction false} ResolveKeepsNonEmpty(rooted: bool, stack: seq<string>, elems: seq<string>)
    requires forall k | 0 <= k < |stack| :: stack[k] != ""
    ensures forall k | 0 <= k < |Resolve(rooted, stack, elems)| :: Resolve(rooted, stack, elems)[k] != ""
    decreases |elems|
  {
    if elems != [] {
      var e := elems[0];
      if e == "" || e == "." {
        ResolveKeepsNonEmpty(rooted, stack, elems[1..]);
      } else if e == ".." {
        if |stack| > 0 && stack[|stack| - 1] != ".." {
          ResolveKeepsNonEmpty(rooted, stack[..|stack| - 1], elems[1..]);
        } else if rooted {
          ResolveKeepsNonEmpty(rooted, stack, elems[1..]);
        } else {
          ResolveKeepsNonEmpty(rooted, stack + [".."], elems[1..]);
        }
      } else {
        ResolveKeepsNonEmpty(rooted, stack + [e], elems[1..]);
      }
    }
  }

  /** Resolving a concatenation resolves the second part on the stack the first left. */
  lemma {:induction false} ResolveAppend(rooted: bool, stack: seq<string>, a: seq<string>, b: seq<string>)
    ensures Resolve(rooted, stack, a + b) == Resolve(rooted, Resolve(rooted, stack, a), b)
    decreases |a|
  {
    if a != [] {
      assert (a + b)[0] == a[0] && (a + b)[1..] == a[1..] + b;
      var e := a[0];
      if e == "" || e == "." {
        ResolveAppend(rooted, stack, a[1..], b);
      } else if e == ".." {
        if |stack| > 0 && stack[|stack| - 1] != ".." {
          ResolveAppend(rooted, stack[..|stack| - 1], a[1..], b);
        } else if rooted {
          ResolveAppend(rooted, stack, a[1..], b);
        } else {
          ResolveAppend(rooted, stack + [".."], a[1..], b);
        }
      } else {
        ResolveAppend(rooted, stack + [e], a[1..], b);
      }
    } else {
      assert a + b == b;
    }
  }

  /** Plain elements are pushed unchanged. */
  lemma {:induction false} ResolvePlain(rooted: bool, stack: seq<string>, elems: seq<string>)
    requires AllPlain(elems)
    ensures Resolve(rooted, stack, elems) == stack + elems
    decreases |elems|
  {
    if elems != [] {
      ResolvePlain(rooted, stack + [elems[0]], elems[1..]);
      assert stack + [elems[0]] + elems[1..] == stack + elems;
    }
  }

  /** The text of a rooted path, split at '/', is an empty root part followed by its elements. */
  lemma {:induction false} SplitRootedPath(elems: seq<string>)
    requires |elems| >= 1 && AllPlain(elems)
    ensures GoStrings.Split(RootedPath(elems), '/') == [""] + elems
  {
    GoStrings.SplitJoin(elems, '/');
    GoStrings.SplitPartThenSeparator("", GoStrings.Join(elems, '/'), '/');
    assert "" + ['/'] + GoStrings.Join(elems, '/') == RootedPath(elems);
  }

  /** A path made of plain elements is already clean. */
  lemma {:induction false} CleanRootedPath(elems: seq<string>)
    requires |elems| >= 1 && AllPlain(elems)
    ensures Clean(RootedPath(elems)) == RootedPath(elems)
  {
    var p := RootedPath(elems);
    SplitRootedPath(elems);
    var parts := [""] + elems;
    assert parts[0] == "" && parts[1..] == elems;
    assert Resolve(true, [], parts) == Resolve(true, [], elems);
    ResolvePlain(true, [], elems);
    assert p != "" && p[0] == '/';
    assert Clean(p) == "/" + GoStrings.Join(Resolve(true, [], GoStrings.Split(p, '/')), '/');
    assert GoStrings.Split(p, '/') == parts;
    assert Resolve(true, [], parts) == elems;
  }

  /** Clean drops a trailing slash: "/path/to/project/" cleans to "/path/to/project". */
  lemma {:induction false} CleanTrailingSlash(elems: seq<string>)
    requires |elems| >= 1 && AllPlain(elems)
    ensures Clean(RootedPath(elems) + "/") == RootedPath(elems)
  {
    var parts := [""] + elems + [""];
    GoStrings.JoinAppend([""] + elems, [""], '/');
    GoStrings.JoinAppend([""], elems, '/');
    assert GoStrings.Join(parts, '/') == RootedPath(elems) + "/";
    assert forall k | 0 <= k < |parts| :: '/' !in parts[k];
    GoStrings.SplitJoin(parts, '/');
    ResolveAppend(true, [], [""] + elems, [""]);
    ResolveAppend(true, [], [""], elems);
    ResolvePlain(true, [], elems);
    assert Resolve(true, [], [""]) == [];
    assert Resolve(true, elems, [""]) == elems;
    var p := RootedPath(elems) + "/";
    assert p != "" && p[0] == '/';
    assert Clean(p) == "/" + GoStrings.Join(Resolve(true, [], GoStrings.Split(p, '/')), '/');
    assert GoStrings.Split(p, '/') == parts;
    assert Resolve(true, [], parts) == elems;
  }

  /** Appending one plain element to a clean path gives a clean path with that element last. */
  lemma {:induction false} CleanChild(elems: seq<string>, child: string)
    requires |elems| >= 1 && AllPlain(elems) && IsPlainElement(child)
    ensures Clean(RootedPath(elems) + "/" + child) == RootedPath(elems + [child])
    ensures GoStrings.HasPrefix(RootedPath(elems + [child]), RootedPath(elems) + "/")
  {
    GoStrings.JoinAppend(elems, [child], '/');
    assert RootedPath(elems + [child]) == RootedPath(elems) + "/" + child;
    CleanRootedPath(elems + [child]);
  }
}

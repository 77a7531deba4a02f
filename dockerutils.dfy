/**
 * Matching running dev containers (internal/pkg/devcontainers/dockerutils.go):
 * parsing the `docker ps` listing, choosing the container whose local
 * folder is the longest prefix of a path, and building the argument
 * vector of `docker exec`.
 */
module Docker {
  import opened Wrappers
  import opened Errors
  import opened GoStrings
  import FilePath

  /** DevcontainerInfo */
  datatype DevcontainerInfo = DevcontainerInfo(
    containerId: string,
    containerName: string,
    devcontainerName: string,
    localFolderPath: string)

  /** Field positions in a `|`-separated listing line */
  const ListPartId: nat := 0
  const ListPartLocalFolder: nat := 1
  const ListPartContainerName: nat := 5

  /** The separators after which the folder's last segment starts */
  const PathSeparators: set<char> := {'/', '\\'}

  // ---------------------------------------------------------------------
  // bufio.Scanner with ScanLines
  // ---------------------------------------------------------------------

  /** ScanLines drops one trailing carriage return from each line */
  function DropCR(s: string): (r: string)
    ensures r == s || (s == r + "\r")
  {
    if |s| > 0 && s[|s| - 1] == '\r' then s[..|s| - 1] else s
  }

  /**
   * The tokens a Scanner yields before dropping carriage returns: the text
   * between newlines, where a final empty piece (the output ends in a
   * newline, or is empty) is no token.
   */
  function Tokens(output: string): (tokens: seq<string>)
    ensures forall k | 0 <= k < |tokens| :: '\n' !in tokens[k]
  {
    var parts := Split(output, '\n');
    SplitPartsHaveNoSeparator(output, '\n');
    if parts[|parts| - 1] == "" then parts[..|parts| - 1] else parts
  }

  /** The lines a Scanner yields: its tokens, each without one trailing carriage return */
  function ScanLines(output: string): (lines: seq<string>)
    ensures forall k | 0 <= k < |lines| :: '\n' !in lines[k]
  {
    var tokens := Tokens(output);
    seq(|tokens|, k requires 0 <= k < |tokens| => DropCR(tokens[k]))
  }

  /**
   * For output without carriage returns, the lines joined back with
   * newlines, plus the final newline when there was one, give the output.
   */
  lemma {:induction false} ScanLinesJoin(output: string)
    requires '\r' !in output
    ensures var lines := ScanLines(output);
            output == if output != [] && output[|output| - 1] == '\n' then Join(lines, '\n') + "\n"
                      else Join(lines, '\n')
  {
    ScanLinesWithoutCR(output);
    TokensJoin(output);
  }

  /** The tokens joined back with newlines, plus the final newline when there was one, give the output. */
  lemma {:induction false} TokensJoin(output: string)
    ensures output == if output != [] && output[|output| - 1] == '\n' then Join(Tokens(output), '\n') + "\n"
                      else Join(Tokens(output), '\n')
  {
    var parts := Split(output, '\n');
    var n := |parts| - 1;
    assert Join(parts, '\n') == output by {
      JoinSplit(output, '\n');
    }
    assert parts[n] == "" <==> (|output| == 0 || output[|output| - 1] == '\n') by {
      LastPiece(output, '\n');
    }
    if parts[n] == "" && n > 0 {
      assert Join(parts, '\n') == Join(parts[..n], '\n') + "\n" + Join([""], '\n') by {
        assert parts == parts[..n] + [""];
        JoinAppend(parts[..n], [""], '\n');
      }
    }
  }

  /** Without carriage returns the lines are the tokens. */
  lemma {:induction false} ScanLinesWithoutCR(output: string)
    requires '\r' !in output
    ensures ScanLines(output) == Tokens(output)
  {
    SplitNoCarriageReturn(output);
  }

  lemma {:induction false} SplitNoCarriageReturn(s: string)
    requires '\r' !in s
    ensures forall k | 0 <= k < |Split(s, '\n')| :: DropCR(Split(s, '\n')[k]) == Split(s, '\n')[k]
  {
    forall k | 0 <= k < |Split(s, '\n')| ensures '\r' !in Split(s, '\n')[k] {
      SplitPartsStayInside(s, '\n', k);
    }
  }

  /** Every character of a part occurs in the split text */
  lemma {:induction false} SplitPartsStayInside(s: string, sep: char, k: nat)
    requires k < |Split(s, sep)|
    ensures forall c | c in Split(s, sep)[k] :: c in s
    decreases |s|
  {
    if |s| > 0 {
      var rest := Split(s[1..], sep);
      assert forall c | c in s[1..] :: c in s;
      if s[0] == sep {
        if k > 0 {
          SplitPartsStayInside(s[1..], sep, k - 1);
          assert Split(s, sep)[k] == rest[k - 1];
        }
      } else if k == 0 {
        SplitPartsStayInside(s[1..], sep, 0);
        assert Split(s, sep)[0] == [s[0]] + rest[0];
      } else {
        SplitPartsStayInside(s[1..], sep, k);
        assert Split(s, sep)[k] == rest[k];
      }
    }
  }

  /** The last piece of a split is empty iff the text is empty or ends in the separator */
  lemma {:induction false} LastPiece(s: string, sep: char)
    ensures Split(s, sep)[|Split(s, sep)| - 1] == "" <==> (|s| == 0 || s[|s| - 1] == sep)
    decreases |s|
  {
    if |s| > 0 {
      var rest := Split(s[1..], sep);
      if |s| == 1 {
        assert s[1..] == "" && rest == [""];
      } else {
        assert s[1..][|s[1..]| - 1] == s[|s| - 1];
        LastPiece(s[1..], sep);
        if s[0] != sep && |rest| == 1 {
          JoinSplit(s[1..], sep);
          SplitPartsHaveNoSeparator(s[1..], sep);
          assert s[1..] == rest[0];
          assert s[|s| - 1] in rest[0];
        }
      }
    }
  }

  // ---------------------------------------------------------------------
  // One listing line
  // ---------------------------------------------------------------------

  /** The text after the last `/` or `\`, or all of `name` when it has neither */
  function LastSegment(name: string): (r: string)
    ensures HasSuffix(name, r)
    ensures forall k | 0 <= k < |r| :: r[k] !in PathSeparators
    ensures |r| < |name| ==> name[|name| - |r| - 1] in PathSeparators
  {
    var i := LastIndexAny(name, PathSeparators);
    if i >= 0 then name[i + 1..] else name
  }

  /**
   * The loop body of ListDevcontainers for one line: Success(None) skips a
   * line that is not a dev container, a missing field (a panic in the
   * source) is an IndexOutOfRange error.
   */
  function ParseLine(line: string): Result<Option<DevcontainerInfo>, Error>
  {
    var parts := Split(line, '|');
    if |parts| <= ListPartLocalFolder then Failure(IndexOutOfRange(ListPartLocalFolder, |parts|))
    else
      var localPath := parts[ListPartLocalFolder];
      if localPath == "" then Success(None)
      else if |parts| <= ListPartContainerName then Failure(IndexOutOfRange(ListPartContainerName, |parts|))
      else Success(Some(DevcontainerInfo(parts[ListPartId], parts[ListPartContainerName], LastSegment(localPath), localPath)))
  }

  /**
   * A line fails to parse iff it has no local-folder field, or has a
   * non-empty one and no container-name field; it is skipped iff its
   * local-folder field is empty.
   */
  lemma {:induction false} ParseLineOutcome(line: string)
    ensures var r := ParseLine(line);
            var parts := Split(line, '|');
            && (r.Failure? <==> |parts| <= ListPartLocalFolder
                                || (parts[ListPartLocalFolder] != "" && |parts| <= ListPartContainerName))
            && (r == Success(None) <==> |parts| > ListPartLocalFolder && parts[ListPartLocalFolder] == "")
  {
  }

  /**
   * A parsed container takes its id from field 0, its container name from
   * field 5, its local folder from field 1 (never empty) and its dev
   * container name is the last segment of that folder.
   */
  lemma {:induction false} ParsedLineFields(line: string)
    requires ParseLine(line).Success? && ParseLine(line).value.Some?
    ensures var d := ParseLine(line).value.value;
            var parts := Split(line, '|');
            && |parts| >= 6
            && d.containerId == parts[0]
            && d.containerName == parts[5]
            && d.localFolderPath == parts[1] != ""
            && HasSuffix(d.localFolderPath, d.devcontainerName)
            && (forall k | 0 <= k < |d.devcontainerName| :: d.devcontainerName[k] !in PathSeparators)
  {
  }

  /**
   * The results of a line parser over a listing, in line order; the first
   * line the parser rejects is the error of the whole listing.
   */
  function ParseLines<T>(lines: seq<string>, parse: string -> Result<Option<T>, Error>): Result<seq<T>, Error>
  {
    if lines == [] then Success([])
    else
      var prev :- ParseLines(lines[..|lines| - 1], parse);
      var info :- parse(lines[|lines| - 1]);
      Success(prev + if info.Some? then [info.value] else [])
  }

  /** The containers of a listing, in line order (a specification of ListDevcontainers) */
  function ParsedContainers(lines: seq<string>): Result<seq<DevcontainerInfo>, Error>
  {
    ParseLines(lines, ParseLine)
  }

  /** The parse of a listing with one more line, in terms of the parse of the listing and of that line */
  lemma {:induction false} ParseLinesSnoc<T>(lines: seq<string>, line: string, parse: string -> Result<Option<T>, Error>)
    ensures ParseLines(lines + [line], parse) ==
            match ParseLines(lines, parse)
            case Failure(e) => Failure(e)
            case Success(prev) =>
              match parse(line)
              case Failure(e) => Failure(e)
              case Success(info) => Success(prev + if info.Some? then [info.value] else [])
  {
    assert (lines + [line])[..|lines|] == lines;
  }

  /** Once a listing fails, no further lines change its error. */
  lemma {:induction false} ParseLinesFailurePersists<T>(lines: seq<string>, more: seq<string>, parse: string -> Result<Option<T>, Error>)
    requires ParseLines(lines, parse).Failure?
    ensures ParseLines(lines + more, parse) == ParseLines(lines, parse)
    decreases |more|
  {
    if more == [] {
      assert lines + more == lines;
    } else {
      var n := |more| - 1;
      ParseLinesFailurePersists(lines, more[..n], parse);
      assert lines + more == (lines + more[..n]) + [more[n]];
      ParseLinesSnoc(lines + more[..n], more[n], parse);
    }
  }

  /** A listing whose prefix fails fails with the prefix's error. */
  lemma {:induction false} FailedPrefix<T>(lines: seq<string>, j: nat, parse: string -> Result<Option<T>, Error>)
    requires j <= |lines| && ParseLines(lines[..j], parse).Failure?
    ensures ParseLines(lines, parse) == ParseLines(lines[..j], parse)
  {
    ParseLinesFailurePersists(lines[..j], lines[j..], parse);
    assert lines[..j] + lines[j..] == lines;
  }

  /** One more accepted line extends the parsed prefix by what that line gives. */
  lemma {:induction false} ParseLinesStep<T>(lines: seq<string>, i: nat, acc: seq<T>, parse: string -> Result<Option<T>, Error>)
    requires i < |lines| && ParseLines(lines[..i], parse) == Success(acc)
    requires parse(lines[i]).Success?
    ensures var info := parse(lines[i]).value;
            ParseLines(lines[..i + 1], parse) == Success(acc + if info.Some? then [info.value] else [])
  {
    assert lines[..i + 1] == lines[..i] + [lines[i]];
    ParseLinesSnoc(lines[..i], lines[i], parse);
  }

  /** A rejected line after an accepted prefix is the error of the whole listing. */
  lemma {:induction false} ParseLinesStop<T>(lines: seq<string>, i: nat, parse: string -> Result<Option<T>, Error>)
    requires i < |lines| && ParseLines(lines[..i], parse).Success?
    requires parse(lines[i]).Failure?
    ensures ParseLines(lines, parse) == Failure(parse(lines[i]).error)
  {
    assert ParseLines(lines[..i + 1], parse) == Failure(parse(lines[i]).error) by {
      assert lines[..i + 1] == lines[..i] + [lines[i]];
      ParseLinesSnoc(lines[..i], lines[i], parse);
    }
    FailedPrefix(lines, i + 1, parse);
  }

  /**
   * The body of ListDevcontainers' loop for one line: None for a line
   * without a local folder (`continue`), an error for a missing field.
   */
  method ParseListingLine(line: string) returns (r: Result<Option<DevcontainerInfo>, Error>)
    ensures r == ParseLine(line)
  {
    var parts := Split(line, '|');
    if |parts| <= ListPartLocalFolder {
      return Failure(IndexOutOfRange(ListPartLocalFolder, |parts|));
    }
    var localPath := parts[ListPartLocalFolder];
    if localPath == "" {
      return Success(None);
    }
    var name := parts[ListPartLocalFolder];
    var index := LastIndexAny(name, PathSeparators);
    if index >= 0 {
      name := name[index + 1..];
    }
    if |parts| <= ListPartContainerName {
      return Failure(IndexOutOfRange(ListPartContainerName, |parts|));
    }
    return Success(Some(DevcontainerInfo(parts[ListPartId], parts[ListPartContainerName], name, localPath)));
  }

  /** ListDevcontainers, given the output of `docker ps` */
  method ListDevcontainers(output: string) returns (r: Result<seq<DevcontainerInfo>, Error>)
    ensures r == ParsedContainers(ScanLines(output))
  {
    var lines := ScanLines(output);
    var devcontainers: seq<DevcontainerInfo> := [];
    for i := 0 to |lines|
      invariant ParseLines(lines[..i], ParseLine) == Success(devcontainers)
    {
      var info := ParseListingLine(lines[i]);
      if info.Failure? {
        ParseLinesStop(lines, i, ParseLine);
        return Failure(info.error);
      }
      ParseLinesStep(lines, i, devcontainers, ParseLine);
      if info.value.Some? {
        devcontainers := devcontainers + [info.value.value];
      } else {
        assert devcontainers + [] == devcontainers;
      }
    }
    assert lines[..|lines|] == lines;
    return Success(devcontainers);
  }

  /** A listing fails iff some line is rejected, and then with the first such line's error. */
  lemma {:induction false} ParseLinesFailure<T>(lines: seq<string>, parse: string -> Result<Option<T>, Error>)
    ensures ParseLines(lines, parse).Failure? <==> exists i | 0 <= i < |lines| :: parse(lines[i]).Failure?
    ensures ParseLines(lines, parse).Failure? ==>
            exists i | 0 <= i < |lines| :: parse(lines[i]).Failure?
              && ParseLines(lines, parse).error == parse(lines[i]).error
              && forall k | 0 <= k < i :: parse(lines[k]).Success?
    decreases |lines|
  {
    if lines != [] {
      var n := |lines| - 1;
      var init := lines[..n];
      assert lines == init + [lines[n]];
      ParseLinesSnoc(init, lines[n], parse);
      ParseLinesFailure(init, parse);
      forall k | 0 <= k < n ensures init[k] == lines[k] { }
    }
  }

  /** Every result of a listing comes from one of its lines, and every line that gives one contributes it. */
  lemma {:induction false} ParseLinesMembers<T>(lines: seq<string>, d: T, parse: string -> Result<Option<T>, Error>)
    requires ParseLines(lines, parse).Success?
    ensures d in ParseLines(lines, parse).value <==> exists i | 0 <= i < |lines| :: parse(lines[i]) == Success(Some(d))
    decreases |lines|
  {
    if lines != [] {
      var n := |lines| - 1;
      var init := lines[..n];
      assert lines == init + [lines[n]];
      ParseLinesSnoc(init, lines[n], parse);
      ParseLinesMembers(init, d, parse);
      forall k | 0 <= k < n ensures init[k] == lines[k] { }
    }
  }

  /** Parsing two listings one after the other is parsing the combined listing. */
  lemma {:induction false} ParseLinesAppend<T>(a: seq<string>, b: seq<string>, parse: string -> Result<Option<T>, Error>)
    requires ParseLines(a, parse).Success? && ParseLines(b, parse).Success?
    ensures ParseLines(a + b, parse) == Success(ParseLines(a, parse).value + ParseLines(b, parse).value)
    decreases |b|
  {
    if b == [] {
      assert a + b == a;
      assert ParseLines(a, parse).value + [] == ParseLines(a, parse).value;
    } else {
      var n := |b| - 1;
      var init := b[..n];
      assert b == init + [b[n]];
      ParseLinesSnoc(init, b[n], parse);
      assert a + b == (a + init) + [b[n]];
      ParseLinesSnoc(a + init, b[n], parse);
      ParseLinesAppend(a, init, parse);
      var extra := if parse(b[n]).value.Some? then [parse(b[n]).value.value] else [];
      assert ParseLines(a, parse).value + ParseLines(init, parse).value + extra
             == ParseLines(a, parse).value + (ParseLines(init, parse).value + extra);
    }
  }

  /** Every listed container has a local folder, and its name is that folder's last segment. */
  lemma {:induction false} ListedContainersHaveFolders(lines: seq<string>)
    requires ParsedContainers(lines).Success?
    ensures forall d | d in ParsedContainers(lines).value ::
              && d.localFolderPath != ""
              && HasSuffix(d.localFolderPath, d.devcontainerName)
              && forall k | 0 <= k < |d.devcontainerName| :: d.devcontainerName[k] !in PathSeparators
  {
    forall d | d in ParsedContainers(lines).value
      ensures d.localFolderPath != "" && HasSuffix(d.localFolderPath, d.devcontainerName)
      ensures forall k | 0 <= k < |d.devcontainerName| :: d.devcontainerName[k] !in PathSeparators
    {
      ParseLinesMembers(lines, d, ParseLine);
      var i :| 0 <= i < |lines| && ParseLine(lines[i]) == Success(Some(d));
      ParsedLineFields(lines[i]);
    }
  }

  // ---------------------------------------------------------------------
  // GetClosestPathMatchForPath
  // ---------------------------------------------------------------------

  /** The containers whose local folder is a string prefix of `absPath`, in input order */
  function Matching(devContainers: seq<DevcontainerInfo>, absPath: string): seq<DevcontainerInfo>
  {
    if devContainers == [] then []
    else
      var d := devContainers[|devContainers| - 1];
      Matching(devContainers[..|devContainers| - 1], absPath)
      + if HasPrefix(absPath, d.localFolderPath) then [d] else []
  }

  lemma {:induction false} MatchingMembers(devContainers: seq<DevcontainerInfo>, absPath: string, d: DevcontainerInfo)
    ensures d in Matching(devContainers, absPath) <==> d in devContainers && HasPrefix(absPath, d.localFolderPath)
    decreases |devContainers|
  {
    if devContainers != [] {
      var n := |devContainers| - 1;
      MatchingMembers(devContainers[..n], absPath, d);
      assert devContainers == devContainers[..n] + [devContainers[n]];
    }
  }

  /** The path matched against: "" stands for ".", made absolute against `cwd` */
  function QueryPath(cwd: string, devcontainerPath: string): (r: string)
    requires FilePath.IsAbs(cwd)
    ensures FilePath.IsAbs(r)
  {
    FilePath.Abs(cwd, if devcontainerPath == "" then "." else devcontainerPath)
  }

  /** `d` is a container whose folder is a longest prefix of `absPath` */
  predicate IsClosestMatch(devContainers: seq<DevcontainerInfo>, absPath: string, d: DevcontainerInfo) {
    && d in devContainers
    && HasPrefix(absPath, d.localFolderPath)
    && forall e | e in devContainers && HasPrefix(absPath, e.localFolderPath) ::
         |e.localFolderPath| <= |d.localFolderPath|
  }

  /** The last element after sorting by folder length: one with the longest folder */
  method LongestLocalFolder(matchingPaths: seq<DevcontainerInfo>) returns (d: DevcontainerInfo)
    requires |matchingPaths| > 0
    ensures d in matchingPaths
    ensures forall k | 0 <= k < |matchingPaths| :: |matchingPaths[k].localFolderPath| <= |d.localFolderPath|
  {
    d := matchingPaths[0];
    for i := 1 to |matchingPaths|
      invariant d in matchingPaths[..i]
      invariant forall k | 0 <= k < i :: |matchingPaths[k].localFolderPath| <= |d.localFolderPath|
    {
      if |matchingPaths[i].localFolderPath| >= |d.localFolderPath| {
        d := matchingPaths[i];
      }
    }
  }

  /**
   * GetClosestPathMatchForPath, with the working directory as a parameter:
   * it succeeds iff some container's folder is a prefix of the query path,
   * and then returns one with the longest such folder.
   */
  method GetClosestPathMatchForPath(devContainers: seq<DevcontainerInfo>, cwd: string, devcontainerPath: string)
    returns (r: Result<DevcontainerInfo, Error>)
    requires FilePath.IsAbs(cwd)
    ensures var absPath := QueryPath(cwd, devcontainerPath);
            && (r.Success? <==> exists d | d in devContainers :: HasPrefix(absPath, d.localFolderPath))
            && (r.Success? ==> IsClosestMatch(devContainers, absPath, r.value))
            && (r.Failure? ==> r.error == NoRunningContainer(if devcontainerPath == "" then "." else devcontainerPath))
  {
    var path := devcontainerPath;
    if path == "" {
      path := ".";
    }
    var absPath := FilePath.Abs(cwd, path);
    var matchingPaths: seq<DevcontainerInfo> := [];
    for i := 0 to |devContainers|
      invariant matchingPaths == Matching(devContainers[..i], absPath)
    {
      assert devContainers[..i + 1][..i] == devContainers[..i];
      var testPath := devContainers[i].localFolderPath;
      if HasPrefix(absPath, testPath) {
        matchingPaths := matchingPaths + [devContainers[i]];
      }
    }
    assert devContainers[..|devContainers|] == devContainers;
    if |matchingPaths| == 0 {
      forall d | d in devContainers ensures !HasPrefix(absPath, d.localFolderPath) {
        MatchingMembers(devContainers, absPath, d);
      }
      return Failure(NoRunningContainer(path));
    }
    var longest := LongestLocalFolder(matchingPaths);
    MatchingMembers(devContainers, absPath, longest);
    forall e | e in devContainers && HasPrefix(absPath, e.localFolderPath)
      ensures |e.localFolderPath| <= |longest.localFolderPath|
    {
      MatchingMembers(devContainers, absPath, e);
    }
    return Success(longest);
  }

  /**
   * A container whose folder is a clean absolute path matches that path,
   * the path with a trailing slash, and any folder below it.
   */
  lemma {:induction false} ProjectFolderMatchesBelow(cwd: string, elems: seq<string>, below: seq<string>)
    requires FilePath.IsAbs(cwd) && |elems| >= 1 && FilePath.AllPlain(elems)
    requires |below| >= 1 && FilePath.AllPlain(below)
    ensures QueryPath(cwd, FilePath.RootedPath(elems)) == FilePath.RootedPath(elems)
    ensures QueryPath(cwd, FilePath.RootedPath(elems) + "/") == FilePath.RootedPath(elems)
    ensures HasPrefix(QueryPath(cwd, FilePath.RootedPath(elems) + "/" + Join(below, '/')), FilePath.RootedPath(elems) + "/")
  {
    FilePath.CleanRootedPath(elems);
    FilePath.CleanTrailingSlash(elems);
    var full := elems + below;
    assert FilePath.AllPlain(full) by {
      forall k | 0 <= k < |full| ensures FilePath.IsPlainElement(full[k]) {
        if k < |elems| { assert full[k] == elems[k]; } else { assert full[k] == below[k - |elems|]; }
      }
    }
    JoinAppend(elems, below, '/');
    assert FilePath.RootedPath(full) == FilePath.RootedPath(elems) + "/" + Join(below, '/');
    FilePath.CleanRootedPath(full);
  }

  /** The folder of the matching examples */
  const ExampleProject: string := "/path/to/project"

  /** The three containers of the matching examples */
  function ExampleContainers(): seq<DevcontainerInfo> {
    [ DevcontainerInfo("", "", "", ExampleProject),
      DevcontainerInfo("", "", "", "/path/to/somewhere/else"),
      DevcontainerInfo("", "", "", "/path") ]
  }

  /**
   * Wherever the project folder is a prefix of the query path, a result
   * as GetClosestPathMatchForPath promises it is the project's container.
   */
  lemma {:induction false} ExampleIsClosest(absPath: string, r: Result<DevcontainerInfo, Error>)
    requires HasPrefix(absPath, ExampleProject)
    requires r.Success? <==> exists d | d in ExampleContainers() :: HasPrefix(absPath, d.localFolderPath)
    requires r.Success? ==> IsClosestMatch(ExampleContainers(), absPath, r.value)
    ensures r == Success(ExampleContainers()[0])
  {
    var devs := ExampleContainers();
    assert absPath[..16] == ExampleProject;
    assert devs[0] in devs && HasPrefix(absPath, devs[0].localFolderPath);
    assert !HasPrefix(absPath, devs[1].localFolderPath) by {
      var other := devs[1].localFolderPath;
      assert other[9] == 's' && absPath[9] == 'p';
      assert |other| <= |absPath| ==> absPath[..|other|][9] == absPath[9];
    }
    var d := r.value;
    assert |d.localFolderPath| >= 16;
  }

  /**
   * The queries of the three tests, the project folder, the project folder
   * with a trailing slash and a child folder, resolve to the project folder
   * or to a path below it, so that by ExampleIsClosest the project's
   * container is the one GetClosestPathMatchForPath returns for each.
   */
  lemma {:induction false} ExampleQueries(cwd: string)
    requires FilePath.IsAbs(cwd)
    ensures QueryPath(cwd, ExampleProject) == ExampleProject
    ensures QueryPath(cwd, ExampleProject + "/") == ExampleProject
    ensures HasPrefix(QueryPath(cwd, ExampleProject + "/with/child"), ExampleProject)
  {
    var elems := ["path", "to", "project"];
    var below := ["with", "child"];
    var child := ExampleProject + "/with/child";
    assert FilePath.AllPlain(elems) && FilePath.AllPlain(below);
    assert FilePath.RootedPath(elems) == ExampleProject;
    assert child == FilePath.RootedPath(elems) + "/" + Join(below, '/') by {
      assert Join(below, '/') == "with/child";
    }
    ProjectFolderMatchesBelow(cwd, elems, below);
    HasPrefixOfLonger(QueryPath(cwd, child), ExampleProject, "/");
  }

  // ---------------------------------------------------------------------
  // The docker exec argument vector
  // ---------------------------------------------------------------------

  /** A flag and its value, present only when the value is not empty */
  function OptionalArg(flag: string, value: string, setting: string): (r: seq<string>)
    ensures value == "" ==> r == []
    ensures value != "" ==> r == [flag, setting]
  {
    if value == "" then [] else [flag, setting]
  }

  /** The options between `--workdir <dir>` and the container id */
  function ExecOptions(userName: string, sshAuthSock: string, containerPath: string, ipcSock: string): (r: seq<string>)
    ensures |r| == 2 * (Present(userName) + Present(sshAuthSock) + Present(containerPath) + Present(ipcSock))
  {
    OptionalArg("--user", userName, userName)
    + OptionalArg("--env", sshAuthSock, "SSH_AUTH_SOCK=" + sshAuthSock)
    + OptionalArg("--env", containerPath, "PATH=" + containerPath)
    + OptionalArg("--env", ipcSock, "VSCODE_IPC_HOOK_CLI=" + ipcSock)
  }

  /** 1 for a setting that is passed, 0 for an empty one */
  function Present(value: string): nat {
    if value == "" then 0 else 1
  }

  /** The arguments of `docker exec` for ExecInDevContainer */
  function ExecArgs(workDir: string, userName: string, sshAuthSock: string, containerPath: string,
                    ipcSock: string, containerId: string, args: seq<string>): seq<string>
  {
    ["exec", "-it", "--workdir", workDir] + ExecOptions(userName, sshAuthSock, containerPath, ipcSock)
    + [containerId] + args
  }

  /**
   * The vector starts with `exec -it --workdir <dir>`, ends with the
   * container id and the command's arguments, and holds two entries for
   * each optional setting that is passed.
   */
  lemma {:induction false} ExecArgsLayout(workDir: string, userName: string, sshAuthSock: string, containerPath: string,
                       ipcSock: string, containerId: string, args: seq<string>)
    ensures var r := ExecArgs(workDir, userName, sshAuthSock, containerPath, ipcSock, containerId, args);
            && |r| == 5 + 2 * (Present(userName) + Present(sshAuthSock) + Present(containerPath) + Present(ipcSock)) + |args|
            && r[..4] == ["exec", "-it", "--workdir", workDir]
            && r[|r| - |args| - 1] == containerId
            && r[|r| - |args|..] == args
  {
    var fixed := ["exec", "-it", "--workdir", workDir];
    var options := ExecOptions(userName, sshAuthSock, containerPath, ipcSock);
    var r := fixed + options + [containerId] + args;
    assert r == ExecArgs(workDir, userName, sshAuthSock, containerPath, ipcSock, containerId, args);
    assert |r| == 5 + |options| + |args|;
    assert r[..4] == fixed;
    assert r[|r| - |args| - 1] == containerId;
    assert r[|r| - |args|..] == args;
  }

  /** The dockerArgs construction in ExecInDevContainer, by successive appends */
  method DockerArgs(workDir: string, userName: string, sshAuthSock: string, containerPath: string,
                    ipcSock: string, containerId: string, args: seq<string>) returns (dockerArgs: seq<string>)
    ensures dockerArgs == ExecArgs(workDir, userName, sshAuthSock, containerPath, ipcSock, containerId, args)
  {
    ghost var fixed := ["exec", "-it", "--workdir", workDir];
    ghost var options := [];
    dockerArgs := ["exec", "-it", "--workdir", workDir];
    assert dockerArgs == fixed + options;
    ghost var before := dockerArgs;
    if userName != "" {
      dockerArgs := dockerArgs + ["--user", userName];
    }
    options := AppendedOption(before, fixed, options, "--user", userName, userName, dockerArgs);
    assert options == OptionalArg("--user", userName, userName);
    before := dockerArgs;
    if sshAuthSock != "" {
      dockerArgs := dockerArgs + ["--env", "SSH_AUTH_SOCK=" + sshAuthSock];
    }
    options := AppendedOption(before, fixed, options, "--env", sshAuthSock, "SSH_AUTH_SOCK=" + sshAuthSock, dockerArgs);
    before := dockerArgs;
    if containerPath != "" {
      dockerArgs := dockerArgs + ["--env", "PATH=" + containerPath];
    }
    options := AppendedOption(before, fixed, options, "--env", containerPath, "PATH=" + containerPath, dockerArgs);
    before := dockerArgs;
    if ipcSock != "" {
      dockerArgs := dockerArgs + ["--env", "VSCODE_IPC_HOOK_CLI=" + ipcSock];
    }
    options := AppendedOption(before, fixed, options, "--env", ipcSock, "VSCODE_IPC_HOOK_CLI=" + ipcSock, dockerArgs);
    assert options == ExecOptions(userName, sshAuthSock, containerPath, ipcSock);
    dockerArgs := dockerArgs + [containerId];
    dockerArgs := dockerArgs + args;
  }

  /** One conditional append of DockerArgs extends the options by OptionalArg. */
  ghost function AppendedOption(before: seq<string>, fixed: seq<string>, options: seq<string>,
                                flag: string, value: string, setting: string, after: seq<string>): (r: seq<string>)
    requires before == fixed + options
    requires after == if value != "" then before + [flag, setting] else before
    ensures r == options + OptionalArg(flag, value, setting)
    ensures after == fixed + r
  {
    if value != "" then options + [flag, setting] else options
  }

  /**
   * The user comes first among the options when it is set; with nothing
   * optional set, the vector is the fixed prefix, the id and the arguments.
   */
  lemma {:induction false} ExecArgsUserFirst(workDir: string, userName: string, sshAuthSock: string, containerPath: string,
                          ipcSock: string, containerId: string, args: seq<string>)
    ensures var r := ExecArgs(workDir, userName, sshAuthSock, containerPath, ipcSock, containerId, args);
            && (userName != "" ==> r[4..6] == ["--user", userName])
            && (userName == sshAuthSock == containerPath == ipcSock == "" ==>
                  r == ["exec", "-it", "--workdir", workDir, containerId] + args)
  {
  }

  /**
   * An environment setting is passed iff its value is not empty, as a
   * `--env NAME=value` pair at the position its predecessors leave for it.
   */
  lemma {:induction false} ExecArgsPath(workDir: string, userName: string, sshAuthSock: string, containerPath: string,
                     ipcSock: string, containerId: string, args: seq<string>)
    ensures var r := ExecArgs(workDir, userName, sshAuthSock, containerPath, ipcSock, containerId, args);
            var at := 4 + 2 * (Present(userName) + Present(sshAuthSock));
            containerPath != "" ==> at + 2 <= |r| && r[at..at + 2] == ["--env", "PATH=" + containerPath]
  {
  }

  // ---------------------------------------------------------------------
  // The container PATH
  // ---------------------------------------------------------------------

  /**
   * The PATH passed to the container, as written: the output of
   * `echo $PATH` (getContainerEnvVar) trimmed and prefixed with the VS Code
   * server's bin folder when both lookups succeed, the untrimmed output when
   * only the server lookup fails, and "" when the PATH lookup fails.
   */
  function ContainerPathAsWritten(envPath: Result<string, Error>, serverPath: Result<string, Error>): string {
    match envPath
    case Failure(_) => ""
    case Success(p) =>
      match serverPath
      case Success(s) => s + "/bin:" + TrimSpace(p)
      case Failure(_) => p
  }

  /** The output of `echo $PATH` ends with a newline, and as written that newline reaches PATH. */
  lemma {:induction false} UntrimmedPathKeepsNewline(path: string, e: Error)
    ensures var written := ContainerPathAsWritten(Success(path + "\n"), Failure(e));
            |written| > 0 && written[|written| - 1] == '\n'
  {
  }

  /** The PATH as evidently intended: the lookup output is trimmed in both cases. */
  function ContainerPath(envPath: Result<string, Error>, serverPath: Result<string, Error>): (r: string)
    ensures envPath.Failure? ==> r == ""
    ensures envPath.Success? && serverPath.Success? ==> HasPrefix(r, serverPath.value + "/bin:")
  {
    match envPath
    case Failure(_) => ""
    case Success(p) =>
      var trimmed := TrimSpace(p);
      match serverPath
      case Success(s) =>
        var head := s + "/bin:";
        assert (head + trimmed)[..|head|] == head;
        head + trimmed
      case Failure(_) => trimmed
  }

  /** The corrected PATH ends with the trimmed lookup output, so never with white space. */
  lemma {:induction false} ContainerPathTrimmed(envPath: Result<string, Error>, serverPath: Result<string, Error>)
    requires envPath.Success?
    ensures var r := ContainerPath(envPath, serverPath);
            && HasSuffix(r, TrimSpace(envPath.value))
            && (|r| == 0 || !IsSpace(r[|r| - 1]))
  {
    var trimmed := TrimSpace(envPath.value);
    if serverPath.Success? {
      var head := serverPath.value + "/bin:";
      assert ContainerPath(envPath, serverPath) == head + trimmed;
      assert head[|head| - 1] == ':';
      SuffixAfterColon(head, trimmed);
    } else {
      assert ContainerPath(envPath, serverPath) == trimmed;
      assert trimmed[|trimmed| - |trimmed|..] == trimmed;
    }
  }

  /** Text after a colon ends the whole, which ends in white space only if that text does. */
  lemma {:induction false} SuffixAfterColon(a: string, b: string)
    requires |a| > 0 && a[|a| - 1] == ':'
    requires |b| == 0 || !IsSpace(b[|b| - 1])
    ensures HasSuffix(a + b, b)
    ensures !IsSpace((a + b)[|a + b| - 1])
  {
    assert (a + b)[|a + b| - |b|..] == b;
    if |b| == 0 {
      assert (a + b)[|a + b| - 1] == ':';
    } else {
      assert (a + b)[|a + b| - 1] == b[|b| - 1];
    }
  }

  /** The two agree except that the corrected one also trims when the server lookup fails. */
  lemma {:induction false} ContainerPathCorrection(envPath: Result<string, Error>, serverPath: Result<string, Error>)
    ensures ContainerPath(envPath, serverPath)
            == if envPath.Success? && serverPath.Failure? then TrimSpace(ContainerPathAsWritten(envPath, serverPath))
               else ContainerPathAsWritten(envPath, serverPath)
  {
  }
}

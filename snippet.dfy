/**
 * Snippets (internal/pkg/devcontainers/snippet.go): discovering the snippets
 * held in the configured snippet folders, and adding one to the dev
 * container definition of a project, either by splicing COPY/RUN lines for
 * a single script into the Dockerfile or by running the actions listed in
 * a folder snippet's snippet.json.
 */
module Snippets {
  import opened Wrappers
  import opened Errors
  import opened GoStrings
  import opened Fs
  import FilePath

  /** DevcontainerSnippetType: "Snippet:SingleFile" or "Snippet:Folder" */
  datatype SnippetType = SingleFile | Folder

  /** DevcontainerSnippet; `path` is the script file or the snippet directory */
  datatype Snippet = Snippet(name: string, kind: SnippetType, path: string)

  const SnippetManifest := "snippet.json"
  const ScriptSuffix := ".sh"

  // ---------------------------------------------------------------------
  // Discovery in one folder (getSnippetsFromFolder)
  // ---------------------------------------------------------------------

  /** Entries whose name starts with "." or "_" are never snippets. */
  predicate IsIgnoredName(name: string) {
    HasPrefix(name, ".") || HasPrefix(name, "_")
  }

  /** The snippet one entry of `folder`'s listing stands for, if any */
  function SnippetForEntry(fs: FileSystem, folder: string, entry: Entry): Option<Snippet> {
    if IsIgnoredName(entry.name) then None
    else if entry.isDir then
      if Stat(fs, FilePath.Join([folder, entry.name, SnippetManifest])) == RegularFile
      then Some(Snippet(entry.name, Folder, FilePath.Join([folder, entry.name])))
      else None
    else if HasSuffix(entry.name, ScriptSuffix) then
      Some(Snippet(TrimSuffix(entry.name, ScriptSuffix), SingleFile, FilePath.Join([folder, entry.name])))
    else None
  }

  function OptionToSeq<T>(o: Option<T>): seq<T> {
    if o.Some? then [o.value] else []
  }

  /** The snippets of a listing, in listing order */
  function SnippetsIn(fs: FileSystem, folder: string, entries: seq<Entry>): seq<Snippet> {
    if entries == [] then []
    else SnippetsIn(fs, folder, entries[..|entries| - 1]) + OptionToSeq(SnippetForEntry(fs, folder, entries[|entries| - 1]))
  }

  /** What getSnippetsFromFolder returns */
  function FolderSnippets(fs: FileSystem, folder: string): Result<seq<Snippet>, Error> {
    match ReadDir(fs, folder)
    case Failure(_) => Failure(ReadSnippetFolderFailed(folder))
    case Success(entries) => Success(SnippetsIn(fs, folder, entries))
  }

  /** getSnippetsFromFolder: one pass over the directory listing */
  method GetSnippetsFromFolder(fs: FileSystem, folder: string) returns (r: Result<seq<Snippet>, Error>)
    ensures r == FolderSnippets(fs, folder)
  {
    var listing := ReadDir(fs, folder);
    if listing.Failure? {
      return Failure(ReadSnippetFolderFailed(folder));
    }
    var c := listing.value;
    var snippets: seq<Snippet> := [];
    for i := 0 to |c|
      invariant snippets == SnippetsIn(fs, folder, c[..i])
    {
      assert c[..i + 1][..i] == c[..i];
      var entry := c[i];
      if HasPrefix(entry.name, ".") || HasPrefix(entry.name, "_") {
        continue;
      }
      if entry.isDir {
        var snippetJsonPath := FilePath.Join([folder, entry.name, SnippetManifest]);
        if Stat(fs, snippetJsonPath) != RegularFile {
          continue;
        }
        snippets := snippets + [Snippet(entry.name, Folder, FilePath.Join([folder, entry.name]))];
      } else if HasSuffix(entry.name, ScriptSuffix) {
        snippets := snippets + [Snippet(TrimSuffix(entry.name, ScriptSuffix), SingleFile, FilePath.Join([folder, entry.name]))];
      }
    }
    assert c[..|c|] == c;
    return Success(snippets);
  }

  /**
   * A listing yields snippet `s` exactly when one of its entries is a
   * directory holding a snippet.json file, named s.name, or a file named
   * s.name + ".sh"; in both cases the entry's name does not start with "."
   * or "_" and s.path is the entry's path.
   */
  predicate Yields(fs: FileSystem, folder: string, entry: Entry, s: Snippet) {
    && !IsIgnoredName(entry.name)
    && s.path == FilePath.Join([folder, entry.name])
    && (if entry.isDir
        then s.kind == Folder && s.name == entry.name
             && Stat(fs, FilePath.Join([folder, entry.name, SnippetManifest])) == RegularFile
        else s.kind == SingleFile && s.name + ScriptSuffix == entry.name)
  }

  lemma {:induction false} EntryYields(fs: FileSystem, folder: string, entry: Entry, s: Snippet)
    ensures SnippetForEntry(fs, folder, entry) == Some(s) <==> Yields(fs, folder, entry, s)
  {
    if !entry.isDir && !IsIgnoredName(entry.name) && s.kind == SingleFile && s.name + ScriptSuffix == entry.name {
      assert HasSuffix(entry.name, ScriptSuffix);
      assert TrimSuffix(entry.name, ScriptSuffix) + ScriptSuffix == entry.name;
      assert TrimSuffix(entry.name, ScriptSuffix) == entry.name[..|entry.name| - |ScriptSuffix|];
      assert s.name == entry.name[..|entry.name| - |ScriptSuffix|];
    }
  }

  lemma {:induction false} SnippetsInMembers(fs: FileSystem, folder: string, entries: seq<Entry>, s: Snippet)
    ensures s in SnippetsIn(fs, folder, entries) <==>
            exists k | 0 <= k < |entries| :: Yields(fs, folder, entries[k], s)
    decreases |entries|
  {
    if entries != [] {
      var n := |entries| - 1;
      var prefix := entries[..n];
      SnippetsInMembers(fs, folder, prefix, s);
      EntryYields(fs, folder, entries[n], s);
      if s in SnippetsIn(fs, folder, entries) {
        if s !in SnippetsIn(fs, folder, prefix) {
          assert Yields(fs, folder, entries[n], s);
        } else {
          var k :| 0 <= k < |prefix| && Yields(fs, folder, prefix[k], s);
          assert entries[k] == prefix[k];
        }
      } else {
        forall k | 0 <= k < |entries|
          ensures !Yields(fs, folder, entries[k], s)
        {
          if k < n {
            assert entries[k] == prefix[k];
          }
        }
      }
    }
  }

  /** A snippet's name never starts with "." or "_", whichever kind of entry it came from. */
  lemma {:induction false} YieldedNameNotIgnored(fs: FileSystem, folder: string, entry: Entry, s: Snippet)
    requires Yields(fs, folder, entry, s)
    ensures !IsIgnoredName(s.name)
  {
    if !entry.isDir {
      assert entry.name == s.name + ScriptSuffix;
      if |s.name| > 0 {
        assert s.name[0] == entry.name[0];
        assert HasPrefix(s.name, ".") ==> HasPrefix(entry.name, ".");
        assert HasPrefix(s.name, "_") ==> HasPrefix(entry.name, "_");
      }
    }
  }

  // ---------------------------------------------------------------------
  // Discovery over all folders (getSnippetsFromFolders, GetSnippets)
  // ---------------------------------------------------------------------

  /** The snippets of the folders, in folder order, before de-duplication; the first failing folder's error otherwise */
  function Candidates(fs: FileSystem, folders: seq<string>): Result<seq<Snippet>, Error> {
    if folders == [] then Success([])
    else
      var before :- Candidates(fs, folders[..|folders| - 1]);
      var found :- FolderSnippets(fs, folders[|folders| - 1]);
      Success(before + found)
  }

  function NamesOf(s: seq<Snippet>): set<string> {
    set k | 0 <= k < |s| :: s[k].name
  }

  /** Keeps the first snippet of every name, in order */
  function Dedup(xs: seq<Snippet>): seq<Snippet> {
    if xs == [] then []
    else
      var kept := Dedup(xs[..|xs| - 1]);
      var x := xs[|xs| - 1];
      if x.name in NamesOf(kept) then kept else kept + [x]
  }

  /** The first snippet called `name`, scanning from the front */
  function FirstByName(xs: seq<Snippet>, name: string): (r: Option<Snippet>)
    ensures r.None? <==> name !in NamesOf(xs)
    ensures r.Some? ==> exists i | 0 <= i < |xs| :: xs[i] == r.value && FirstAt(xs, name, i)
  {
    if xs == [] then None
    else if xs[0].name == name then
      assert FirstAt(xs, name, 0);
      Some(xs[0])
    else
      var r := FirstByName(xs[1..], name);
      assert NamesOf(xs) == {xs[0].name} + NamesOf(xs[1..]) by {
        forall n | n in NamesOf(xs) ensures n in {xs[0].name} + NamesOf(xs[1..]) {
          var k :| 0 <= k < |xs| && xs[k].name == n;
          if k > 0 { assert xs[1..][k - 1] == xs[k]; }
        }
        forall n | n in NamesOf(xs[1..]) ensures n in NamesOf(xs) {
          var k :| 0 <= k < |xs[1..]| && xs[1..][k].name == n;
          assert xs[k + 1] == xs[1..][k];
        }
      }
      if r.Some? then
        var i :| 0 <= i < |xs[1..]| && xs[1..][i] == r.value && FirstAt(xs[1..], name, i);
        assert xs[i + 1] == r.value && FirstAt(xs, name, i + 1);
        r
      else r
  }

  /** Position `i` holds the earliest snippet called `name` */
  predicate FirstAt(xs: seq<Snippet>, name: string, i: nat) {
    i < |xs| && xs[i].name == name && forall k | 0 <= k < i :: xs[k].name != name
  }

  predicate DistinctNames(s: seq<Snippet>) {
    forall i, j | 0 <= i < j < |s| :: s[i].name != s[j].name
  }

  /** `!(s[j].Name < s[i].Name)` for every i < j: what sort.Slice guarantees */
  predicate SortedByName(s: seq<Snippet>) {
    forall i, j | 0 <= i < j < |s| :: !Less(s[j].name, s[i].name)
  }

  /** Inserts `x` before the first element whose name is not smaller */
  function InsertByName(x: Snippet, s: seq<Snippet>): (r: seq<Snippet>)
    ensures multiset(r) == multiset(s) + multiset{x}
  {
    if s == [] then [x]
    else if !Less(s[0].name, x.name) then
      assert s == [s[0]] + s[1..];
      [x] + s
    else
      assert s == [s[0]] + s[1..];
      [s[0]] + InsertByName(x, s[1..])
  }

  /** sort.Slice by name, as an insertion sort */
  function SortByName(xs: seq<Snippet>): (r: seq<Snippet>)
    ensures multiset(r) == multiset(xs)
  {
    if xs == [] then []
    else
      assert xs == [xs[0]] + xs[1..];
      InsertByName(xs[0], SortByName(xs[1..]))
  }

  lemma {:induction false} SortedTail(s: seq<Snippet>)
    requires |s| >= 1 && SortedByName(s)
    ensures SortedByName(s[1..])
  {
    forall i, j | 0 <= i < j < |s[1..]| ensures !Less(s[1..][j].name, s[1..][i].name) {
      assert s[1..][j] == s[j + 1] && s[1..][i] == s[i + 1];
    }
  }

  /** A head no greater than any name of a sorted tail keeps the list sorted. */
  lemma {:induction false} SortedCons(h: Snippet, t: seq<Snippet>)
    requires SortedByName(t)
    requires forall j | 0 <= j < |t| :: !Less(t[j].name, h.name)
    ensures SortedByName([h] + t)
  {
    var r := [h] + t;
    forall i, j | 0 <= i < j < |r| ensures !Less(r[j].name, r[i].name) {
      assert r[j] == t[j - 1];
      if i > 0 { assert r[i] == t[i - 1]; }
    }
  }

  /** A head whose name no element of a tail with distinct names has keeps the names distinct. */
  lemma {:induction false} DistinctCons(h: Snippet, t: seq<Snippet>)
    requires DistinctNames(t)
    requires forall j | 0 <= j < |t| :: t[j].name != h.name
    ensures DistinctNames([h] + t)
  {
    var r := [h] + t;
    forall i, j | 0 <= i < j < |r| ensures r[i].name != r[j].name {
      assert r[j] == t[j - 1];
      if i > 0 { assert r[i] == t[i - 1]; }
    }
  }

  lemma {:induction false} DistinctTail(s: seq<Snippet>)
    requires |s| >= 1 && DistinctNames(s)
    ensures DistinctNames(s[1..])
    ensures forall k | 0 <= k < |s[1..]| :: s[1..][k].name != s[0].name
  {
    forall i, j | 0 <= i < j < |s[1..]| ensures s[1..][i].name != s[1..][j].name {
      assert s[1..][i] == s[i + 1] && s[1..][j] == s[j + 1];
    }
    forall k | 0 <= k < |s[1..]| ensures s[1..][k].name != s[0].name {
      assert s[1..][k] == s[k + 1];
    }
  }

  /** Every element of InsertByName(x, s) is `x` or an element of `s`. */
  lemma {:induction false} InsertedElement(x: Snippet, s: seq<Snippet>, y: Snippet)
    requires y in InsertByName(x, s)
    ensures y == x || y in s
  {
    assert y in multiset(InsertByName(x, s));
  }

  /** Inserting into a list sorted by name keeps it sorted. */
  lemma {:induction false} InsertByNameSorted(x: Snippet, s: seq<Snippet>)
    requires SortedByName(s)
    ensures SortedByName(InsertByName(x, s))
    decreases |s|
  {
    if s == [] {
    } else if !Less(s[0].name, x.name) {
      forall j | 0 <= j < |s| ensures !Less(s[j].name, x.name) {
        if j > 0 { NotLessTransitive(x.name, s[0].name, s[j].name); }
      }
      SortedCons(x, s);
    } else {
      var tail := s[1..];
      var rest := InsertByName(x, tail);
      SortedTail(s);
      InsertByNameSorted(x, tail);
      forall j | 0 <= j < |rest| ensures !Less(rest[j].name, s[0].name) {
        InsertedElement(x, tail, rest[j]);
        if rest[j] == x {
          LessTrichotomy(s[0].name, x.name);
        } else {
          var m :| 0 <= m < |tail| && tail[m] == rest[j];
          assert s[m + 1] == tail[m];
        }
      }
      SortedCons(s[0], rest);
    }
  }

  /** Inserting a snippet with a new name into a list of distinct names keeps names distinct. */
  lemma {:induction false} InsertByNameDistinct(x: Snippet, s: seq<Snippet>)
    requires DistinctNames(s)
    requires forall k | 0 <= k < |s| :: s[k].name != x.name
    ensures DistinctNames(InsertByName(x, s))
    decreases |s|
  {
    if s == [] {
    } else if !Less(s[0].name, x.name) {
      DistinctCons(x, s);
    } else {
      var tail := s[1..];
      var rest := InsertByName(x, tail);
      DistinctTail(s);
      forall k | 0 <= k < |tail| ensures tail[k].name != x.name {
        assert tail[k] == s[k + 1];
      }
      InsertByNameDistinct(x, tail);
      forall j | 0 <= j < |rest| ensures rest[j].name != s[0].name {
        InsertedElement(x, tail, rest[j]);
        if rest[j] != x {
          var m :| 0 <= m < |tail| && tail[m] == rest[j];
        }
      }
      DistinctCons(s[0], rest);
    }
  }

  /** The sort yields a list sorted by name (it is a permutation by SortByName's own contract). */
  lemma {:induction false} SortByNameSorted(xs: seq<Snippet>)
    ensures SortedByName(SortByName(xs))
    decreases |xs|
  {
    if xs != [] {
      SortByNameSorted(xs[1..]);
      InsertByNameSorted(xs[0], SortByName(xs[1..]));
    }
  }

  /** Sorting a list with distinct names keeps the names distinct. */
  lemma {:induction false} SortByNameDistinct(xs: seq<Snippet>)
    requires DistinctNames(xs)
    ensures DistinctNames(SortByName(xs))
    decreases |xs|
  {
    if xs != [] {
      var tail := xs[1..];
      var rest := SortByName(tail);
      DistinctTail(xs);
      SortByNameDistinct(tail);
      forall k | 0 <= k < |rest| ensures rest[k].name != xs[0].name {
        assert rest[k] in multiset(tail);
        var m :| 0 <= m < |tail| && tail[m] == rest[k];
      }
      InsertByNameDistinct(xs[0], rest);
    }
  }

  /** getSnippetsFromFolders: the de-duplicated snippets sorted by name */
  function DiscoveredSnippets(fs: FileSystem, folders: seq<string>): Result<seq<Snippet>, Error> {
    var candidates :- Candidates(fs, folders);
    Success(SortByName(Dedup(candidates)))
  }

  /** GetSnippets: an error when no folder is configured */
  function Snippets(fs: FileSystem, folders: seq<string>): Result<seq<Snippet>, Error> {
    if |folders| == 0 then Failure(NoSnippetFolders) else DiscoveredSnippets(fs, folders)
  }

  /**
   * getSnippetsFromFolders: a pass over the folders that appends each
   * snippet whose name the map has not yet recorded, then the sort.
   */
  method GetSnippetsFromFolders(fs: FileSystem, folders: seq<string>) returns (r: Result<seq<Snippet>, Error>)
    ensures r == DiscoveredSnippets(fs, folders)
  {
    var snippets: seq<Snippet> := [];
    var snippetNames: map<string, bool> := map[];
    for i := 0 to |folders|
      invariant Candidates(fs, folders[..i]).Success?
      invariant snippets == Dedup(Candidates(fs, folders[..i]).value)
      invariant Recorded(snippetNames, snippets)
    {
      assert folders[..i + 1][..i] == folders[..i];
      var prev := Candidates(fs, folders[..i]).value;
      var newSnippets := GetSnippetsFromFolder(fs, folders[i]);
      if newSnippets.Failure? {
        CandidatesFailurePersists(fs, folders, i + 1);
        return Failure(newSnippets.error);
      }
      var ns := newSnippets.value;
      snippets, snippetNames := AppendNewSnippets(snippets, snippetNames, ns, prev);
      CandidatesSnoc(fs, folders, i);
    }
    assert folders[..|folders|] == folders;
    snippets := SortByName(snippets);
    return Success(snippets);
  }

  /** The inner loop of getSnippetsFromFolders: append the snippets whose name is not yet recorded */
  method AppendNewSnippets(snippets0: seq<Snippet>, names0: map<string, bool>, ns: seq<Snippet>, ghost prev: seq<Snippet>)
    returns (snippets: seq<Snippet>, snippetNames: map<string, bool>)
    requires snippets0 == Dedup(prev)
    requires Recorded(names0, snippets0)
    ensures snippets == Dedup(prev + ns)
    ensures Recorded(snippetNames, snippets)
  {
    snippets, snippetNames := snippets0, names0;
    assert prev + ns[..0] == prev;
    for j := 0 to |ns|
      invariant snippets == Dedup(prev + ns[..j])
      invariant Recorded(snippetNames, snippets)
    {
      var snippet := ns[j];
      DedupStep(prev, ns, j);
      if !(snippet.name in snippetNames && snippetNames[snippet.name]) {
        RecordName(snippetNames, snippets, snippet);
        snippetNames := snippetNames[snippet.name := true];
        snippets := snippets + [snippet];
      }
    }
    assert ns[..|ns|] == ns;
  }

  /** The snippetNames map records, as true, exactly the names of the snippets kept so far. */
  predicate Recorded(names: map<string, bool>, snippets: seq<Snippet>) {
    names.Keys == NamesOf(snippets) && forall n | n in names :: names[n]
  }

  lemma {:induction false} RecordName(names: map<string, bool>, snippets: seq<Snippet>, snippet: Snippet)
    requires Recorded(names, snippets)
    ensures Recorded(names[snippet.name := true], snippets + [snippet])
  {
    NamesOfSnoc(snippets, snippet);
  }

  /** One more snippet from the current folder is kept exactly when its name is new. */
  lemma {:induction false} DedupStep(prev: seq<Snippet>, ns: seq<Snippet>, j: nat)
    requires j < |ns|
    ensures Dedup(prev + ns[..j + 1])
            == if ns[j].name in NamesOf(Dedup(prev + ns[..j])) then Dedup(prev + ns[..j])
               else Dedup(prev + ns[..j]) + [ns[j]]
  {
    assert prev + ns[..j + 1] == (prev + ns[..j]) + [ns[j]];
    DedupSnoc(prev + ns[..j], ns[j]);
  }

  lemma {:induction false} DedupSnoc(xs: seq<Snippet>, x: Snippet)
    ensures Dedup(xs + [x]) == if x.name in NamesOf(Dedup(xs)) then Dedup(xs) else Dedup(xs) + [x]
  {
    assert (xs + [x])[..|xs|] == xs;
  }

  lemma {:induction false} CandidatesSnoc(fs: FileSystem, folders: seq<string>, i: nat)
    requires i < |folders| && Candidates(fs, folders[..i]).Success? && FolderSnippets(fs, folders[i]).Success?
    ensures Candidates(fs, folders[..i + 1]) == Success(Candidates(fs, folders[..i]).value + FolderSnippets(fs, folders[i]).value)
  {
    assert folders[..i + 1][..i] == folders[..i];
  }

  /** Once a prefix of the folders fails, listing all of them fails the same way. */
  lemma {:induction false} CandidatesFailurePersists(fs: FileSystem, folders: seq<string>, i: nat)
    requires i <= |folders| && Candidates(fs, folders[..i]).Failure?
    ensures Candidates(fs, folders) == Candidates(fs, folders[..i])
    decreases |folders| - i
  {
    if i == |folders| {
      assert folders[..i] == folders;
    } else {
      assert folders[..i + 1][..i] == folders[..i];
      CandidatesFailurePersists(fs, folders, i + 1);
    }
  }

  /** GetSnippets */
  method GetSnippets(fs: FileSystem, folders: seq<string>) returns (r: Result<seq<Snippet>, Error>)
    ensures folders == [] ==> r == Failure(NoSnippetFolders)
    ensures folders != [] ==> r == DiscoveredSnippets(fs, folders)
  {
    if |folders| == 0 {
      return Failure(NoSnippetFolders);
    }
    r := GetSnippetsFromFolders(fs, folders);
  }

  /** GetSnippetByName: the listed snippet with that name, None when there is none */
  method GetSnippetByName(fs: FileSystem, folders: seq<string>, name: string) returns (r: Result<Option<Snippet>, Error>)
    ensures Snippets(fs, folders).Failure? ==> r == Failure(Snippets(fs, folders).error)
    ensures Snippets(fs, folders).Success? ==> r == Success(FirstByName(Snippets(fs, folders).value, name))
  {
    var snippets := GetSnippets(fs, folders);
    if snippets.Failure? {
      return Failure(snippets.error);
    }
    var list := snippets.value;
    for i := 0 to |list|
      invariant FirstByName(list, name) == FirstByName(list[i..], name)
    {
      assert list[i..][1..] == list[i + 1..];
      if list[i].name == name {
        return Success(Some(list[i]));
      }
    }
    return Success(None);
  }

  // ---------------------------------------------------------------------
  // Properties of discovery
  // ---------------------------------------------------------------------

  lemma {:induction false} NamesOfSnoc(xs: seq<Snippet>, x: Snippet)
    ensures NamesOf(xs + [x]) == NamesOf(xs) + {x.name}
  {
    var ys := xs + [x];
    forall n | n in NamesOf(ys) ensures n in NamesOf(xs) + {x.name} {
      var k :| 0 <= k < |ys| && ys[k].name == n;
      if k < |xs| { assert ys[k] == xs[k]; }
    }
    forall n | n in NamesOf(xs) ensures n in NamesOf(ys) {
      var k :| 0 <= k < |xs| && xs[k].name == n;
      assert ys[k] == xs[k];
    }
    assert ys[|xs|] == x;
  }

  /** FirstByName of an extended list: an earlier hit wins, else the new element if it matches. */
  lemma {:induction false} FirstByNameSnoc(xs: seq<Snippet>, x: Snippet, name: string)
    ensures FirstByName(xs + [x], name) ==
            if FirstByName(xs, name).Some? then FirstByName(xs, name)
            else if x.name == name then Some(x) else None
    decreases |xs|
  {
    if xs == [] {
      assert xs + [x] == [x];
      assert [x][1..] == [];
    } else {
      assert (xs + [x])[0] == xs[0];
      assert (xs + [x])[1..] == xs[1..] + [x];
      FirstByNameSnoc(xs[1..], x, name);
    }
  }

  /** De-duplication loses no name. */
  lemma {:induction false} DedupNames(xs: seq<Snippet>)
    ensures NamesOf(Dedup(xs)) == NamesOf(xs)
    decreases |xs|
  {
    if xs != [] {
      var n := |xs| - 1;
      var init := xs[..n];
      var x := xs[n];
      assert xs == init + [x];
      DedupNames(init);
      NamesOfSnoc(init, x);
      if x.name !in NamesOf(Dedup(init)) {
        NamesOfSnoc(Dedup(init), x);
      }
    }
  }

  /** De-duplication keeps every name once. */
  lemma {:induction false} DedupDistinct(xs: seq<Snippet>)
    ensures DistinctNames(Dedup(xs))
    decreases |xs|
  {
    if xs != [] {
      var n := |xs| - 1;
      var kept := Dedup(xs[..n]);
      var x := xs[n];
      DedupDistinct(xs[..n]);
      if x.name !in NamesOf(kept) {
        var d := kept + [x];
        forall i, j | 0 <= i < j < |d| ensures d[i].name != d[j].name {
          assert d[i] == kept[i];
          if j < |kept| { assert d[j] == kept[j]; }
        }
      }
    }
  }

  /** De-duplication only keeps elements of its input. */
  lemma {:induction false} DedupElement(xs: seq<Snippet>, s: Snippet)
    requires s in Dedup(xs)
    ensures s in xs
    decreases |xs|
  {
    var n := |xs| - 1;
    var kept := Dedup(xs[..n]);
    if s in kept {
      DedupElement(xs[..n], s);
    } else {
      assert s == xs[n];
    }
  }

  /** Each snippet de-duplication keeps is the first one of its name. */
  lemma {:induction false} DedupFirst(xs: seq<Snippet>)
    ensures forall k | 0 <= k < |Dedup(xs)| :: FirstByName(xs, Dedup(xs)[k].name) == Some(Dedup(xs)[k])
    decreases |xs|
  {
    if xs != [] {
      var n := |xs| - 1;
      var init := xs[..n];
      var x := xs[n];
      assert xs == init + [x];
      DedupFirst(init);
      var kept := Dedup(init);
      forall k | 0 <= k < |kept| ensures FirstByName(xs, kept[k].name) == Some(kept[k]) {
        FirstByNameSnoc(init, x, kept[k].name);
      }
      if x.name !in NamesOf(kept) {
        DedupNames(init);
        FirstByNameSnoc(init, x, x.name);
        var d := kept + [x];
        forall k | 0 <= k < |d| ensures FirstByName(xs, d[k].name) == Some(d[k]) {
          if k < |kept| { assert d[k] == kept[k]; }
        }
      }
    }
  }

  /** `s` is among the snippets `folder` yields */
  predicate InFolder(fs: FileSystem, folder: string, s: Snippet) {
    FolderSnippets(fs, folder).Success? && s in FolderSnippets(fs, folder).value
  }

  /** Without a failing folder the candidates are every folder's snippets. */
  lemma {:induction false} CandidatesMembers(fs: FileSystem, folders: seq<string>, s: Snippet)
    requires Candidates(fs, folders).Success?
    ensures s in Candidates(fs, folders).value <==> exists i | 0 <= i < |folders| :: InFolder(fs, folders[i], s)
    decreases |folders|
  {
    if folders != [] {
      var n := |folders| - 1;
      var init := folders[..n];
      var before := Candidates(fs, init).value;
      var found := FolderSnippets(fs, folders[n]).value;
      assert Candidates(fs, folders).value == before + found;
      CandidatesMembers(fs, init, s);
      if s in before {
        var i :| 0 <= i < |init| && InFolder(fs, init[i], s);
        assert folders[i] == init[i];
        assert s in before + found;
      } else if s in found {
        assert InFolder(fs, folders[n], s);
        assert s in before + found;
      } else {
        assert s !in before + found;
        forall i | 0 <= i < |folders| ensures !InFolder(fs, folders[i], s) {
          if i < n {
            assert folders[i] == init[i];
          }
        }
      }
    }
  }


  /** Listing fails exactly when some folder cannot be read, and then with the first such folder's error. */
  lemma {:induction false} CandidatesFailure(fs: FileSystem, folders: seq<string>)
    ensures Candidates(fs, folders).Failure? <==> exists i | 0 <= i < |folders| :: folders[i] !in fs.listings
    ensures Candidates(fs, folders).Failure? ==>
            exists i | 0 <= i < |folders| :: folders[i] !in fs.listings
              && Candidates(fs, folders).error == ReadSnippetFolderFailed(folders[i])
              && forall k | 0 <= k < i :: folders[k] in fs.listings
    decreases |folders|
  {
    if folders != [] {
      var n := |folders| - 1;
      var init := folders[..n];
      CandidatesFailure(fs, init);
      forall k | 0 <= k < n ensures init[k] == folders[k] { }
      if Candidates(fs, init).Success? && folders[n] !in fs.listings {
        assert forall k | 0 <= k < n :: folders[k] in fs.listings;
      }
    }
  }

  /** The listed names are strictly increasing, so no name is listed twice. */
  lemma {:induction false} DiscoveredStrictlySorted(fs: FileSystem, folders: seq<string>)
    requires DiscoveredSnippets(fs, folders).Success?
    ensures var r := DiscoveredSnippets(fs, folders).value;
            forall i, j | 0 <= i < j < |r| :: Less(r[i].name, r[j].name)
  {
    var d := Dedup(Candidates(fs, folders).value);
    var r := SortByName(d);
    assert DistinctNames(r) by {
      DedupDistinct(Candidates(fs, folders).value);
      SortByNameDistinct(d);
    }
    SortByNameSorted(d);
    forall i, j | 0 <= i < j < |r| ensures Less(r[i].name, r[j].name) {
      LessTrichotomy(r[i].name, r[j].name);
    }
  }

  /** Every listed snippet is the first of its name in folder order, then listing order. */
  lemma {:induction false} DiscoveredFirstOfName(fs: FileSystem, folders: seq<string>)
    requires DiscoveredSnippets(fs, folders).Success?
    ensures var r := DiscoveredSnippets(fs, folders).value;
            forall k | 0 <= k < |r| :: FirstByName(Candidates(fs, folders).value, r[k].name) == Some(r[k])
  {
    var c := Candidates(fs, folders).value;
    var d := Dedup(c);
    var r := SortByName(d);
    DedupFirst(c);
    forall k | 0 <= k < |r| ensures FirstByName(c, r[k].name) == Some(r[k]) {
      assert r[k] in multiset(d);
      var m :| 0 <= m < |d| && d[m] == r[k];
    }
  }

  /** Reordering a list keeps its names. */
  lemma {:induction false} NamesOfPermutation(a: seq<Snippet>, b: seq<Snippet>)
    requires multiset(a) == multiset(b)
    ensures NamesOf(a) == NamesOf(b)
  {
    forall n | n in NamesOf(a) ensures n in NamesOf(b) {
      var k :| 0 <= k < |a| && a[k].name == n;
      assert a[k] in multiset(b);
      var m :| 0 <= m < |b| && b[m] == a[k];
    }
    forall n | n in NamesOf(b) ensures n in NamesOf(a) {
      var k :| 0 <= k < |b| && b[k].name == n;
      assert b[k] in multiset(a);
      var m :| 0 <= m < |a| && a[m] == b[k];
    }
  }

  /** Every name some folder yields is listed. */
  lemma {:induction false} DiscoveredNames(fs: FileSystem, folders: seq<string>)
    requires DiscoveredSnippets(fs, folders).Success?
    ensures NamesOf(DiscoveredSnippets(fs, folders).value) == NamesOf(Candidates(fs, folders).value)
  {
    var c := Candidates(fs, folders).value;
    DedupNames(c);
    NamesOfPermutation(SortByName(Dedup(c)), Dedup(c));
  }

  /** No listed name starts with "." or "_". */
  lemma {:induction false} DiscoveredNamesNotIgnored(fs: FileSystem, folders: seq<string>)
    requires DiscoveredSnippets(fs, folders).Success?
    ensures var r := DiscoveredSnippets(fs, folders).value;
            forall k | 0 <= k < |r| :: !IsIgnoredName(r[k].name)
  {
    var r := DiscoveredSnippets(fs, folders).value;
    forall k | 0 <= k < |r| ensures !IsIgnoredName(r[k].name) {
      CandidateNameNotIgnored(fs, folders, r[k]);
    }
  }

  /** A listed snippet was yielded by an entry of one of the folders. */
  lemma {:induction false} CandidateNameNotIgnored(fs: FileSystem, folders: seq<string>, s: Snippet)
    requires DiscoveredSnippets(fs, folders).Success? && s in DiscoveredSnippets(fs, folders).value
    ensures !IsIgnoredName(s.name)
  {
    var c := Candidates(fs, folders).value;
    assert s in c by {
      assert s in multiset(SortByName(Dedup(c)));
      DedupElement(c, s);
    }
    CandidatesMembers(fs, folders, s);
    var i :| 0 <= i < |folders| && InFolder(fs, folders[i], s);
    var entries := fs.listings[folders[i]];
    SnippetsInMembers(fs, folders[i], entries, s);
    var e :| 0 <= e < |entries| && Yields(fs, folders[i], entries[e], s);
    YieldedNameNotIgnored(fs, folders[i], entries[e], s);
  }

  /** A folder holding only the script test1.sh yields one snippet, "test1". */
  lemma {:induction false} OneScriptFolder(fs: FileSystem, folder: string)
    requires folder in fs.listings && fs.listings[folder] == [Entry("test1.sh", false)]
    ensures FolderSnippets(fs, folder) == Success([Snippet("test1", SingleFile, FilePath.Join([folder, "test1.sh"]))])
  {
    var e := Entry("test1.sh", false);
    assert e.name[..1] == "t";
    assert !IsIgnoredName(e.name);
    assert HasSuffix(e.name, ScriptSuffix);
    assert TrimSuffix(e.name, ScriptSuffix) == "test1";
    var s := Snippet("test1", SingleFile, FilePath.Join([folder, "test1.sh"]));
    assert SnippetForEntry(fs, folder, e) == Some(s);
    assert [e][..0] == [];
    assert SnippetsIn(fs, folder, [e]) == [] + [s] == [s];
    assert ReadDir(fs, folder) == Success([e]);
    assert FolderSnippets(fs, folder) == Success(SnippetsIn(fs, folder, [e]));
  }

  /**
   * The listing test of snippet_test.go: a folder holding test1.sh and
   * test2.sh lists both as single-file snippets, sorted by name.
   */
  lemma {:induction false} TwoScriptsListed(fs: FileSystem, folder: string)
    requires folder in fs.listings && fs.listings[folder] == [Entry("test1.sh", false), Entry("test2.sh", false)]
    ensures DiscoveredSnippets(fs, [folder]) == Success([
              Snippet("test1", SingleFile, FilePath.Join([folder, "test1.sh"])),
              Snippet("test2", SingleFile, FilePath.Join([folder, "test2.sh"]))])
  {
    var s1 := Snippet("test1", SingleFile, FilePath.Join([folder, "test1.sh"]));
    var s2 := Snippet("test2", SingleFile, FilePath.Join([folder, "test2.sh"]));
    TwoScriptsFound(fs, folder);
    DistinctPairKept(s1, s2);
    assert !Less("test2", "test1") by {
      assert "test2"[0] == "test1"[0] && "test2"[1..] == "est2" && "test1"[1..] == "est1";
      assert "est2"[1..] == "st2" && "est1"[1..] == "st1";
      assert "st2"[1..] == "t2" && "st1"[1..] == "t1";
      assert "t2"[1..] == "2" && "t1"[1..] == "1";
    }
    OrderedPairSorted(s1, s2);
  }

  lemma {:induction false} TwoScriptsFound(fs: FileSystem, folder: string)
    requires folder in fs.listings && fs.listings[folder] == [Entry("test1.sh", false), Entry("test2.sh", false)]
    ensures Candidates(fs, [folder]) == Success([
              Snippet("test1", SingleFile, FilePath.Join([folder, "test1.sh"])),
              Snippet("test2", SingleFile, FilePath.Join([folder, "test2.sh"]))])
  {
    var e1 := Entry("test1.sh", false);
    var e2 := Entry("test2.sh", false);
    var s1 := Snippet("test1", SingleFile, FilePath.Join([folder, "test1.sh"]));
    var s2 := Snippet("test2", SingleFile, FilePath.Join([folder, "test2.sh"]));
    assert SnippetForEntry(fs, folder, e1) == Some(s1) by {
      assert e1.name[..1] == "t" && !IsIgnoredName(e1.name);
      assert HasSuffix(e1.name, ScriptSuffix) && TrimSuffix(e1.name, ScriptSuffix) == "test1";
    }
    assert SnippetForEntry(fs, folder, e2) == Some(s2) by {
      assert e2.name[..1] == "t" && !IsIgnoredName(e2.name);
      assert HasSuffix(e2.name, ScriptSuffix) && TrimSuffix(e2.name, ScriptSuffix) == "test2";
    }
    assert SnippetsIn(fs, folder, [e1, e2]) == [s1, s2] by {
      assert [e1, e2][..1] == [e1] && [e1][..0] == [];
      assert SnippetsIn(fs, folder, [e1]) == [s1];
    }
    assert [folder][..0] == [];
    assert FolderSnippets(fs, folder) == Success([s1, s2]);
    assert [] + [s1, s2] == [s1, s2];
  }

  /** Two snippets of different names are both kept. */
  lemma {:induction false} DistinctPairKept(s1: Snippet, s2: Snippet)
    requires s1.name != s2.name
    ensures Dedup([s1, s2]) == [s1, s2]
  {
    assert [s1, s2][..1] == [s1] && [s1][..0] == [];
    assert Dedup([s1]) == [s1];
    assert NamesOf([s1]) == {s1.name};
  }

  /** Two snippets already in name order stay in that order. */
  lemma {:induction false} OrderedPairSorted(s1: Snippet, s2: Snippet)
    requires !Less(s2.name, s1.name)
    ensures SortByName([s1, s2]) == [s1, s2]
  {
    assert [s1, s2][1..] == [s2] && [s2][1..] == [];
    assert SortByName([s2]) == [s2];
  }

  lemma {:induction false} CandidatesOfTwo(fs: FileSystem, folder1: string, folder2: string)
    requires FolderSnippets(fs, folder1).Success? && FolderSnippets(fs, folder2).Success?
    ensures Candidates(fs, [folder1, folder2])
            == Success(FolderSnippets(fs, folder1).value + FolderSnippets(fs, folder2).value)
  {
    var folders := [folder1, folder2];
    assert [folder1][..0] == [];
    var a := FolderSnippets(fs, folder1).value;
    assert Candidates(fs, [folder1]) == Success([] + a);
    assert [] + a == a;
    assert folders[..|folders| - 1] == [folder1] && folders[|folders| - 1] == folder2;
    assert Candidates(fs, folders) == Success(Candidates(fs, [folder1]).value + FolderSnippets(fs, folder2).value);
  }

  lemma {:induction false} DedupSameName(s1: Snippet, s2: Snippet)
    requires s1.name == s2.name
    ensures Dedup([s1, s2]) == [s1]
  {
    assert [s1, s2][..1] == [s1] && [s1][..0] == [];
    assert Dedup([s1]) == [s1];
    assert s1.name in NamesOf([s1]) by {
      assert [s1][0].name == s1.name;
    }
  }

  /**
   * The same script in two folders (the folders test of snippet_test.go):
   * only one snippet named "test1" is listed, the one from the first folder.
   */
  lemma {:induction false} FirstFolderWins(fs: FileSystem, folder1: string, folder2: string)
    requires fs.listings == map[folder1 := [Entry("test1.sh", false)], folder2 := [Entry("test1.sh", false)]]
    ensures Snippets(fs, [folder1, folder2]) == Success([Snippet("test1", SingleFile, FilePath.Join([folder1, "test1.sh"]))])
  {
    var s1 := Snippet("test1", SingleFile, FilePath.Join([folder1, "test1.sh"]));
    var s2 := Snippet("test1", SingleFile, FilePath.Join([folder2, "test1.sh"]));
    OneScriptFolder(fs, folder1);
    OneScriptFolder(fs, folder2);
    CandidatesOfTwo(fs, folder1, folder2);
    assert [s1] + [s2] == [s1, s2];
    DedupSameName(s1, s2);
    assert SortByName([s1]) == [s1] by {
      assert [s1][1..] == [];
    }
  }

  // ---------------------------------------------------------------------
  // Splicing a single-file snippet into the Dockerfile
  // ---------------------------------------------------------------------

  const InsertMarker := "__DEVCONTAINER_SNIPPET_INSERT__"

  /** The text added for a script: a blank line, a comment naming the snippet, COPY and RUN */
  function SnippetBlock(name: string, scriptFilename: string): string {
    "\n" + ("# " + name) + "\n" + ("COPY scripts/" + scriptFilename + " /tmp/") + "\n" + ("RUN /tmp/" + scriptFilename) + "\n"
  }

  /** The lines the block adds after a marker line */
  function BlockLines(name: string, scriptFilename: string): seq<string> {
    ["", "# " + name, "COPY scripts/" + scriptFilename + " /tmp/", "RUN /tmp/" + scriptFilename]
  }

  lemma {:induction false} BlockIsLines(name: string, scriptFilename: string)
    ensures SnippetBlock(name, scriptFilename) == Join(BlockLines(name, scriptFilename), '\n') + "\n"
  {
    var b := BlockLines(name, scriptFilename);
    var j3 := Join(b[3..], '\n');
    assert j3 == b[3] by {
      assert b[3..] == [b[3]];
    }
    var j2 := Join(b[2..], '\n');
    assert j2 == b[2] + "\n" + b[3] by {
      assert b[2..][1..] == b[3..];
    }
    var j1 := Join(b[1..], '\n');
    assert j1 == b[1] + "\n" + j2 by {
      assert b[1..][1..] == b[2..];
    }
    calc {
      Join(b, '\n') + "\n";
      "" + "\n" + j1 + "\n";
      "\n" + (b[1] + "\n" + (b[2] + "\n" + b[3])) + "\n";
      "\n" + b[1] + "\n" + b[2] + "\n" + b[3] + "\n";
    }
  }

  predicate IsMarkerLine(line: string) {
    Contains(line, InsertMarker)
  }

  predicate HasMarkerLine(lines: seq<string>) {
    exists k | 0 <= k < |lines| :: IsMarkerLine(lines[k])
  }

  /** The lines of the new Dockerfile: every line, each marker line followed by the block's lines */
  function Expand(lines: seq<string>, name: string, scriptFilename: string): (r: seq<string>)
    ensures |r| >= |lines|
  {
    if lines == [] then []
    else
      var line := lines[|lines| - 1];
      Expand(lines[..|lines| - 1], name, scriptFilename) + [line]
        + (if IsMarkerLine(line) then BlockLines(name, scriptFilename) else [])
  }

  /**
   * The new Dockerfile text: with a marker line, the expanded lines (a
   * marker on the last line keeps the block's final newline); without
   * one, the block appended to the unchanged text.
   */
  function Spliced(text: string, name: string, scriptFilename: string): string {
    var lines := Split(text, '\n');
    if HasMarkerLine(lines) then
      Join(Expand(lines, name, scriptFilename), '\n')
        + (if IsMarkerLine(lines[|lines| - 1]) then "\n" else "")
    else text + SnippetBlock(name, scriptFilename)
  }

  /** What the buffer holds after the first i lines */
  function SplicedPrefix(lines: seq<string>, i: nat, name: string, scriptFilename: string): string
    requires i <= |lines|
  {
    Join(Expand(lines[..i], name, scriptFilename), '\n')
      + (if i > 0 && IsMarkerLine(lines[i - 1]) then "\n" else "")
  }

  function Separator(lines: seq<string>, i: nat): string
    requires i <= |lines|
  {
    if i > 0 && !IsMarkerLine(lines[i - 1]) then "\n" else ""
  }

  lemma {:induction false} SeparatorAfterPrefix(lines: seq<string>, i: nat, name: string, scriptFilename: string)
    requires i <= |lines|
    ensures SplicedPrefix(lines, i, name, scriptFilename) + Separator(lines, i)
            == if i == 0 then "" else Join(Expand(lines[..i], name, scriptFilename), '\n') + "\n"
  {
    if i == 0 {
      assert lines[..0] == [];
    }
  }

  lemma {:induction false} ExpandPrefixSnoc(lines: seq<string>, i: nat, name: string, scriptFilename: string)
    requires i < |lines|
    ensures Expand(lines[..i + 1], name, scriptFilename)
            == Expand(lines[..i], name, scriptFilename) + [lines[i]]
               + (if IsMarkerLine(lines[i]) then BlockLines(name, scriptFilename) else [])
  {
    assert lines[..i + 1][..i] == lines[..i];
  }

  /** The buffer before a line's own text, then the line, are the joined lines so far. */
  lemma {:induction false} SpliceHead(lines: seq<string>, i: nat, name: string, scriptFilename: string)
    requires i < |lines|
    ensures SplicedPrefix(lines, i, name, scriptFilename) + Separator(lines, i) + lines[i]
            == Join(Expand(lines[..i], name, scriptFilename) + [lines[i]], '\n')
  {
    var e := Expand(lines[..i], name, scriptFilename);
    SeparatorAfterPrefix(lines, i, name, scriptFilename);
    if i == 0 {
      assert e == [] by {
        assert lines[..0] == [];
      }
    }
    JoinSnoc(e, lines[i]);
  }

  /** One step of the buffer loop on a line without the marker: the separator, then the line */
  lemma {:induction false} SpliceStepPlain(lines: seq<string>, i: nat, name: string, scriptFilename: string)
    requires i < |lines| && !IsMarkerLine(lines[i])
    ensures SplicedPrefix(lines, i + 1, name, scriptFilename)
            == SplicedPrefix(lines, i, name, scriptFilename) + Separator(lines, i) + lines[i]
  {
    var e := Expand(lines[..i], name, scriptFilename);
    ExpandPrefixSnoc(lines, i, name, scriptFilename);
    assert e + [lines[i]] + [] == e + [lines[i]];
    SpliceHead(lines, i, name, scriptFilename);
  }

  /** One step of the buffer loop on a marker line: the separator, the line, a newline and the block */
  lemma {:induction false} SpliceStepMarker(lines: seq<string>, i: nat, name: string, scriptFilename: string)
    requires i < |lines| && IsMarkerLine(lines[i])
    ensures SplicedPrefix(lines, i + 1, name, scriptFilename)
            == SplicedPrefix(lines, i, name, scriptFilename) + Separator(lines, i) + lines[i]
               + "\n" + SnippetBlock(name, scriptFilename)
  {
    var head := Expand(lines[..i], name, scriptFilename) + [lines[i]];
    var block := BlockLines(name, scriptFilename);
    ExpandPrefixSnoc(lines, i, name, scriptFilename);
    assert SplicedPrefix(lines, i + 1, name, scriptFilename) == Join(head + block, '\n') + "\n";
    JoinAppend(head, block, '\n');
    BlockIsLines(name, scriptFilename);
    SpliceHead(lines, i, name, scriptFilename);
  }

  /** The buffer loop of addSingleFileSnippetToDevContainer */
  method SpliceDockerfile(dockerfileContent: string, snippetName: string, scriptFilename: string) returns (newContent: string)
    ensures newContent == Spliced(dockerfileContent, snippetName, scriptFilename)
  {
    var snippetContent := SnippetBlock(snippetName, scriptFilename);
    var dockerFileLines := Split(dockerfileContent, '\n');
    var addSeparator := false;
    var addedSnippetContent := false;
    newContent := "";
    for i := 0 to |dockerFileLines|
      invariant addSeparator == (i > 0 && !IsMarkerLine(dockerFileLines[i - 1]))
      invariant addedSnippetContent == HasMarkerLine(dockerFileLines[..i])
      invariant newContent == SplicedPrefix(dockerFileLines, i, snippetName, scriptFilename)
    {
      var line := dockerFileLines[i];
      assert dockerFileLines[..i + 1] == dockerFileLines[..i] + [line];
      HasMarkerLineSnoc(dockerFileLines[..i], line);
      ghost var before := newContent;
      if addSeparator {
        newContent := newContent + "\n";
      } else {
        assert newContent == before + "";
      }
      assert newContent == before + Separator(dockerFileLines, i);
      addSeparator := true;
      newContent := newContent + line;
      if Contains(line, InsertMarker) {
        newContent := newContent + "\n";
        newContent := newContent + snippetContent;
        SpliceStepMarker(dockerFileLines, i, snippetName, scriptFilename);
        addedSnippetContent := true;
        addSeparator := false;
      } else {
        SpliceStepPlain(dockerFileLines, i, snippetName, scriptFilename);
      }
    }
    assert dockerFileLines[..|dockerFileLines|] == dockerFileLines;
    SplicedFromPrefix(dockerfileContent, snippetName, scriptFilename);
    if !addedSnippetContent {
      newContent := newContent + snippetContent;
    }
  }

  /** Spliced is the buffer after the last line, plus the block when no line was a marker line. */
  lemma {:induction false} SplicedFromPrefix(text: string, name: string, scriptFilename: string)
    ensures var lines := Split(text, '\n');
            Spliced(text, name, scriptFilename)
            == SplicedPrefix(lines, |lines|, name, scriptFilename)
               + (if HasMarkerLine(lines) then "" else SnippetBlock(name, scriptFilename))
  {
    var lines := Split(text, '\n');
    assert lines[..|lines|] == lines;
    if !HasMarkerLine(lines) {
      ExpandWithoutMarkers(lines, name, scriptFilename);
      JoinSplit(text, '\n');
      assert !IsMarkerLine(lines[|lines| - 1]);
    }
  }

  lemma {:induction false} HasMarkerLineSnoc(lines: seq<string>, line: string)
    ensures HasMarkerLine(lines + [line]) <==> HasMarkerLine(lines) || IsMarkerLine(line)
  {
    var ls := lines + [line];
    if HasMarkerLine(lines) {
      var k :| 0 <= k < |lines| && IsMarkerLine(lines[k]);
      assert ls[k] == lines[k];
    }
    if IsMarkerLine(line) {
      assert ls[|lines|] == line;
    }
    if HasMarkerLine(ls) {
      var k :| 0 <= k < |ls| && IsMarkerLine(ls[k]);
      if k < |lines| { assert ls[k] == lines[k]; }
    }
  }

  lemma {:induction false} JoinSnoc(e: seq<string>, line: string)
    ensures Join(e + [line], '\n') == if e == [] then line else Join(e, '\n') + "\n" + line
  {
    if e == [] {
      assert e + [line] == [line];
    } else {
      JoinAppend(e, [line], '\n');
    }
  }

  /** Without marker lines nothing is inserted between the lines. */
  lemma {:induction false} ExpandWithoutMarkers(lines: seq<string>, name: string, scriptFilename: string)
    requires !HasMarkerLine(lines)
    ensures Expand(lines, name, scriptFilename) == lines
    decreases |lines|
  {
    if lines != [] {
      var n := |lines| - 1;
      assert !IsMarkerLine(lines[n]);
      assert !HasMarkerLine(lines[..n]) by {
        forall k | 0 <= k < n ensures !IsMarkerLine(lines[..n][k]) {
          assert lines[..n][k] == lines[k];
        }
      }
      ExpandWithoutMarkers(lines[..n], name, scriptFilename);
      assert lines[..n] + [lines[n]] == lines;
    }
  }

  /** An occurrence of a text free of the separator lies inside one part. */
  lemma {:induction false} ContainsInSomePart(parts: seq<string>, sep: char, sub: string)
    requires |parts| >= 1 && sep !in sub
    requires Contains(Join(parts, sep), sub)
    ensures exists k | 0 <= k < |parts| :: Contains(parts[k], sub)
    decreases |parts|
  {
    if |parts| == 1 {
      assert Contains(parts[0], sub);
    } else {
      var p0 := parts[0];
      var rest := Join(parts[1..], sep);
      var whole := Join(parts, sep);
      assert whole == p0 + [sep] + rest;
      var i :| 0 <= i <= |whole| - |sub| && OccursAt(whole, sub, i);
      assert whole[|p0|] == sep;
      if i + |sub| <= |p0| {
        assert whole[i..i + |sub|] == p0[i..i + |sub|];
        assert OccursAt(p0, sub, i);
      } else if i > |p0| {
        var j := i - |p0| - 1;
        assert whole[i..i + |sub|] == rest[j..j + |sub|];
        assert OccursAt(rest, sub, j);
        ContainsInSomePart(parts[1..], sep, sub);
        var k :| 0 <= k < |parts[1..]| && Contains(parts[1..][k], sub);
        assert parts[k + 1] == parts[1..][k];
      }
    }
  }

  /** A line of the Dockerfile holds the marker exactly when the Dockerfile does. */
  lemma {:induction false} MarkerLineIffMarker(text: string)
    ensures HasMarkerLine(Split(text, '\n')) <==> Contains(text, InsertMarker)
  {
    var lines := Split(text, '\n');
    JoinSplit(text, '\n');
    if HasMarkerLine(lines) {
      var k :| 0 <= k < |lines| && IsMarkerLine(lines[k]);
      ContainsInJoin(lines, k, '\n', InsertMarker);
    }
    if Contains(text, InsertMarker) {
      assert '\n' !in InsertMarker;
      ContainsInSomePart(lines, '\n', InsertMarker);
    }
  }

  /** A Dockerfile without the marker gets the block appended at its end. */
  lemma {:induction false} SplicedWithoutMarker(text: string, name: string, scriptFilename: string)
    requires !Contains(text, InsertMarker)
    ensures Spliced(text, name, scriptFilename) == text + SnippetBlock(name, scriptFilename)
  {
    MarkerLineIffMarker(text);
  }

  lemma {:induction false} ExpandAppend(a: seq<string>, b: seq<string>, name: string, scriptFilename: string)
    ensures Expand(a + b, name, scriptFilename) == Expand(a, name, scriptFilename) + Expand(b, name, scriptFilename)
    decreases |b|
  {
    if b == [] {
      assert a + b == a;
    } else {
      var n := |b| - 1;
      assert (a + b)[..|a + b| - 1] == a + b[..n];
      assert (a + b)[|a + b| - 1] == b[n];
      ExpandAppend(a, b[..n], name, scriptFilename);
    }
  }

  /** Each marker line of the Dockerfile is followed by the block's lines, wherever it stands. */
  lemma {:induction false} MarkerLineFollowedByBlock(lines: seq<string>, k: nat, name: string, scriptFilename: string)
    requires k < |lines| && IsMarkerLine(lines[k])
    ensures Expand(lines, name, scriptFilename)
            == Expand(lines[..k], name, scriptFilename) + [lines[k]] + BlockLines(name, scriptFilename)
               + Expand(lines[k + 1..], name, scriptFilename)
  {
    assert lines == lines[..k + 1] + lines[k + 1..];
    ExpandAppend(lines[..k + 1], lines[k + 1..], name, scriptFilename);
    assert lines[..k + 1][..k] == lines[..k];
  }

  /** Lines of the Dockerfile without the marker are copied, one line per line. */
  lemma {:induction false} PlainLineKept(lines: seq<string>, k: nat, name: string, scriptFilename: string)
    requires k < |lines| && !IsMarkerLine(lines[k])
    ensures Expand(lines, name, scriptFilename)
            == Expand(lines[..k], name, scriptFilename) + [lines[k]] + Expand(lines[k + 1..], name, scriptFilename)
  {
    assert lines == lines[..k + 1] + lines[k + 1..];
    ExpandAppend(lines[..k + 1], lines[k + 1..], name, scriptFilename);
    assert lines[..k + 1][..k] == lines[..k];
  }

  lemma {:induction false} ExpandHasNoNewline(lines: seq<string>, name: string, scriptFilename: string)
    requires forall k | 0 <= k < |lines| :: '\n' !in lines[k]
    requires '\n' !in name && '\n' !in scriptFilename
    ensures forall k | 0 <= k < |Expand(lines, name, scriptFilename)| :: '\n' !in Expand(lines, name, scriptFilename)[k]
    decreases |lines|
  {
    if lines != [] {
      var n := |lines| - 1;
      ExpandHasNoNewline(lines[..n], name, scriptFilename);
      var b := BlockLines(name, scriptFilename);
      assert forall k | 0 <= k < |b| :: '\n' !in b[k];
    }
  }

  /**
   * With a marker, the new Dockerfile's lines are exactly the expanded
   * lines (plus the empty last line that a marker on the last line leaves),
   * provided the snippet and script names hold no newline.
   */
  lemma {:induction false} SplicedLines(text: string, name: string, scriptFilename: string)
    requires Contains(text, InsertMarker)
    requires '\n' !in name && '\n' !in scriptFilename
    ensures var lines := Split(text, '\n');
            Split(Spliced(text, name, scriptFilename), '\n')
            == Expand(lines, name, scriptFilename) + (if IsMarkerLine(lines[|lines| - 1]) then [""] else [])
  {
    var lines := Split(text, '\n');
    MarkerLineIffMarker(text);
    SplitPartsHaveNoSeparator(text, '\n');
    ExpandHasNoNewline(lines, name, scriptFilename);
    var e := Expand(lines, name, scriptFilename);
    var out := Spliced(text, name, scriptFilename);
    if IsMarkerLine(lines[|lines| - 1]) {
      assert out == Join(e, '\n') + "\n";
      JoinAppend(e, [""], '\n');
      assert Join([""], '\n') == "";
      assert out == Join(e + [""], '\n');
      SplitJoin(e + [""], '\n');
    } else {
      assert out == Join(e, '\n') + "";
      assert out == Join(e, '\n');
      SplitJoin(e, '\n');
    }
  }

  // ---------------------------------------------------------------------
  // Folder snippets: the actions of snippet.json
  // ---------------------------------------------------------------------

  /** FolderSnippetAction: the type, the snippet-relative source and the project-relative target */
  datatype FolderSnippetAction = FolderSnippetAction(actionType: string, sourcePath: string, targetPath: string)

  const MergeJsonAction := "mergeJSON"
  const CopyAndRunAction := "copyAndRun"

  /**
   * The JSON handling the modelled code delegates: decoding snippet.json
   * (encoding/json), parsing a document, merging two documents and writing
   * one back (the dora library). D is the type of a parsed document.
   */
  datatype Codecs<!D> = Codecs(
    decodeManifest: string -> Result<seq<FolderSnippetAction>, Error>,
    parse: string -> Result<D, Error>,
    merge: (D, D) -> Result<D, Error>,
    write: D -> string)

  /** loadJSONDocument */
  function LoadJsonDocument<D>(fs: FileSystem, path: string, codecs: Codecs<D>): Result<D, Error> {
    var text :- ReadFile(fs, path);
    codecs.parse(text)
  }

  /**
   * mergeJSON: the snippet's document merged into the project's document,
   * which is overwritten with the result.
   */
  function MergeJson<D>(fs: FileSystem, projectFolder: string, snippet: Snippet,
                        relativeMergePath: string, relativeBasePath: string, codecs: Codecs<D>): Result<FileSystem, Error>
  {
    var mergePath := FilePath.Join([snippet.path, relativeMergePath]);
    if Stat(fs, mergePath) == Missing then Failure(NotExist(mergePath))
    else
      var basePath := FilePath.Join([projectFolder, relativeBasePath]);
      var baseDocument :- LoadJsonDocument(fs, basePath, codecs);
      var mergeDocument :- LoadJsonDocument(fs, mergePath, codecs);
      var resultDocument :- codecs.merge(baseDocument, mergeDocument);
      Success(WriteFile(fs, basePath, codecs.write(resultDocument)))
  }

  /** A successful merge rewrites the project's document with the merged one and leaves every other file alone. */
  lemma {:induction false} MergeJsonEffect<D>(fs: FileSystem, projectFolder: string, snippet: Snippet,
                           relativeMergePath: string, relativeBasePath: string, codecs: Codecs<D>)
    requires MergeJson(fs, projectFolder, snippet, relativeMergePath, relativeBasePath, codecs).Success?
    ensures var mergePath := FilePath.Join([snippet.path, relativeMergePath]);
            var basePath := FilePath.Join([projectFolder, relativeBasePath]);
            var r := MergeJson(fs, projectFolder, snippet, relativeMergePath, relativeBasePath, codecs).value;
            && Stat(fs, mergePath) == RegularFile
            && Stat(fs, basePath) == RegularFile
            && codecs.parse(fs.files[basePath]).Success?
            && codecs.parse(fs.files[mergePath]).Success?
            && codecs.merge(codecs.parse(fs.files[basePath]).value, codecs.parse(fs.files[mergePath]).value).Success?
            && ReadFile(r, basePath) == Success(codecs.write(codecs.merge(codecs.parse(fs.files[basePath]).value,
                                                                         codecs.parse(fs.files[mergePath]).value).value))
            && (forall p | p != basePath :: ReadFile(r, p) == ReadFile(fs, p))
  {
  }

  /** The actions run in order; the first failure or unsupported action stops the run */
  function ApplyActions<D>(fs: FileSystem, projectFolder: string, snippet: Snippet,
                           actions: seq<FolderSnippetAction>, codecs: Codecs<D>): Result<FileSystem, Error>
    decreases |actions|
  {
    if actions == [] then Success(fs)
    else
      var action := actions[0];
      if action.actionType == MergeJsonAction then
        var next :- MergeJson(fs, projectFolder, snippet, action.sourcePath, action.targetPath, codecs);
        ApplyActions(next, projectFolder, snippet, actions[1..], codecs)
      else Failure(UnhandledActionType(action.actionType))
  }

  /** The action loop of addFolderSnippetToDevContainer */
  method RunActions<D>(fs: FileSystem, projectFolder: string, snippet: Snippet,
                       actions: seq<FolderSnippetAction>, codecs: Codecs<D>) returns (r: Result<FileSystem, Error>)
    ensures r == ApplyActions(fs, projectFolder, snippet, actions, codecs)
  {
    var current := fs;
    for i := 0 to |actions|
      invariant ApplyActions(fs, projectFolder, snippet, actions, codecs)
                == ApplyActions(current, projectFolder, snippet, actions[i..], codecs)
    {
      var action := actions[i];
      assert actions[i..][1..] == actions[i + 1..];
      if action.actionType == MergeJsonAction {
        var step := MergeJson(current, projectFolder, snippet, action.sourcePath, action.targetPath, codecs);
        if step.Failure? {
          return Failure(step.error);
        }
        current := step.value;
      } else {
        return Failure(UnhandledActionType(action.actionType));
      }
    }
    return Success(current);
  }

  /** Running a + b runs a, then b on the files a left. */
  lemma {:induction false} ApplyActionsAppend<D>(fs: FileSystem, projectFolder: string, snippet: Snippet,
                                                 a: seq<FolderSnippetAction>, b: seq<FolderSnippetAction>, codecs: Codecs<D>)
    ensures ApplyActions(fs, projectFolder, snippet, a + b, codecs)
            == match ApplyActions(fs, projectFolder, snippet, a, codecs)
               case Failure(e) => Failure(e)
               case Success(mid) => ApplyActions(mid, projectFolder, snippet, b, codecs)
    decreases |a|
  {
    if a == [] {
      assert a + b == b;
    } else {
      assert (a + b)[0] == a[0] && (a + b)[1..] == a[1..] + b;
      var action := a[0];
      if action.actionType == MergeJsonAction {
        var step := MergeJson(fs, projectFolder, snippet, action.sourcePath, action.targetPath, codecs);
        if step.Success? {
          ApplyActionsAppend(step.value, projectFolder, snippet, a[1..], b, codecs);
        }
      }
    }
  }

  /**
   * A folder snippet is applied only when every one of its actions is a
   * mergeJSON action; "copyAndRun", though declared, is rejected.
   */
  lemma {:induction false} OnlyMergeActionsSucceed<D>(fs: FileSystem, projectFolder: string, snippet: Snippet,
                                                      actions: seq<FolderSnippetAction>, codecs: Codecs<D>)
    requires ApplyActions(fs, projectFolder, snippet, actions, codecs).Success?
    ensures forall k | 0 <= k < |actions| :: actions[k].actionType == MergeJsonAction
    decreases |actions|
  {
    if actions != [] {
      var action := actions[0];
      var next := MergeJson(fs, projectFolder, snippet, action.sourcePath, action.targetPath, codecs).value;
      OnlyMergeActionsSucceed(next, projectFolder, snippet, actions[1..], codecs);
      forall k | 0 < k < |actions| ensures actions[k].actionType == MergeJsonAction {
        assert actions[k] == actions[1..][k - 1];
      }
    }
  }

  /** The first action that is not mergeJSON aborts the run with its type, once the merges before it succeed. */
  lemma {:induction false} FirstUnhandledActionAborts<D>(fs: FileSystem, projectFolder: string, snippet: Snippet,
                                      actions: seq<FolderSnippetAction>, k: nat, codecs: Codecs<D>)
    requires k < |actions| && actions[k].actionType != MergeJsonAction
    requires ApplyActions(fs, projectFolder, snippet, actions[..k], codecs).Success?
    ensures ApplyActions(fs, projectFolder, snippet, actions, codecs) == Failure(UnhandledActionType(actions[k].actionType))
  {
    assert actions == actions[..k] + actions[k..];
    ApplyActionsAppend(fs, projectFolder, snippet, actions[..k], actions[k..], codecs);
  }

  // ---------------------------------------------------------------------
  // Adding a snippet to a project
  // ---------------------------------------------------------------------

  function ScriptsFolder(projectFolder: string): string {
    FilePath.Join([projectFolder, ".devcontainer", "scripts"])
  }

  function DockerfilePath(projectFolder: string): string {
    FilePath.Join([projectFolder, ".devcontainer", "Dockerfile"])
  }

  /** addSingleFileSnippetToDevContainer: copy the script into .devcontainer/scripts and splice the Dockerfile */
  function SingleFileSnippetAdded(fs: FileSystem, projectFolder: string, snippet: Snippet): Result<FileSystem, Error> {
    if snippet.kind != SingleFile then Failure(WrongSnippetType("Expected single file snippet"))
    else
      var withFolder :- MkdirAll(fs, ScriptsFolder(projectFolder));
      var scriptFilename := FilePath.Split(snippet.path).file;
      var withScript :- CopyFile(withFolder, snippet.path, FilePath.Join([ScriptsFolder(projectFolder), scriptFilename]));
      var dockerfile := DockerfilePath(projectFolder);
      match ReadFile(withScript, dockerfile)
      case Failure(_) => Failure(ReadDockerfileFailed(dockerfile))
      case Success(content) => Success(WriteFile(withScript, dockerfile, Spliced(content, snippet.name, scriptFilename)))
  }

  method AddSingleFileSnippet(fs: FileSystem, projectFolder: string, snippet: Snippet) returns (r: Result<FileSystem, Error>)
    ensures r == SingleFileSnippetAdded(fs, projectFolder, snippet)
  {
    if snippet.kind != SingleFile {
      return Failure(WrongSnippetType("Expected single file snippet"));
    }
    var scriptFolderPath := ScriptsFolder(projectFolder);
    var made := MkdirAll(fs, scriptFolderPath);
    if made.Failure? {
      return Failure(made.error);
    }
    var scriptFilename := FilePath.Split(snippet.path).file;
    var copied := CopyFile(made.value, snippet.path, FilePath.Join([scriptFolderPath, scriptFilename]));
    if copied.Failure? {
      return Failure(copied.error);
    }
    var dockerfileFilename := DockerfilePath(projectFolder);
    var buf := ReadFile(copied.value, dockerfileFilename);
    if buf.Failure? {
      return Failure(ReadDockerfileFailed(dockerfileFilename));
    }
    var newContent := SpliceDockerfile(buf.value, snippet.name, scriptFilename);
    return Success(WriteFile(copied.value, dockerfileFilename, newContent));
  }

  /**
   * On success the script is copied under .devcontainer/scripts with its
   * own file name and the Dockerfile holds the spliced text of what it
   * held before. The second requires excludes no run of the source: the
   * script's file name holds no `/`, so once cleaned the target is a path
   * inside `.devcontainer/scripts`, or for a name "" or ".." that folder
   * or `.devcontainer` itself, and never `.devcontainer/Dockerfile`. The
   * lemma states this rather than deriving it from the cleaning.
   */
  lemma {:induction false} SingleFileSnippetEffect(fs: FileSystem, projectFolder: string, snippet: Snippet)
    requires SingleFileSnippetAdded(fs, projectFolder, snippet).Success?
    requires FilePath.Join([ScriptsFolder(projectFolder), FilePath.Split(snippet.path).file]) != DockerfilePath(projectFolder)
    ensures var r := SingleFileSnippetAdded(fs, projectFolder, snippet).value;
            var file := FilePath.Split(snippet.path).file;
            && snippet.kind == SingleFile
            && Stat(fs, FilePath.Join([ScriptsFolder(projectFolder), file])) == Missing
            && ReadFile(r, FilePath.Join([ScriptsFolder(projectFolder), file])) == ReadFile(fs, snippet.path)
            && ReadFile(fs, DockerfilePath(projectFolder)).Success?
            && ReadFile(r, DockerfilePath(projectFolder))
               == Success(Spliced(fs.files[DockerfilePath(projectFolder)], snippet.name, file))
  {
    var file := FilePath.Split(snippet.path).file;
    var target := FilePath.Join([ScriptsFolder(projectFolder), file]);
    var dockerfile := DockerfilePath(projectFolder);
    var withFolder := MkdirAll(fs, ScriptsFolder(projectFolder)).value;
    var withScript := CopyFile(withFolder, snippet.path, target).value;
    assert withFolder.files == fs.files;
    assert withScript == WriteFile(withFolder, target, fs.files[snippet.path]);
    assert ReadFile(withScript, dockerfile) == ReadFile(fs, dockerfile);
  }

  /**
   * A file or folder already at the script's target under
   * .devcontainer/scripts makes the run fail before the Dockerfile is read
   * or written: the copy creates its target exclusively. When the scripts
   * folder can be made and the snippet's script exists, the error is the
   * copy's.
   */
  lemma {:induction false} ExistingScriptRejected(fs: FileSystem, projectFolder: string, snippet: Snippet)
    requires Stat(fs, FilePath.Join([ScriptsFolder(projectFolder), FilePath.Split(snippet.path).file])) != Missing
    ensures SingleFileSnippetAdded(fs, projectFolder, snippet).Failure?
    ensures var target := FilePath.Join([ScriptsFolder(projectFolder), FilePath.Split(snippet.path).file]);
            snippet.kind == SingleFile && Stat(fs, ScriptsFolder(projectFolder)) != RegularFile && Stat(fs, snippet.path) != Missing
            ==> SingleFileSnippetAdded(fs, projectFolder, snippet) == Failure(AlreadyExists(target))
  {
    var target := FilePath.Join([ScriptsFolder(projectFolder), FilePath.Split(snippet.path).file]);
    if snippet.kind == SingleFile && MkdirAll(fs, ScriptsFolder(projectFolder)).Success? {
      CopyOntoExisting(fs, ScriptsFolder(projectFolder), snippet.path, target);
    }
  }

  /** Once a folder is made, a copy onto a path that already existed still fails. */
  lemma {:induction false} CopyOntoExisting(fs: FileSystem, folder: string, src: string, dst: string)
    requires MkdirAll(fs, folder).Success? && Stat(fs, dst) != Missing
    ensures CopyFile(MkdirAll(fs, folder).value, src, dst).Failure?
    ensures Stat(fs, src) != Missing ==> CopyFile(MkdirAll(fs, folder).value, src, dst) == Failure(AlreadyExists(dst))
  {
    var made := MkdirAll(fs, folder).value;
    assert made.files == fs.files && made.dirs == fs.dirs + {folder};
    assert Stat(made, dst) != Missing;
    assert Stat(fs, src) != Missing ==> Stat(made, src) != Missing;
  }

  /** addFolderSnippetToDevContainer: run the actions snippet.json lists */
  function FolderSnippetAdded<D>(fs: FileSystem, projectFolder: string, snippet: Snippet, codecs: Codecs<D>): Result<FileSystem, Error> {
    if snippet.kind != Folder then Failure(WrongSnippetType("Expected folder snippet"))
    else
      var manifestText :- ReadFile(fs, FilePath.Join([snippet.path, SnippetManifest]));
      var actions :- codecs.decodeManifest(manifestText);
      ApplyActions(fs, projectFolder, snippet, actions, codecs)
  }

  method AddFolderSnippet<D>(fs: FileSystem, projectFolder: string, snippet: Snippet, codecs: Codecs<D>) returns (r: Result<FileSystem, Error>)
    ensures r == FolderSnippetAdded(fs, projectFolder, snippet, codecs)
  {
    if snippet.kind != Folder {
      return Failure(WrongSnippetType("Expected folder snippet"));
    }
    var buf := ReadFile(fs, FilePath.Join([snippet.path, SnippetManifest]));
    if buf.Failure? {
      return Failure(buf.error);
    }
    var snippetJson := codecs.decodeManifest(buf.value);
    if snippetJson.Failure? {
      return Failure(snippetJson.error);
    }
    r := RunActions(fs, projectFolder, snippet, snippetJson.value, codecs);
  }

  /**
   * The outcomes of adding a folder snippet: a snippet of the other kind is
   * refused, a missing snippet.json fails with the read error, and the run
   * succeeds exactly when snippet.json is read and decoded and every action
   * it lists runs, ending in the state those actions leave.
   */
  lemma {:induction false} FolderSnippetOutcome<D>(fs: FileSystem, projectFolder: string, snippet: Snippet, codecs: Codecs<D>)
    ensures snippet.kind != Folder ==> FolderSnippetAdded(fs, projectFolder, snippet, codecs) == Failure(WrongSnippetType("Expected folder snippet"))
    ensures var manifest := FilePath.Join([snippet.path, SnippetManifest]);
            snippet.kind == Folder && Stat(fs, manifest) == Missing
            ==> FolderSnippetAdded(fs, projectFolder, snippet, codecs) == Failure(NotExist(manifest))
    ensures var manifest := FilePath.Join([snippet.path, SnippetManifest]);
            FolderSnippetAdded(fs, projectFolder, snippet, codecs).Success? <==>
              && snippet.kind == Folder
              && Stat(fs, manifest) == RegularFile
              && codecs.decodeManifest(fs.files[manifest]).Success?
              && ApplyActions(fs, projectFolder, snippet, codecs.decodeManifest(fs.files[manifest]).value, codecs).Success?
    ensures var manifest := FilePath.Join([snippet.path, SnippetManifest]);
            FolderSnippetAdded(fs, projectFolder, snippet, codecs).Success? ==>
              FolderSnippetAdded(fs, projectFolder, snippet, codecs)
              == ApplyActions(fs, projectFolder, snippet, codecs.decodeManifest(fs.files[manifest]).value, codecs)
  {
  }

  /** AddSnippetToDevcontainer: look the snippet up by name, then add it as its kind demands */
  function SnippetAdded<D>(fs: FileSystem, folders: seq<string>, projectFolder: string, name: string, codecs: Codecs<D>): Result<FileSystem, Error> {
    var snippets :- Snippets(fs, folders);
    match FirstByName(snippets, name)
    case None => Failure(SnippetNotFound(name))
    case Some(snippet) =>
      if snippet.kind == SingleFile then SingleFileSnippetAdded(fs, projectFolder, snippet)
      else FolderSnippetAdded(fs, projectFolder, snippet, codecs)
  }

  method AddSnippetToDevcontainer<D>(fs: FileSystem, folders: seq<string>, projectFolder: string, snippetName: string, codecs: Codecs<D>)
    returns (r: Result<FileSystem, Error>)
    ensures r == SnippetAdded(fs, folders, projectFolder, snippetName, codecs)
  {
    var snippet := GetSnippetByName(fs, folders, snippetName);
    if snippet.Failure? {
      return Failure(snippet.error);
    }
    if snippet.value.None? {
      return Failure(SnippetNotFound(snippetName));
    }
    var s := snippet.value.value;
    match s.kind {
      case SingleFile =>
        r := AddSingleFileSnippet(fs, projectFolder, s);
      case Folder =>
        r := AddFolderSnippet(fs, projectFolder, s, codecs);
    }
  }

  /** A name no configured folder provides is reported as not found. */
  lemma {:induction false} UnknownSnippetNotFound<D>(fs: FileSystem, folders: seq<string>, projectFolder: string, name: string, codecs: Codecs<D>)
    requires Snippets(fs, folders).Success?
    requires forall k | 0 <= k < |Candidates(fs, folders).value| :: Candidates(fs, folders).value[k].name != name
    ensures SnippetAdded(fs, folders, projectFolder, name, codecs) == Failure(SnippetNotFound(name))
  {
    DiscoveredNames(fs, folders);
    assert name !in NamesOf(Candidates(fs, folders).value);
  }
}

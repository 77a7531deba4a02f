/**
 * Templates (internal/pkg/devcontainers/template.go): the dev container
 * definitions found in the configured template folders. A template is a
 * sub-directory holding .devcontainer/devcontainer.json; the folders'
 * results are concatenated in folder order, without de-duplication or
 * sorting, and a lookup by name takes the first hit.
 */
module Templates {
  import opened Wrappers
  import opened Errors
  import opened GoStrings
  import opened Fs
  import FilePath

  /** DevcontainerTemplate; `path` includes the .devcontainer folder */
  datatype Template = Template(name: string, path: string)

  const DefinitionInTemplate := ".devcontainer/devcontainer.json"

  /** isDevcontainerFolder: a directory whose .devcontainer/devcontainer.json exists and is not a directory */
  predicate IsDevcontainerFolder(fs: FileSystem, parentPath: string, entry: Entry) {
    entry.isDir && Stat(fs, FilePath.Join([parentPath, entry.name, DefinitionInTemplate])) == RegularFile
  }

  function TemplateOf(folder: string, entry: Entry): Template {
    Template(entry.name, FilePath.Join([folder, entry.name, ".devcontainer"]))
  }

  /** The templates of a listing, in listing order */
  function TemplatesIn(fs: FileSystem, folder: string, entries: seq<Entry>): seq<Template> {
    if entries == [] then []
    else
      var entry := entries[|entries| - 1];
      TemplatesIn(fs, folder, entries[..|entries| - 1])
        + (if IsDevcontainerFolder(fs, folder, entry) then [TemplateOf(folder, entry)] else [])
  }

  /** What getTemplatesFromFolder returns */
  function FolderTemplates(fs: FileSystem, folder: string): Result<seq<Template>, Error> {
    match ReadDir(fs, folder)
    case Failure(_) => Failure(ReadTemplateFolderFailed(folder))
    case Success(entries) => Success(TemplatesIn(fs, folder, entries))
  }

  /** getTemplatesFromFolder */
  method GetTemplatesFromFolder(fs: FileSystem, folder: string) returns (r: Result<seq<Template>, Error>)
    ensures r == FolderTemplates(fs, folder)
  {
    var listing := ReadDir(fs, folder);
    if listing.Failure? {
      return Failure(ReadTemplateFolderFailed(folder));
    }
    var c := listing.value;
    var templates: seq<Template> := [];
    for i := 0 to |c|
      invariant templates == TemplatesIn(fs, folder, c[..i])
    {
      assert c[..i + 1][..i] == c[..i];
      var entry := c[i];
      if entry.isDir && Stat(fs, FilePath.Join([folder, entry.name, DefinitionInTemplate])) == RegularFile {
        templates := templates + [Template(entry.name, FilePath.Join([folder, entry.name, ".devcontainer"]))];
      }
    }
    assert c[..|c|] == c;
    return Success(templates);
  }

  /** What GetTemplates returns: the folders' templates concatenated; the first failing folder's error otherwise */
  function AllTemplates(fs: FileSystem, folders: seq<string>): Result<seq<Template>, Error> {
    if folders == [] then Success([])
    else
      var before :- AllTemplates(fs, folders[..|folders| - 1]);
      var found :- FolderTemplates(fs, folders[|folders| - 1]);
      Success(before + found)
  }

  /** GetTemplates */
  method GetTemplates(fs: FileSystem, folders: seq<string>) returns (r: Result<seq<Template>, Error>)
    ensures r == AllTemplates(fs, folders)
  {
    var templates: seq<Template> := [];
    for i := 0 to |folders|
      invariant AllTemplates(fs, folders[..i]) == Success(templates)
    {
      assert folders[..i + 1][..i] == folders[..i];
      var newTemplates := GetTemplatesFromFolder(fs, folders[i]);
      if newTemplates.Failure? {
        AllTemplatesFailurePersists(fs, folders, i + 1);
        return Failure(newTemplates.error);
      }
      templates := templates + newTemplates.value;
    }
    assert folders[..|folders|] == folders;
    return Success(templates);
  }

  /** Once a prefix of the folders fails, listing all of them fails the same way. */
  lemma {:induction false} AllTemplatesFailurePersists(fs: FileSystem, folders: seq<string>, i: nat)
    requires i <= |folders| && AllTemplates(fs, folders[..i]).Failure?
    ensures AllTemplates(fs, folders) == AllTemplates(fs, folders[..i])
    decreases |folders| - i
  {
    if i == |folders| {
      assert folders[..i] == folders;
    } else {
      assert folders[..i + 1][..i] == folders[..i];
      AllTemplatesFailurePersists(fs, folders, i + 1);
    }
  }

  /** Position `i` holds the earliest template called `name` */
  predicate FirstAt(ts: seq<Template>, name: string, i: nat) {
    i < |ts| && ts[i].name == name && forall k | 0 <= k < i :: ts[k].name != name
  }

  /** The lookup loop of GetTemplateByName, as a specification */
  function FirstTemplate(ts: seq<Template>, name: string): (r: Option<Template>)
    ensures r.None? <==> forall k | 0 <= k < |ts| :: ts[k].name != name
    ensures r.Some? ==> exists i | 0 <= i < |ts| :: ts[i] == r.value && FirstAt(ts, name, i)
  {
    if ts == [] then None
    else if ts[0].name == name then
      assert FirstAt(ts, name, 0);
      Some(ts[0])
    else
      var r := FirstTemplate(ts[1..], name);
      assert forall k | 1 <= k < |ts| :: ts[k] == ts[1..][k - 1];
      if r.Some? then
        var i :| 0 <= i < |ts[1..]| && ts[1..][i] == r.value && FirstAt(ts[1..], name, i);
        assert ts[i + 1] == r.value && FirstAt(ts, name, i + 1);
        r
      else r
  }

  /** GetTemplateByName: the first listed template with that name, None when there is none */
  method GetTemplateByName(fs: FileSystem, folders: seq<string>, name: string) returns (r: Result<Option<Template>, Error>)
    ensures AllTemplates(fs, folders).Failure? ==> r == Failure(AllTemplates(fs, folders).error)
    ensures AllTemplates(fs, folders).Success? ==> r == Success(FirstTemplate(AllTemplates(fs, folders).value, name))
  {
    var templates := GetTemplates(fs, folders);
    if templates.Failure? {
      return Failure(templates.error);
    }
    var list := templates.value;
    for i := 0 to |list|
      invariant FirstTemplate(list, name) == FirstTemplate(list[i..], name)
    {
      assert list[i..][1..] == list[i + 1..];
      if list[i].name == name {
        return Success(Some(list[i]));
      }
    }
    return Success(None);
  }

  // ---------------------------------------------------------------------
  // Properties
  // ---------------------------------------------------------------------

  /**
   * A listing yields template `t` exactly when one of its entries is a
   * directory holding .devcontainer/devcontainer.json as a file, `t` is
   * named after the entry, and its path is the entry's .devcontainer
   * folder; no other filter applies.
   */
  lemma {:induction false} TemplatesInMembers(fs: FileSystem, folder: string, entries: seq<Entry>, t: Template)
    ensures t in TemplatesIn(fs, folder, entries) <==>
            exists k | 0 <= k < |entries| ::
              && entries[k].isDir
              && Stat(fs, FilePath.Join([folder, entries[k].name, DefinitionInTemplate])) == RegularFile
              && t == Template(entries[k].name, FilePath.Join([folder, entries[k].name, ".devcontainer"]))
    decreases |entries|
  {
    if entries != [] {
      var n := |entries| - 1;
      var prefix := entries[..n];
      TemplatesInMembers(fs, folder, prefix, t);
      forall k | 0 <= k < n ensures entries[k] == prefix[k] { }
    }
  }

  /** Entry names starting with "." or "_" are not filtered: such a directory with a definition is a template. */
  lemma {:induction false} HiddenEntryIsTemplate(fs: FileSystem, folder: string, entries: seq<Entry>, k: nat)
    requires k < |entries| && IsDevcontainerFolder(fs, folder, entries[k])
    requires HasPrefix(entries[k].name, ".") || HasPrefix(entries[k].name, "_")
    ensures TemplateOf(folder, entries[k]) in TemplatesIn(fs, folder, entries)
  {
    TemplatesInMembers(fs, folder, entries, TemplateOf(folder, entries[k]));
  }

  /** Listing a + b is listing a, then b: the results are concatenated in folder order. */
  lemma {:induction false} AllTemplatesAppend(fs: FileSystem, a: seq<string>, b: seq<string>)
    ensures AllTemplates(fs, a + b)
            == match AllTemplates(fs, a)
               case Failure(e) => Failure(e)
               case Success(ta) =>
                 match AllTemplates(fs, b)
                 case Failure(e) => Failure(e)
                 case Success(tb) => Success(ta + tb)
    decreases |b|
  {
    if b == [] {
      assert a + b == a;
      if AllTemplates(fs, a).Success? {
        assert AllTemplates(fs, a).value + [] == AllTemplates(fs, a).value;
      }
    } else {
      var n := |b| - 1;
      assert (a + b)[..|a + b| - 1] == a + b[..n];
      assert (a + b)[|a + b| - 1] == b[n];
      AllTemplatesAppend(fs, a, b[..n]);
      assert AllTemplates(fs, a + b)
             == match AllTemplates(fs, a + b[..n])
                case Failure(e) => Failure(e)
                case Success(before) =>
                  match FolderTemplates(fs, b[n])
                  case Failure(e) => Failure(e)
                  case Success(found) => Success(before + found);
      if AllTemplates(fs, a).Success? && AllTemplates(fs, b[..n]).Success? && FolderTemplates(fs, b[n]).Success? {
        var ta := AllTemplates(fs, a).value;
        var tb := AllTemplates(fs, b[..n]).value;
        assert ta + tb + FolderTemplates(fs, b[n]).value == ta + (tb + FolderTemplates(fs, b[n]).value);
      }
    }
  }

  /** Listing fails exactly when some folder cannot be read, and then with the first such folder's error. */
  lemma {:induction false} AllTemplatesFailure(fs: FileSystem, folders: seq<string>)
    ensures AllTemplates(fs, folders).Failure? <==> exists i | 0 <= i < |folders| :: folders[i] !in fs.listings
    ensures AllTemplates(fs, folders).Failure? ==>
            exists i | 0 <= i < |folders| :: folders[i] !in fs.listings
              && AllTemplates(fs, folders).error == ReadTemplateFolderFailed(folders[i])
              && forall k | 0 <= k < i :: folders[k] in fs.listings
    decreases |folders|
  {
    if folders != [] {
      var n := |folders| - 1;
      var init := folders[..n];
      AllTemplatesFailure(fs, init);
      forall k | 0 <= k < n ensures init[k] == folders[k] { }
    }
  }

  /** The first hit in a concatenation is the first hit in its first part, if there is one. */
  lemma {:induction false} FirstTemplateAppend(a: seq<Template>, b: seq<Template>, name: string)
    ensures FirstTemplate(a + b, name)
            == if FirstTemplate(a, name).Some? then FirstTemplate(a, name) else FirstTemplate(b, name)
    decreases |a|
  {
    if a == [] {
      assert a + b == b;
    } else {
      assert (a + b)[0] == a[0] && (a + b)[1..] == a[1..] + b;
      FirstTemplateAppend(a[1..], b, name);
    }
  }

  /**
   * Looking a name up over folders a + b finds the template of the
   * earlier folders when they have one: the earliest folder wins.
   */
  lemma {:induction false} EarlierFolderWins(fs: FileSystem, a: seq<string>, b: seq<string>, name: string)
    requires AllTemplates(fs, a + b).Success?
    ensures AllTemplates(fs, a).Success? && AllTemplates(fs, b).Success?
    ensures FirstTemplate(AllTemplates(fs, a + b).value, name)
            == if FirstTemplate(AllTemplates(fs, a).value, name).Some?
               then FirstTemplate(AllTemplates(fs, a).value, name)
               else FirstTemplate(AllTemplates(fs, b).value, name)
  {
    AllTemplatesAppend(fs, a, b);
    FirstTemplateAppend(AllTemplates(fs, a).value, AllTemplates(fs, b).value, name);
  }

  /** Two folders with a template of the same name both contribute it: nothing is de-duplicated. */
  lemma {:induction false} DuplicatesKept(fs: FileSystem, folder1: string, folder2: string)
    requires fs.listings == map[folder1 := [Entry("go", true)], folder2 := [Entry("go", true)]]
    requires IsDevcontainerFolder(fs, folder1, Entry("go", true)) && IsDevcontainerFolder(fs, folder2, Entry("go", true))
    ensures AllTemplates(fs, [folder1, folder2])
            == Success([TemplateOf(folder1, Entry("go", true)), TemplateOf(folder2, Entry("go", true))])
  {
    var e := Entry("go", true);
    assert [e][..0] == [];
    assert TemplatesIn(fs, folder1, [e]) == [TemplateOf(folder1, e)];
    assert TemplatesIn(fs, folder2, [e]) == [TemplateOf(folder2, e)];
    var folders := [folder1, folder2];
    assert folders[..1] == [folder1] && [folder1][..0] == [];
    assert FolderTemplates(fs, folder1) == Success([TemplateOf(folder1, e)]);
    assert FolderTemplates(fs, folder2) == Success([TemplateOf(folder2, e)]);
    assert AllTemplates(fs, [folder1]) == Success([TemplateOf(folder1, e)]);
    assert folders[|folders| - 1] == folder2 && folders[..|folders| - 1] == [folder1];
    assert AllTemplates(fs, folders[..|folders| - 1]) == Success([TemplateOf(folder1, e)]);
    assert [TemplateOf(folder1, e)] + [TemplateOf(folder2, e)] == [TemplateOf(folder1, e), TemplateOf(folder2, e)];
  }
}

/**
 * Locating a project's dev container definition
 * (internal/pkg/devcontainers/devcontainer.go): the first candidate file
 * that exists and is not a directory, in a fixed priority order.
 */
module Definitions {
  import opened Wrappers
  import opened Errors
  import opened Fs
  import GoStrings
  import FilePath

  /** The candidates, highest priority first */
  const PathsToTest: seq<string> := [".devcontainer/devcontainer.json", ".devcontainer.json"]

  /** `folderPath` joined with candidates[i] is a file */
  predicate IsDefinitionFile(fs: FileSystem, folderPath: string, candidate: string) {
    Stat(fs, FilePath.Join([folderPath, candidate])) == RegularFile
  }

  /** The loop of getDevContainerJsonPath: the first candidate that names a file */
  function FirstDefinition(fs: FileSystem, folderPath: string, candidates: seq<string>): (r: Option<string>)
    ensures r.None? <==> forall k | 0 <= k < |candidates| :: !IsDefinitionFile(fs, folderPath, candidates[k])
  {
    if candidates == [] then None
    else if IsDefinitionFile(fs, folderPath, candidates[0]) then Some(FilePath.Join([folderPath, candidates[0]]))
    else
      assert forall k | 1 <= k < |candidates| :: candidates[k] == candidates[1..][k - 1];
      FirstDefinition(fs, folderPath, candidates[1..])
  }

  /** `candidates[i]` is the first candidate that names a file */
  predicate IsFirstDefinition(fs: FileSystem, folderPath: string, candidates: seq<string>, i: nat) {
    && i < |candidates|
    && IsDefinitionFile(fs, folderPath, candidates[i])
    && forall k | 0 <= k < i :: !IsDefinitionFile(fs, folderPath, candidates[k])
  }

  /** What the loop finds is the path of the first candidate that names a file. */
  lemma {:induction false} FirstDefinitionIsFirst(fs: FileSystem, folderPath: string, candidates: seq<string>)
    requires FirstDefinition(fs, folderPath, candidates).Some?
    ensures exists i: nat :: IsFirstDefinition(fs, folderPath, candidates, i)
              && FirstDefinition(fs, folderPath, candidates).value == FilePath.Join([folderPath, candidates[i]])
  {
    if IsDefinitionFile(fs, folderPath, candidates[0]) {
      assert IsFirstDefinition(fs, folderPath, candidates, 0);
    } else {
      var tail := candidates[1..];
      FirstDefinitionIsFirst(fs, folderPath, tail);
      var i: nat :| IsFirstDefinition(fs, folderPath, tail, i)
                    && FirstDefinition(fs, folderPath, tail).value == FilePath.Join([folderPath, tail[i]]);
      assert candidates[i + 1] == tail[i];
      forall k | 1 <= k < i + 1 ensures !IsDefinitionFile(fs, folderPath, candidates[k]) {
        assert candidates[k] == tail[k - 1];
      }
      assert IsFirstDefinition(fs, folderPath, candidates, i + 1);
    }
  }

  function NotFoundMessage(): string {
    "devcontainer.json not found. Looked for " + GoStrings.Join(PathsToTest, ',')
  }

  /** getDevContainerJsonPath */
  function DevContainerJsonPath(fs: FileSystem, folderPath: string): Result<string, Error> {
    match FirstDefinition(fs, folderPath, PathsToTest)
    case Some(path) => Success(path)
    case None => Failure(DefinitionNotFound(NotFoundMessage()))
  }

  /**
   * .devcontainer/devcontainer.json wins when it is a file; otherwise
   * .devcontainer.json when that is a file; otherwise the error naming
   * both. A candidate that is a directory counts as absent.
   */
  lemma {:induction false} DefinitionPriority(fs: FileSystem, folderPath: string)
    ensures var inFolder := FilePath.Join([folderPath, ".devcontainer/devcontainer.json"]);
            var atRoot := FilePath.Join([folderPath, ".devcontainer.json"]);
            DevContainerJsonPath(fs, folderPath)
            == if Stat(fs, inFolder) == RegularFile then Success(inFolder)
               else if Stat(fs, atRoot) == RegularFile then Success(atRoot)
               else Failure(DefinitionNotFound(NotFoundMessage()))
  {
    var ps := PathsToTest;
    assert ps[1..] == [".devcontainer.json"] && ps[1..][1..] == [];
    assert FirstDefinition(fs, folderPath, ps[1..][1..]) == None;
    assert FirstDefinition(fs, folderPath, ps[1..])
           == if IsDefinitionFile(fs, folderPath, ps[1]) then Some(FilePath.Join([folderPath, ps[1]])) else None;
  }

  /** The error text lists both candidates separated by a comma. */
  lemma {:induction false} NotFoundMessageText()
    ensures NotFoundMessage()
            == "devcontainer.json not found. Looked for " + ".devcontainer/devcontainer.json" + "," + ".devcontainer.json"
  {
    var ps := PathsToTest;
    assert ps[1..] == [".devcontainer.json"];
    assert GoStrings.Join(ps, ',') == ps[0] + [','] + ps[1];
  }

  /** Whatever is found is a file, never a directory. */
  lemma {:induction false} FoundIsFile(fs: FileSystem, folderPath: string)
    requires DevContainerJsonPath(fs, folderPath).Success?
    ensures Stat(fs, DevContainerJsonPath(fs, folderPath).value) == RegularFile
  {
    DefinitionPriority(fs, folderPath);
  }
}

/** The errors the modelled functions return, one constructor per distinct failure. */
module Errors {

  datatype Error =
    /** errors.StatusError raised by GetSnippets when no snippet folder is configured */
    | NoSnippetFolders
    /** "Error reading snippet definitions: ..." (ReadDir failed) */
    | ReadSnippetFolderFailed(folder: string)
    /** "Error reading devcontainer definitions: ..." (ReadDir failed) */
    | ReadTemplateFolderFailed(folder: string)
    /** an os error: the path does not exist */
    | NotExist(path: string)
    /** an os error: a file was expected but the path is a directory */
    | IsADirectory(path: string)
    /** an os error: a file created exclusively (O_EXCL) already exists */
    | AlreadyExists(path: string)
    /** an os error: a directory was expected but the path is a file */
    | NotADirectory(path: string)
    /** "Error reading Dockerfile: ..." */
    | ReadDockerfileFailed(path: string)
    /** "Snippet '<name>' not found" */
    | SnippetNotFound(name: string)
    /** "Expected single file snippet" / "Expected folder snippet" */
    | WrongSnippetType(message: string)
    /** "unhandled action type: <type>" */
    | UnhandledActionType(actionType: string)
    /** an error reported by a JSON codec (encoding/json or the dora library) */
    | JsonError(message: string)
    /** "Could not find running container for path <path>" */
    | NoRunningContainer(path: string)
    /** a Go runtime panic: slice index out of range */
    | IndexOutOfRange(index: nat, length: nat)
    /** "devcontainer.json not found. Looked for <candidates>" */
    | DefinitionNotFound(message: string)
    /** "Error loading devcontainer definition: ..." */
    | LoadDefinitionFailed(path: string)
}

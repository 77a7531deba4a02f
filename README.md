# devcontainer-cli core, modelled in Dafny

This project models the rules devcontainer-cli uses to find, compose and
locate dev container definitions, and proves what those rules promise:

- **Snippets** (`snippet.dfy`, module `Snippets`). Each configured snippet
  folder is listed, and each entry is classified:
  - names starting with `.` or `_` are ignored;
  - a `*.sh` file is a single-file snippet;
  - a directory holding a `snippet.json` file is a folder snippet.

  The snippets of all folders are de-duplicated by name, keeping the
  earliest folder's, and then sorted by name. Adding a single-file snippet
  copies the script and splices `COPY`/`RUN` lines into the Dockerfile.
  Adding a folder snippet runs the actions listed in its `snippet.json`.
- **Templates** (`template.dfy`, module `Templates`). A directory holding
  `.devcontainer/devcontainer.json` is a template. Templates are
  concatenated in folder order, and lookup by name returns the first hit.
- **Running containers** (`dockerutils.dfy`, module `Docker`):
  - parsing the `|`-separated `docker ps` listing;
  - choosing the container whose local folder is the longest prefix of a path;
  - the `PATH` handed to the container;
  - the argument vector of `docker exec`.
- **Remote URI** (`remoteuri.dfy`, module `RemoteUri`). This covers:
  - lowercase hex encoding of the folder path;
  - the `"workspaceFolder"` extractor, which models the regular expression
    `(?m)^\s*"workspaceFolder"\s*:\s*"(.*)"` as a leftmost match;
  - the `/workspaces/<folder>` fallback;
  - URI assembly.
- **Definition file** (`devcontainer.dfy`, module `Definitions`). The
  definition is the first of `.devcontainer/devcontainer.json` and
  `.devcontainer.json` that is a file.
- **Status line** (`terminal.dfy`, module `Terminal`). `UpdatingStatusWriter`
  right-pads each message to the previous message's length, so the new
  message blanks the old one.

Supporting modules:
- `GoStrings`: `strings.Split`, `Join`, `TrimSpace`, `HasPrefix`, byte-wise
  string order and UTF-8 encoding.
- `FilePath`: `filepath.Join`, `Clean`, `Abs` and `Split` for `/`-separated
  paths.
- `Fs`: the file system as a value holding directory listings, file
  contents and directories.
- `Errors` and `Wrappers`: the error and result types.

The file system, the `docker` outputs, the working directory and the JSON
codecs are parameters of the model.

The loops in `snippet.go`, `template.go` and `dockerutils.go` are methods
with loop invariants. Each is proved equal to a specification function, and
the lemmas state their properties. `remoteuri.go` and `devcontainer.go` are
pure, so they are modelled as functions. `UpdatingStatusWriter` is a class
whose `Printf` updates its one field.

## Model

| member | source | states |
|---|---|---|
| Snippets.GetSnippetsFromFolder | internal/pkg/devcontainers/snippet.go:107-145 | The listing loop returns the snippets of the entries in listing order, or the read error when the folder cannot be listed. |
| Snippets.EntryYields | internal/pkg/devcontainers/snippet.go:115-142 | An entry yields a snippet iff one of two cases holds. Case 1: the entry is not ignored, is a directory, and its `snippet.json` is a regular file; the snippet is a Folder snippet named after the entry with path folder/entry. Case 2: the entry is not ignored, is a file, and its name ends in `.sh`; the snippet is a SingleFile snippet named after the entry without `.sh`, with path folder/entry. |
| Snippets.SnippetsInMembers | internal/pkg/devcontainers/snippet.go:114-144 | A snippet is in a folder's result iff some entry of the listing yields it. |
| Snippets.YieldedNameNotIgnored | internal/pkg/devcontainers/snippet.go:116-119 | No snippet has a name starting with `.` or `_`. |
| Snippets.InsertByName | internal/pkg/devcontainers/snippet.go:103 | Inserting one snippet into the sorted list is a permutation: the result has the old elements plus the new one. |
| Snippets.SortByName | internal/pkg/devcontainers/snippet.go:103 | The sort is a permutation of its input. |
| Snippets.InsertByNameSorted | internal/pkg/devcontainers/snippet.go:103 | Insertion keeps a list sorted by name. |
| Snippets.InsertByNameDistinct | internal/pkg/devcontainers/snippet.go:103 | Insertion of a new name keeps names pairwise distinct. |
| Snippets.SortByNameSorted | internal/pkg/devcontainers/snippet.go:103 | The sorted list is ordered by name (byte-wise string order). |
| Snippets.SortByNameDistinct | internal/pkg/devcontainers/snippet.go:103 | Sorting keeps distinct names distinct. |
| Snippets.GetSnippetsFromFolders | internal/pkg/devcontainers/snippet.go:87-105 | The loop over folders returns the sorted, de-duplicated snippets of all folders. If a folder cannot be read, it returns the first such folder's error. |
| Snippets.AppendNewSnippets | internal/pkg/devcontainers/snippet.go:96-101 | The inner loop appends exactly the snippets whose name is not yet kept. The `snippetNames` map records exactly the kept names. |
| Snippets.GetSnippets | internal/pkg/devcontainers/snippet.go:73-85 | No configured folder is the "no snippet folders" error. Otherwise the result is the discovered snippets. |
| Snippets.GetSnippetByName | internal/pkg/devcontainers/snippet.go:58-70 | Listing errors propagate. Otherwise the result is the first snippet with that name, or none with no error. |
| Snippets.FirstByName | internal/pkg/devcontainers/snippet.go:64-69 | The lookup is None iff no snippet has the name. Otherwise it is the element at the first index holding that name. |
| Snippets.DedupNames | internal/pkg/devcontainers/snippet.go:96-101 | De-duplication loses no name. |
| Snippets.DedupDistinct | internal/pkg/devcontainers/snippet.go:96-101 | After de-duplication, names are pairwise distinct. |
| Snippets.DedupElement | internal/pkg/devcontainers/snippet.go:96-101 | De-duplication keeps only snippets that were found. |
| Snippets.DedupFirst | internal/pkg/devcontainers/snippet.go:96-101 | Every kept snippet is the first one of its name in folder order: the earliest folder wins. |
| Snippets.CandidatesMembers | internal/pkg/devcontainers/snippet.go:90-95 | Before de-duplication, a snippet is found iff some configured folder yields it. |
| Snippets.CandidatesFailure | internal/pkg/devcontainers/snippet.go:90-95 | Discovery fails iff some folder cannot be listed. The error names the first such folder. |
| Snippets.DiscoveredStrictlySorted | internal/pkg/devcontainers/snippet.go:103 | The discovered list is strictly ascending by name, so it is sorted and its names are distinct. |
| Snippets.DiscoveredFirstOfName | internal/pkg/devcontainers/snippet.go:89-101 | Each discovered snippet is the first of its name across the folders in order. |
| Snippets.DiscoveredNames | internal/pkg/devcontainers/snippet.go:89-103 | The discovered names are exactly the names found in the folders. |
| Snippets.DiscoveredNamesNotIgnored | internal/pkg/devcontainers/snippet.go:116-119 | No discovered snippet has a name starting with `.` or `_`. |
| Snippets.CandidateNameNotIgnored | internal/pkg/devcontainers/snippet.go:116-119 | No member of the discovered list has an ignored name. |
| Snippets.OneScriptFolder | internal/pkg/devcontainers/snippet_test.go:12-39 | This is a one-script reduction of the listing test, used by the two-folder test. A folder holding only `test1.sh` yields one SingleFile snippet `test1` whose path is the folder joined with `test1.sh`. |
| Snippets.TwoScriptsListed | internal/pkg/devcontainers/snippet_test.go:12-39 | The listing test in full: a folder holding `test1.sh` and `test2.sh` lists SingleFile snippets `test1` and `test2`, with paths the folder joined with each file, in name order. |
| Snippets.FirstFolderWins | internal/pkg/devcontainers/snippet_test.go:66-92 | With `test1.sh` in two folders, the only snippet comes from the first folder. |
| Snippets.BlockIsLines | internal/pkg/devcontainers/snippet.go:189-193 | The block is a blank line, `# name`, `COPY scripts/file /tmp/` and `RUN /tmp/file`, each ending in a newline. |
| Snippets.SpliceDockerfile | internal/pkg/devcontainers/snippet.go:195-227 | The buffer-building loop, with its separator and added-content flags, produces the spliced text. |
| Snippets.MarkerLineIffMarker | internal/pkg/devcontainers/snippet.go:196-211 | Some line holds the marker iff the text holds it, because the marker has no newline. |
| Snippets.SplicedWithoutMarker | internal/pkg/devcontainers/snippet.go:223-227 | Without the marker, the new Dockerfile is the original text, unchanged, followed by the block. This matches snippet_test.go:94-135. |
| Snippets.MarkerLineFollowedByBlock | internal/pkg/devcontainers/snippet.go:211-220 | Each marker line is kept and directly followed by the block's lines, after every marker line and not only the first. This matches snippet_test.go:137-185. |
| Snippets.PlainLineKept | internal/pkg/devcontainers/snippet.go:200-210 | Every other line is kept in order, with nothing added after it. |
| Snippets.ExpandAppend | internal/pkg/devcontainers/snippet.go:200-221 | Lines are expanded one by one, independently: expanding a concatenation concatenates the expansions. |
| Snippets.SplicedLines | internal/pkg/devcontainers/snippet.go:196-221 | With a marker, splitting the new text at newlines gives exactly the expanded lines. A marker on the last line adds an empty final line. |
| Snippets.MergeJsonEffect | internal/pkg/devcontainers/snippet.go:265-292 | A merge succeeds only if both documents are files that parse and merge. It then overwrites the project's document with the written merge result and changes no other file. |
| Snippets.RunActions | internal/pkg/devcontainers/snippet.go:250-262 | The action loop runs the actions in order and stops at the first failure. |
| Snippets.ApplyActionsAppend | internal/pkg/devcontainers/snippet.go:250-260 | Running `a + b` runs `a`, then runs `b` on its result, unless `a` failed. |
| Snippets.OnlyMergeActionsSucceed | internal/pkg/devcontainers/snippet.go:251-259 | A successful run holds only `mergeJSON` actions. A `copyAndRun` action never succeeds. |
| Snippets.FirstUnhandledActionAborts | internal/pkg/devcontainers/snippet.go:257-258 | The first action that is not `mergeJSON`, reached after successful merges, makes the run fail with "unhandled action type" for that type. Later actions do not run. |
| Fs.CopyFile | internal/pkg/ioutil/files.go:53-67 | A copy succeeds exactly when the source is a regular file and nothing exists at the target. A missing source is "does not exist", an existing target is "already exists" and is left as it was, and on success the target holds the source's content. |
| Snippets.AddSingleFileSnippet | internal/pkg/devcontainers/snippet.go:168-232 | It follows addSingleFileSnippetToDevContainer: type check, make the scripts folder, copy the script, read the Dockerfile, splice it, write it back. |
| Snippets.SingleFileSnippetEffect | internal/pkg/devcontainers/snippet.go:174-229 | After a success, the script is under `.devcontainer/scripts` with its own file name, where nothing existed before. The Dockerfile holds the spliced text of its old content. |
| Snippets.ExistingScriptRejected | internal/pkg/devcontainers/snippet.go:174-181 | If a file or folder already sits at the script's target, adding a single-file snippet fails and the Dockerfile is never read or written. If the scripts folder can be made and the script exists, the error is the copy's "already exists". |
| Snippets.AddFolderSnippet | internal/pkg/devcontainers/snippet.go:234-263 | It follows addFolderSnippetToDevContainer: type check, read and decode `snippet.json`, run its actions. |
| Snippets.FolderSnippetOutcome | internal/pkg/devcontainers/snippet.go:234-263 | A snippet of the other kind is refused with "Expected folder snippet". A missing `snippet.json` fails with the read error. The run succeeds exactly when `snippet.json` is read and decoded and every listed action runs, and then it ends in the state those actions leave. |
| Snippets.AddSnippetToDevcontainer | internal/pkg/devcontainers/snippet.go:147-166 | It follows AddSnippetToDevcontainer: look the snippet up, report an unknown name as not found, dispatch on the snippet's type. A single-file snippet whose script target already exists is refused (Snippets.ExistingScriptRejected). |
| Snippets.UnknownSnippetNotFound | internal/pkg/devcontainers/snippet.go:152-154 | A name that no folder provides gives the "Snippet not found" error. |
| Templates.GetTemplatesFromFolder | internal/pkg/devcontainers/template.go:48-74 | The listing loop returns the templates of the entries in listing order, or the read error. |
| Templates.TemplatesInMembers | internal/pkg/devcontainers/template.go:49-71 | A template is found iff some entry is a directory whose `.devcontainer/devcontainer.json` is a file. Its name is then the entry's name and its path is `folder/entry/.devcontainer`. |
| Templates.HiddenEntryIsTemplate | internal/pkg/devcontainers/template.go:64-71 | Entries starting with `.` or `_` are not filtered out. |
| Templates.GetTemplates | internal/pkg/devcontainers/template.go:34-46 | The loop over folders returns the per-folder results, concatenated. |
| Templates.AllTemplatesAppend | internal/pkg/devcontainers/template.go:37-44 | The templates of `a + b` are those of `a` followed by those of `b`, in folder order, with no de-duplication and no sort. A failure in `a` comes first. |
| Templates.AllTemplatesFailure | internal/pkg/devcontainers/template.go:39-42 | Listing fails iff some folder cannot be read. The error names the first such folder. |
| Templates.DuplicatesKept | internal/pkg/devcontainers/template.go:35-45 | A template `go` present in two folders appears twice, first folder first. |
| Templates.FirstTemplate | internal/pkg/devcontainers/template.go:25-30 | The lookup is None iff no template has the name. Otherwise it is the first one with the name. |
| Templates.GetTemplateByName | internal/pkg/devcontainers/template.go:19-31 | Listing errors propagate. Otherwise the result is the first template with the name, or none with no error. |
| Templates.FirstTemplateAppend | internal/pkg/devcontainers/template.go:25-30 | A lookup over a concatenation finds the first part's match before the second's. |
| Templates.EarlierFolderWins | internal/pkg/devcontainers/template.go:25-44 | A template in an earlier folder shadows the same name in a later folder. |
| Terminal.PadRight | internal/pkg/terminal/terminal.go:17 | The `%-*s` padding keeps the message as a prefix, fills with spaces up to the width, and never cuts a longer message. |
| Terminal.UpdatingStatusWriter.Printf | internal/pkg/terminal/terminal.go:13-20 | It writes a carriage return and the message padded to the previous length. The field then holds the new message's length in bytes, and nothing else changes. |
| Terminal.UpdatingStatusWriter.constructor | internal/pkg/terminal/terminal.go:9-11 | A fresh writer starts with length 0. |
| Terminal.StatusLineBlanks | internal/pkg/terminal/terminal.go:17 | Every output starts with `\r` and the message. It covers at least the previous length, with spaces after the message. A message at least that long is written without padding. |
| Terminal.PaddingCoversPreviousMessage | internal/pkg/terminal/terminal.go:17-19 | Padding to the previous message's byte length covers all of its characters. |
| Terminal.SuccessiveMessages | internal/pkg/terminal/terminal.go:9-20 | On a fresh writer, the first output is exactly `\r` and the message. The second output blanks the whole first message. |
| Definitions.FirstDefinition | internal/pkg/devcontainers/devcontainer.go:13-19 | The candidate search finds nothing iff no candidate is a file. |
| Definitions.FirstDefinitionIsFirst | internal/pkg/devcontainers/devcontainer.go:13-18 | What the search finds is the folder joined with the first candidate that is a file. Earlier candidates, including directories, are skipped. |
| Definitions.DefinitionPriority | internal/pkg/devcontainers/devcontainer.go:10-22 | `.devcontainer/devcontainer.json` wins over `.devcontainer.json`. If neither is a file, the result is the not-found error. |
| Definitions.NotFoundMessageText | internal/pkg/devcontainers/devcontainer.go:21 | The error names both candidates, joined by `,`. |
| Definitions.FoundIsFile | internal/pkg/devcontainers/devcontainer.go:16-17 | A returned path is a regular file, never a directory. |
| Docker.ScanLinesJoin | internal/pkg/devcontainers/dockerutils.go:53-60 | Without carriage returns, the scanned lines joined by newlines give back the output, plus one final newline if the output ended with one. |
| Docker.TokensJoin | internal/pkg/devcontainers/dockerutils.go:59-60 | The scanner's tokens are the newline-separated pieces without a final empty one. |
| Docker.LastSegment | internal/pkg/devcontainers/dockerutils.go:78-81 | The dev container name is a suffix of the folder with no `/` or `\`. It is preceded by a separator whenever it is shorter than the folder. |
| Docker.ParseLineOutcome | internal/pkg/devcontainers/dockerutils.go:61-66 | A line is skipped iff its local-folder field is empty. It fails (a slice panic in the source) iff the local-folder field is missing, or the field is non-empty and the container-name field is missing. |
| Docker.ParsedLineFields | internal/pkg/devcontainers/dockerutils.go:73-88 | A parsed container has its id from field 0, its name from field 5 and its local folder from field 1. Its dev container name is the folder's last segment, so the compose-name branch cannot be taken. |
| Docker.ParseListingLine | internal/pkg/devcontainers/dockerutils.go:60-89 | The loop body for one line computes that line's outcome. |
| Docker.ListDevcontainers | internal/pkg/devcontainers/dockerutils.go:53-91 | The scan loop returns the containers of the parsed lines in order, or the error of the first line that fails. |
| Docker.ParseLinesFailure | internal/pkg/devcontainers/dockerutils.go:59-90 | The listing fails iff some line fails. The error is that of the first failing line. |
| Docker.ParseLinesMembers | internal/pkg/devcontainers/dockerutils.go:59-90 | A container is listed iff some line parses to it. |
| Docker.ParseLinesAppend | internal/pkg/devcontainers/dockerutils.go:59-90 | The listing of two concatenated outputs is the concatenation of their listings. |
| Docker.ListedContainersHaveFolders | internal/pkg/devcontainers/dockerutils.go:62-88 | Every listed container has a non-empty local folder, and its name is that folder's last segment. |
| Docker.MatchingMembers | internal/pkg/devcontainers/dockerutils.go:204-217 | A container matches iff its local folder is a string prefix of the query path. |
| Docker.LongestLocalFolder | internal/pkg/devcontainers/dockerutils.go:222-224 | The last element after sorting by folder length is a matching entry with the longest local folder. |
| Docker.GetClosestPathMatchForPath | internal/pkg/devcontainers/dockerutils.go:194-225 | The call succeeds iff some container's folder is a prefix of the absolute query path. The result is then such a container with the longest folder. Otherwise the error names the path, with `""` read as `.`. |
| Docker.ProjectFolderMatchesBelow | internal/pkg/devcontainers/dockerutils.go:195-198 | The query path is made absolute and cleaned. A clean folder, the folder with a trailing slash, and any folder below it all match that folder. |
| Docker.ExampleIsClosest | internal/pkg/devcontainers/dockerutils_test.go:9-49 | For the three test containers, any query path below `/path/to/project` selects `/path/to/project`. |
| Docker.ExampleQueries | internal/pkg/devcontainers/dockerutils_test.go:9-49 | The three test queries resolve to `/path/to/project` or below it: the folder itself, the folder with a trailing slash, and `with/child`. |
| Docker.ExecArgsLayout | internal/pkg/devcontainers/dockerutils.go:313-327 | The vector is `exec -it --workdir <dir>`, then two words per non-empty option, then the container id and the user arguments in order. |
| Docker.DockerArgs | internal/pkg/devcontainers/dockerutils.go:313-327 | The successive appends build exactly that vector. |
| Docker.ExecArgsUserFirst | internal/pkg/devcontainers/dockerutils.go:313-316 | `--user` comes first when set. With no option set, the vector is just `exec -it --workdir <dir> <id>` and the user arguments. |
| Docker.ExecArgsPath | internal/pkg/devcontainers/dockerutils.go:317-322 | A non-empty PATH is passed as `--env PATH=<value>`, after the user and SSH_AUTH_SOCK options. |
| Docker.ExecOptions | internal/pkg/devcontainers/dockerutils.go:314-325 | Each of the four options adds two words iff its value is non-empty. |
| Docker.ContainerPathAsWritten | internal/pkg/devcontainers/dockerutils.go:253-273 | The PATH as written: the server's `bin` folder then the trimmed lookup when both lookups succeed; the untrimmed lookup when only the server lookup fails; `""` when the PATH lookup fails. |
| Docker.UntrimmedPathKeepsNewline | internal/pkg/devcontainers/dockerutils.go:253-273 | As written, when the server lookup fails the `echo $PATH` output, returned untrimmed by `getContainerEnvVar` (line 399), keeps its trailing newline into `PATH=`. |
| Docker.ContainerPath | internal/pkg/devcontainers/dockerutils.go:253-273 | The corrected PATH is `""` when the PATH lookup fails, and starts with `<server>/bin:` when both lookups succeed. |
| Docker.ContainerPathTrimmed | internal/pkg/devcontainers/dockerutils.go:261-262 | The corrected PATH ends with the trimmed lookup output, so never with white space. |
| Docker.ContainerPathCorrection | internal/pkg/devcontainers/dockerutils.go:253-273 | The correction differs from the code as written only by trimming, and only when the server lookup fails. |
| RemoteUri.HexEncode | internal/pkg/devcontainers/remoteuri.go:41-43 | The encoding produces two lowercase hex digits per byte. |
| RemoteUri.HexEncodeDigits | internal/pkg/devcontainers/remoteuri.go:41-43 | Each byte is encoded high nibble first, then low nibble. |
| RemoteUri.HexRoundTrip | internal/pkg/devcontainers/remoteuri.go:41-43 | Decoding the encoding gives back the bytes. |
| RemoteUri.HexEncodeInjective | internal/pkg/devcontainers/remoteuri.go:41-43 | Distinct byte strings have distinct encodings. |
| RemoteUri.ConvertToHexString | internal/pkg/devcontainers/remoteuri.go:41-43 | The result has two to eight digits per character and decodes to the string's UTF-8 bytes. |
| RemoteUri.ConvertToHexStringInjective | internal/pkg/devcontainers/remoteuri.go:41-43 | Equal hex strings come from strings with equal bytes. |
| RemoteUri.ConvertAsciiString | internal/pkg/devcontainers/remoteuri_test.go:9-14 | An ASCII string gets exactly two digits per character: its code, high nibble first. |
| RemoteUri.SkipSpace | internal/pkg/devcontainers/remoteuri.go:85 | A greedy `\s*` stops at the first character that is not RE2 white space. |
| RemoteUri.Capture | internal/pkg/devcontainers/remoteuri.go:85 | `(.*)"` captures up to the last quote of the line. It fails iff the rest of the line has no quote, and the capture never holds a newline. |
| RemoteUri.FirstFromNone | internal/pkg/devcontainers/remoteuri.go:89-93 | The leftmost search finds nothing iff every attempt fails. |
| RemoteUri.FirstFromFirst | internal/pkg/devcontainers/remoteuri.go:89 | What the search finds is the first successful attempt. |
| RemoteUri.WorkspaceFolderFromDefinition | internal/pkg/devcontainers/remoteuri.go:84-94 | The extracted folder never holds a newline. |
| RemoteUri.MatchShape | internal/pkg/devcontainers/remoteuri.go:85 | A match is the key after leading white space at a line start, then the value, which is closed by a quote with no later quote on its line. |
| RemoteUri.NoKeyNoValue | internal/pkg/devcontainers/remoteuri.go:90-93 | A definition without the key gives `""` with no error. This matches remoteuri_test.go:40-50. |
| RemoteUri.KeyNotLeadingNoValue | internal/pkg/devcontainers/remoteuri.go:85-93 | If no line starts with white space followed by the key, the result is `""`. |
| RemoteUri.CommentedLineDoesNotMatch | internal/pkg/devcontainers/remoteuri_test.go:28-39 | A line whose first non-space character is `/`, as in `//"workspaceFolder"`, never matches. |
| RemoteUri.KeyLineValue | internal/pkg/devcontainers/remoteuri.go:85-92 | The first line whose leading white space leads to the key, followed by `\s*:\s*"` and a value closed by a quote on the value's line, gives the result: the value up to the line's last quote. Earlier lines may hold the key anywhere except right after their leading white space, or hold it there without a quoted value after it. remoteuri_test.go:16-27 is one instance. |
| RemoteUri.UnquotedThenLiveKey | internal/pkg/devcontainers/remoteuri.go:85-92 | A key line with a non-string value (`"workspaceFolder": 5`) does not match, so the leftmost search moves on and the next line's `"workspaceFolder":"<value>"` gives `<value>`. |
| RemoteUri.CommentedThenLiveKey | internal/pkg/devcontainers/remoteuri.go:85-92 | A commented `//"workspaceFolder": "…"` line above a live `"workspaceFolder":"<value>"` line gives the live value, whatever the commented line holds. |
| RemoteUri.DefaultMountPath | internal/pkg/devcontainers/remoteuri.go:74-76 | The fallback is `/workspaces/` followed by a name without `/`. |
| RemoteUri.MountPathChoice | internal/pkg/devcontainers/remoteuri.go:60-76 | The mount path fails iff the definition cannot be read. Otherwise it is the extracted folder when that is non-empty, and the fallback when it is empty (including an explicit `""`). |
| RemoteUri.DefaultMountPathOfFolder | internal/pkg/devcontainers/remoteuri.go:75-76 | For a clean absolute folder, the fallback is `/workspaces/` and the folder's last element. |
| RemoteUri.DevContainerUriParts | internal/pkg/devcontainers/remoteuri.go:15-39 | The URI fails iff the mount path does. Otherwise it is `vscode-remote://dev-container+`, then the hex of the absolute path (which decodes back to the path's bytes), then the mount path. |

## Left out

- JSON: `encoding/json` decoding of `snippet.json` and the dora library's parse, merge and write are function parameters (`Codecs`). Their behaviour is not modelled.
- Snippets.MergeJsonEffect: the errors of `WriteJSONString` and `WriteFile`, which the source ignores, are not modelled. Writing always succeeds.
- File modes, permissions and I/O errors other than a missing path, an existing target or a path of the wrong kind are not modelled. Neither are the side effects of an operation that fails part-way: copying from a directory leaves an empty target file behind.
- Strings are sequences of Unicode scalar values. Go strings that hold bytes which are not valid UTF-8 are not modelled. This affects the byte-wise hex encoding of the remote URI (internal/pkg/devcontainers/remoteuri.go:41-43) and the byte length used for the status line (internal/pkg/terminal/terminal.go:19).
- `os.ExpandEnv` on folder names is not modelled. Folder names are used as given.
- The "Unhandled snippet type" branch (snippet.go:163-164) cannot be reached, because the model's snippet type has exactly two values.
- `copyAndRun` execution is not modelled. As in the code, it is an unhandled action type.
- Subprocesses are not modelled. The output of `docker ps` is a parameter of ListDevcontainers, and the results of the PATH and server lookups are parameters of ContainerPath. `GetLocalFolderFromDevContainer`, `GetSourceInfoFromDevContainer`, `getLatestFileMatch`, `getSshAuthSockValue`, `getVscodeIpcSock` and `testContainerPathExists` are not part of this model.
- WSL path conversion is not modelled. Every function models the non-WSL branch.
- `getMountFolderFromFolder` (dockerutils.go:121-141) is a file-system walk and is not part of this model.
- The working-directory logic of `ExecInDevContainer` (dockerutils.go:283-310) depends on container queries and is not modelled. `workDir` is a parameter of DockerArgs. Running the `docker exec` process is not modelled either.
- Docker.LongestLocalFolder: `sort.Sort` is not stable. Among matches of equal length, the model promises only some longest one, as the source does.
- The `bufio.Scanner` token-size limit is not modelled. Every line is scanned.
- `fmt` formatting of error messages is not modelled. Each failure is a constructor of `Errors.Error` carrying the relevant value.
- `os.Getwd`, used by `filepath.Abs`, is the `cwd` parameter. Its error path is not modelled.
- An index out of range, a panic in the source, is the `IndexOutOfRange` error.
- The compose-name branch (dockerutils.go:74-76) is not modelled, because it is unreachable: a line whose local folder is empty was already skipped at line 63.
- Docker.ExampleIsClosest: the three closest-match tests are stated about any result that meets GetClosestPathMatchForPath's contract, not as calls of the method.
- `IsTTY` (terminal.go:22-28) is not modelled, because it queries the terminal.
- Terminal.UpdatingStatusWriter.Printf takes the already formatted message. Formatting with `fmt.Sprintf` is not modelled.
- The template tests (template_test.go:105-192) call a de-duplicating `getTemplatesFromFolders` that is not part of this model. The model follows `GetTemplates` as written, which keeps duplicates.

## Findings

| source | as written | input that shows it | evidently intended | confidence | as-written member | corrected member |
|---|---|---|---|---|---|---|
| internal/pkg/devcontainers/dockerutils.go:253-273 | `getContainerEnvVar` returns the raw `echo $PATH` output (line 399). It is trimmed only when the server lookup also succeeds (line 261). When that lookup fails, `PATH=` receives the output with its trailing newline. | `echo $PATH` gives `"/usr/bin\n"` and the server lookup fails: as written, PATH becomes `"/usr/bin\n"`. | The PATH is trimmed in both cases, so it never ends with white space. | not executed | Docker.ContainerPathAsWritten, Docker.UntrimmedPathKeepsNewline | Docker.ContainerPath, Docker.ContainerPathTrimmed, Docker.ContainerPathCorrection |

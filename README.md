# Gitignorer: the fragment assembler, modelled in Dafny

Gitignorer builds a `.gitignore` file from the templates of a downloaded
archive. The command `create Python,Emacs` splits its argument on commas.
It resolves each name against two tiers of fragments:

- the primary tier `<dir><name>.gitignore`;
- the global tier `<dir>Global/<name>.gitignore`.

The primary tier wins when a name is in both. A name found in neither is
skipped with a notice. For every name found, in input order, the command
appends a banner `"\n##### <name> #####\n\n"` and the raw fragment to a
buffer, then writes the buffer to one file. `UseTemplate` copies a stored
template verbatim to an output path. `FilesNamesDir` lists the fragment names
in a directory listing. `UnzipFile` extracts the archive, and it refuses any
entry whose path leaves the destination directory.

The model works on an abstract file tree, `map<Str, Node>`:

- a path exists when it is a key (`IsFileExist`);
- reading is a lookup (`ReadFile`);
- writing is a map update (`WriteFile`).

A `Dir` node exists but cannot be read as a file. That is how the model reaches
the source's fatal branch: a path that exists but cannot be read ends the
process (`Exited`). Go strings are byte strings, so names, paths and contents
are all `Str`, and one `char` stands for one byte. The tree is passed in and
returned, so only values change hands.

Modules follow the source files:

- `GoStrings` (strings.dfy): `strings.Split`, `HasPrefix`, `HasSuffix` and
  `TrimSpace` as the source uses them. `Join` serves only as the inverse of
  `Split` in `JoinSplit` and `SplitJoin`; the source's own calls to
  `strings.Join` are in `List` and `list`, which are left out.
- `Files` (files.dfy): files.go. It holds the tree, `ReadFile`, `WriteFile`,
  `FilesNamesDir` and `UnzipFile`. `IsFileExist` is key membership, and
  `Resolve` states its contract in those terms. main.go:97-111 is a
  line-for-line copy of `FilesNamesDir` (files.go:94-108), so it is modelled once.
- `Assembly` (assembly.dfy): the create loop shared by both revisions. It is
  parameterised by the primary directory, the output path and the mode.
  `Assemble` specifies the loop and `Create` is the loop itself. `Render` is an
  independent description of the assembled output.
- `Commands` (commands.dfy): commands.go's `Create` over
  `./gitignorer_data/gitignores/` with mode 0755, and `UseTemplate`.
- `MainGo` (maingo.dfy): main.go's `create`, which always writes `.gitignore`
  with mode 0777, and the `create` case of `main`.

Where the code's behaviour may surprise, the model follows the code:

- The code writes the output even when no name is found, so the output file
  then exists and is empty.
- `Create` ignores the error of the final write, and the model does too. The
  tree is then left as it was.
- The write is a plain create-or-truncate, not an atomic replacement.
- `UseTemplate` writes a new file with mode `077` (octal), as the source does.
  The model records that number and gives it no meaning.

## Model

| member | source | states |
|---|---|---|
| GoStrings.Split | commands.go:17 | splitting on the comma gives one piece more than there are commas, and no piece contains a comma |
| GoStrings.JoinSplit | commands.go:17 | joining the pieces back with commas restores the input, so no byte is trimmed or dropped |
| GoStrings.SplitJoin | commands.go:17 | splitting a comma-join of comma-free names returns exactly those names, duplicates and empty names included, in order |
| GoStrings.TrimSpaceEmpty | main.go:237 | `TrimSpace(s)` is empty exactly when every byte of `s` is white space |
| Files.IsFileExistReads | files.go:119-125 | a path exists exactly when reading it succeeds or fails only because it is a directory, and is absent exactly when reading reports not-exist |
| Files.ReadFile | files.go:111-117 | reading succeeds exactly when the path exists and is not a directory, and then returns the stored bytes; a missing path gives a not-exist error |
| Files.WriteFile | commands.go:108-111 | a write fails only on a directory; otherwise reading the path back gives the written bytes, every other path is unchanged, a newly created file gets the given mode and a truncated one keeps its own |
| Files.FilesNamesDir | files.go:94-108 | a listing error is returned as it is; otherwise the result is the suffix-stripped names of the matching entries |
| Files.NamesWithSuffixMembers | files.go:101-104 | a name is in the result exactly when that name followed by the extension is an entry, so each result plus the extension gives back its entry |
| Files.NamesWithSuffixAppend | files.go:100-107 | the result for a listing split in two parts is the results of the parts in the same order, so listing order is kept |
| Files.NamesWithSuffixLength | files.go:100-107 | there are never more results than entries |
| Files.UnzipFile | files.go:39-91 | an archive that cannot be opened gives no names and its error; otherwise every entry is processed in order and the first error stops the loop |
| Files.ExtractStops | files.go:51-61 | once an entry fails, later entries are not processed |
| Files.MakeDir | files.go:65-67 | after the ignored MkdirAll the path exists; an existing node is left as it was, a missing one becomes a directory, and no other path changes |
| Files.ExtractRejects | files.go:57-61 | an entry whose joined path lacks the prefix `Clean(dest)+"/"` stops the extraction with an illegal-path error, records no name and writes nothing |
| Files.ExtractFilenames | files.go:49-63 | the returned names are the joined paths of the first entries, in archive order, each with the destination prefix; all entries are named when no error occurs |
| Files.ExtractConfined | files.go:57-90 | no entry is written or made outside `Clean(dest)+"/"`: every path outside that prefix keeps its node |
| Files.TraversalRejected | files.go:57-61 | the entry `../../evil` extracted into `./gitignorer_data` (joined path `../evil`) is rejected and the tree is unchanged |
| Assembly.Resolve | commands.go:20-28 | a path in the primary tier wins; the global tier is used only when the primary path is absent; a name absent from both tiers is missing |
| Assembly.Header | commands.go:34 | the banner is 15 bytes longer than the name: `"\n##### "`, then the name, then `" #####\n\n"` |
| Assembly.Create | commands.go:14-40 | the loop over the split names returns the specified outcome: the written tree and skip notices, or the exit on a read error |
| Assembly.AssembleConcat | commands.go:19-36 | assembling `a + b` is assembling `a` and then `b`, with outputs and notices in input order; after a read error in `a`, nothing of `b` is processed |
| Assembly.DuplicatesRepeat | main.go:194-211 | a name list given twice yields its output twice: no deduplication |
| Assembly.AssembleOne | commands.go:20-35 | one name alone gives a skip notice, or its banner and fragment, or the read error |
| Assembly.MissingNameContributesNothing | commands.go:21-23 | inserting a name found in neither tier changes neither the output nor the error |
| Assembly.AssembleSucceeds | commands.go:29-33 | the loop ends without an exit exactly when every resolved path can be read |
| Assembly.AssembleRenders | commands.go:34-35 | without an exit, the buffer is the in-order rendering of the found fragments and the notices are the missing names in order |
| Assembly.RenderLength | commands.go:34-35 | the output length is the sum over found names of the name length plus 15, plus the fragment length |
| Assembly.AllMissingIsEmpty | commands.go:21-23 | when no name resolves, the buffer is empty and every name is skipped |
| Assembly.CreatedWrites | commands.go:37-38 | without an exit, only the output path changes and it holds the buffer (a directory there leaves the tree as it was); an exit writes nothing |
| Assembly.CreatedAllMissing | commands.go:18-38 | when every name is missing, the output file is written and empty |
| Assembly.Example | commands.go:14-36 | with `Python.gitignore` = `__pycache__/` and `Global/Emacs.gitignore` = `*~`, `Python,Emacs,Foo` yields `"\n##### Python #####\n\n__pycache__/\n##### Emacs #####\n\n*~"` and one notice for `Foo` |
| Commands.Create | commands.go:14-40 | the assembler over `./gitignorer_data/gitignores/` writing `outputPath` with mode 0755; no other path changes |
| Commands.CreateGlobalTier | commands.go:15-16 | the global tier of `Create` is `./gitignorer_data/gitignores/Global/` |
| Commands.UseTemplate | commands.go:103-113 | a missing template gives a not-exist error and writes nothing; any error leaves the tree unchanged; on success the output holds the template's bytes unchanged and nothing else changes |
| MainGo.Create | main.go:191-214 | the assembler over the given directory, always writing `.gitignore` with mode 0777; no other path changes |
| MainGo.CreateCommand | main.go:236-242 | create runs on the untrimmed `Args[2]` exactly when that argument exists and is not blank; otherwise the help is shown |

## Left out

- `DownloadFile`, `Update` and `update`: network access and the orchestration of download, unzip, rename and mkdir.
- `List`, `list`, `ShowHelp`, `showHelp` and every case of `main` except `create`: printing and command-line handling.
- The text of printed messages: a skip notice is modelled only as the skipped name.
- `os.Exit` on a read error is the `Exited` outcome, not the end of a process.
- Permission modes are opaque numbers. The umask is not modelled.
- `Files.IsFileExist`: os.Stat errors other than "does not exist" (a permission error on a parent, say) also make the source report existence. The model has no such errors.
- `Files.UnzipFile`: zip decoding, the parent directories that `MkdirAll` creates, and a failing `io.Copy` are not modelled. The joined path and the cleaned destination are inputs, because `filepath.Join` and `filepath.Clean` are library code.
- `Files.WriteFile`: the tree is keyed by path strings and has no parent directories, so a write under a missing or unwritable parent succeeds in the model where Go's `ioutil.WriteFile` fails with nothing written. `Commands.UseTemplate`, `Assembly.CreatedWrites` and `Assembly.CreatedAllMissing` inherit this: they promise a written file there. Paths are also compared as strings, so `./x` and `x`, or `a/../b` and `b`, are different keys. Permission errors are not modelled.
- `Files.MakeDir`: the missing ancestors that `os.MkdirAll` also creates are not tracked, so only the path itself is added.
- `Files.ExtractConfined`: the prefix test is sound only for the cleaned paths `filepath.Join` returns, and the model takes on trust that `joined` is such a path; a `joined` such as `gitignorer_data/../../evil` would pass the guard here. The directories `MkdirAll` creates above an entry's own path, the destination directory itself included, are not tracked; only the entry's own path is made or written.
- `Files.FilesNamesDir`: the listing of `ioutil.ReadDir` is an input. How it reads and sorts a directory is not modelled.
- `GoStrings.TrimSpace`: only ASCII white space is trimmed. The Unicode spaces Go also trims, such as U+00A0, are not.
- Bytes are modelled as `char`, so the model does not rule out values above 255. Nothing in it depends on that range.
- The path separator is `/`. Windows paths are not modelled.

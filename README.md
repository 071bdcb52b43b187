# pylabtools in Dafny

A model of the small, pure logic inside the `pylabtools` helpers, with proofs
about it:

- **File names** (`FileWrapper`, `FileHelpers`, `Utils`): the three copies of
  `get_file_name` and `get_file_name_without_extension`. They follow the
  `pathlib` rules for `name`, `suffix` and `stem` (`PurePath`). The copies
  differ on purpose:
  - py_utility/file_wrapper.py tests `set_extension` for truthiness;
  - py_utility/file.py compares it with `None`;
  - utils.py raises `NameError` on the combination it means to warn about.
- **Lines of a text file** (`FileWrapper.StreamFileByLine`): the lines
  `stream_file_by_line` yields, over text that is already decoded.
- **Path helpers** (`PathHelpers` for py_utility/path.py and its copy in
  utils.py; `PathWrapper` for py_utility/path_wrapper.py):
  - `get_all_files`;
  - `get_current_folder_name`;
  - `get_previous_path`;
  - `get_all_directory` / `get_all_directories`.

  They run over a directory tree `FileTree.Node = File(name) | Dir(name,
  children)`, with `os.walk` as the function `FileTree.OsWalk`. Paths are
  absolute and normalised (`PosixPath.AbsNorm`). `PosixPath.Render` and
  `PosixPath.Components` convert between a path and its list of components.
  `join`, `basename` and `dirname` follow the `posixpath` rules.
- **Object-store key mapping and transfers**:
  - `Transfer` holds what both MinIO clients share: `get_all_file_paths`,
    the object name `join(prefix, rel)` with '\\' replaced by '/', and the
    download destinations.
  - `ObjectStore.Server` is a class whose fields are the server's buckets
    and the local files that downloads write.
  - `LabMinio.MinioWrapper` models pylabtools/minio_wrapper.py. Its process
    and thread pools run the tasks in an order the caller chooses.
  - `UtilityMinio.MinioClient` models py_utility/minio_.py: it creates a
    missing bucket, then puts one file after another.

I/O failures of the server (an unreadable file, a network error) are a map
`faults` from local file to error message, passed in as a parameter.

Where the written code and the documented behaviour disagree, the model
follows the code:
- The documented examples say `get_file_name(..., tail="_test",
  without_extension=True, set_extension=".csv")` gives `"novel_test"`. That
  holds for py_utility/file.py and py_utility/file_wrapper.py. The utils.py
  copy first calls the unbound `log_level` and raises `NameError`
  (`Utils.TruthTable`).
- utils_test.py passes the arguments of `get_file_name` to
  `get_file_name_without_extension`, which takes only a path. The model
  reads its table as the expected results of `get_file_name`.
- `get_all_file_paths` cuts `len(directory) + 1` characters, so for the
  directory "/" it cuts the first character of every relative path.
  `Transfer.RelativeOne` and `Transfer.FilePathsOfDirectory` state this.
- The docstring of `download_files` says `destination_path` defaults to the
  current directory. Its default is "", and `os.makedirs("", exist_ok=True)`
  raises `FileNotFoundError` before anything is listed, so the call with
  the default fails (`LabMinio.MinioWrapper.DownloadFiles`).

## Model

| member | source | states |
|---|---|---|
| FileWrapper.GetFileNameWithoutExtension | py_utility/file_wrapper.py:60-69 | the result is the stem of the last component: followed by that component's suffix it gives the component back, and it is empty only when the component is |
| FileWrapper.GetFileName | py_utility/file_wrapper.py:72-89 | the new name always begins with the stem and the tail; under `without_extension` it is exactly that long, otherwise it ends with the truthy `set_extension` or, failing that, the original suffix |
| FileWrapper.DefaultIsName | py_utility/file_wrapper.py:84-89 | with an empty tail, no extension and `without_extension` false, the new name is the path's last component |
| FileWrapper.WithoutExtensionWins | py_utility/file_wrapper.py:84-86 | with `without_extension` the new name is stem + tail, whatever `set_extension` is |
| FileWrapper.FalsyExtensionKeepsSuffix | py_utility/file_wrapper.py:87-89 | a falsy `set_extension` (None or "") falls back to the original suffix: stem + tail + suffix, and with an empty tail the last component itself |
| FileWrapper.ExtensionVerbatim | py_utility/file_wrapper.py:89 | a non-empty `set_extension` is appended as given, with no dot added, and the new name ends with it |
| FileWrapper.GetFileNameParts | py_utility/file_wrapper.py:72-89 | for any "dir/base.ext", the new name is base + tail followed by nothing, the given extension or ".ext", for every argument combination |
| FileWrapper.TestCases | tests/test_file_wrapper.py:35-47 | the four expectations of the test file hold |
| FileWrapper.ReadLines | py_utility/file_wrapper.py:31 | reading text line by line gives at least one line exactly when the text is not empty |
| FileWrapper.ReadLinesConcat | py_utility/file_wrapper.py:31 | the lines read, concatenated, are the text: nothing is lost or added |
| FileWrapper.ReadLinesShape | py_utility/file_wrapper.py:31 | every line read is non-empty, has no '\n' before its last character, and every line but the last ends in '\n' |
| FileWrapper.StreamFileByLine | py_utility/file_wrapper.py:30-32 | one yielded line per line read, and no yielded line ends in '\r' or '\n' |
| FileWrapper.StripLines | py_utility/file_wrapper.py:32 | each yielded line is the line read with its trailing '\r' and '\n' characters stripped |
| FileWrapper.StreamSplit | py_utility/file_wrapper.py:31-32 | the first yielded line is the text up to its first '\n', stripped, and the rest is the stream of what follows |
| FileWrapper.StreamJoin | py_utility/file_wrapper.py:31-32 | for text without '\r', the yielded lines joined with "\n" are the text with at most one trailing "\n" removed |
| FileWrapper.StreamOfJoin | py_utility/file_wrapper.py:31-32 | lines without newlines, the last one non-empty, joined with "\n" and streamed come back unchanged |
| FileWrapper.TestStream | tests/test_file_wrapper.py:13-17 | "line1\nline2\nline3" yields ["line1", "line2", "line3"] |
| FileHelpers.GetFileNameWithoutExtension | py_utility/file.py:23-24 | the result is the stem: followed by the suffix it gives the last component back |
| FileHelpers.GetFileName | py_utility/file.py:26-34 | the new name always begins with the stem and the tail; under `without_extension` it is exactly that long, otherwise it ends with `set_extension` whenever one is given (even ""), else with the original suffix |
| FileHelpers.TailBeforeSuffix | py_utility/file.py:30-34 | with the default extension the new name is the last component with the tail spliced in just before its suffix: it is longer by the tail, holds the tail right after the stem, and removing the tail gives the component back |
| FileHelpers.DefaultsAndEmptyExtension | py_utility/file.py:30-34 | the defaults give the last component; `set_extension=""` is kept, so the result is the bare stem |
| FileHelpers.VariantsDiffer | py_utility/file.py:30-34 | the file.py and file_wrapper.py variants disagree exactly when `without_extension` is false, `set_extension` is "" and the name has a suffix |
| FileHelpers.GetFileNameParts | py_utility/file.py:26-34 | for any "dir/base.ext", the new name is base + tail followed by nothing, the given extension or ".ext" |
| FileHelpers.TruthTable | utils_test.py:11-14 | the four rows with an empty tail give the expected names |
| FileHelpers.TruthTableTail | utils_test.py:15-18 | the four rows with tail "_test" give the expected names |
| Utils.GetFileName | utils.py:66-78 | the call fails, with `NameError` on `log_level`, exactly when `without_extension` meets a truthy `set_extension`; otherwise it returns what the file.py variant returns |
| Utils.WithoutExtension | utils.py:74-77 | with `without_extension` and no extension (None or ""), the result is stem + tail |
| Utils.TruthTable | utils_test.py:9-19 | six rows of the table hold, and the two rows that combine `without_extension` with ".csv" raise `NameError` |
| PathHelpers.GetAllFiles | py_utility/path.py:3-14 | the loops over the walk build exactly the list `AllFiles` describes: the path itself for a file, else every walked file whose name matches, in walk order |
| PathHelpers.MatchingFiles | py_utility/path.py:11-13 | the inner loop appends `join(root, file)` for exactly the matching names of one walk step, in order |
| PathHelpers.AllFiles | py_utility/path.py:3-14 | a path to a file gives `[path]`, whatever the filter, and a path that does not exist gives no files; the copy at utils.py:21-32 behaves the same |
| PathHelpers.AllFilesOfDirectory | py_utility/path.py:9-14 | on a directory, the result has no duplicates, and a path below it is in the result exactly when it names a file whose name matches; the copy at utils.py:27-32 behaves the same |
| PathHelpers.GetCurrentFolderName | py_utility/path.py:17-20 | for a file, the parent directory's name; for anything else, the path's own last component ("" at the root); the copy at utils.py:81-84 behaves the same |
| PathHelpers.FolderNames | py_utility/path.py:19-20 | `basename` of a path is its last component, and `basename(dirname(p))` is the one before |
| PathHelpers.GetPreviousPath | py_utility/path.py:23-32 | the loop with its fixed-point break gives `dirname` applied `previous` times, which is the path `previous` levels up, never above the root; the copy at utils.py:87-96 behaves the same |
| PathHelpers.DirnameUpTo | py_utility/path.py:27-31 | stopping once `dirname` returns its input changes nothing: the result is `dirname` applied `previous` times |
| PathHelpers.DirnameNFixed | py_utility/path.py:30-31 | once `dirname` returns its input, applying it any number of times more returns the same path |
| PathHelpers.DirnameNPath | py_utility/path.py:27-29 | `dirname` applied k times to an absolute normalised path drops its last k components, and stops at "/" |
| PathHelpers.GetAllDirectory | py_utility/path.py:34-41 | the listing succeeds exactly on a directory; otherwise `os.listdir` fails with FileNotFound on a missing path and NotADirectory on a file |
| PathHelpers.AllDirectoryListing | py_utility/path.py:34-41 | the listing succeeds exactly on a directory, fails with FileNotFound or NotADirectory otherwise, has no duplicates, and holds `join(path, n)` exactly for the children that are directories; the copy at py_utility/path_wrapper.py:63-78 behaves the same |
| PathWrapper.FileShortCircuit | py_utility/path_wrapper.py:16-17 | a path to a file gives `[path]`, ignoring both the filter and `recursive` |
| PathWrapper.GetAllFiles | py_utility/path_wrapper.py:4-33 | the call fails exactly when the shallow mode lists a path that does not exist, and then with FileNotFound; the recursive mode never fails |
| PathWrapper.RecursiveIsWalk | py_utility/path_wrapper.py:19-25 | the recursive listing is the walk's files filtered by `endswith` (None keeps all) |
| PathWrapper.ShallowListing | py_utility/path_wrapper.py:26-31 | on a directory, the shallow listing has no duplicates and holds `join(path, n)` exactly for the direct children that are files and match |
| PathWrapper.ShallowPrefixOfRecursive | py_utility/path_wrapper.py:19-31 | on an existing path, the shallow listing is a prefix of the recursive one under the same filter |
| PathWrapper.MissingPath | py_utility/path_wrapper.py:19-31 | on a missing path the shallow listing fails with FileNotFound and the recursive one is empty |
| PathWrapper.GetCurrentFolderName | py_utility/path_wrapper.py:35-45 | the result is the component before the last one ("" when there is none), for files and directories alike |
| PathWrapper.FolderNameVariants | py_utility/path_wrapper.py:45 | the two variants agree exactly on files, on the root, and where a path that is not a file has the same last component as its parent |
| PathWrapper.GetPreviousPath | py_utility/path_wrapper.py:47-61 | the loop applies `dirname` exactly `previous` times (none when `previous <= 0`), which is the path that many levels up, and the root once it overshoots |
| PathWrapper.DirnameTimes | py_utility/path_wrapper.py:59-60 | the loop's result is `dirname` applied `previous` times |
| PathWrapper.PreviousOfFile | tests/test_path_wrapper.py:41-43 | one level up from a file is the directory that holds it |
| PosixPath.ComponentsRender | py_utility/path.py:10 | rendering components as a path and splitting it again gives them back, and the path is absolute and normalised |
| PosixPath.RenderComponents | py_utility/path.py:10 | an absolute normalised path is the rendering of its components |
| PosixPath.RenderInjective | py_utility/path.py:10 | two component lists render to the same path exactly when they are equal |
| PosixPath.BasenameRender | py_utility/path.py:19 | `basename` of a rendered path is its last component, "" at the root |
| PosixPath.DirnameRender | py_utility/path.py:29 | `dirname` of a rendered path drops its last component, and returns its input exactly at the root |
| PosixPath.DirnameNRender | py_utility/path_wrapper.py:59-60 | `dirname` applied k times to a rendered path drops k components, never going above the root |
| PosixPath.RenderAppend | py_utility/path.py:13 | the path of a file below a directory is the directory, a '/' (except at the root), then the components below it joined with '/' |
| PurePath.Name | py_utility/file.py:24 | `name` has no '/', is never ".", and is no longer than the path |
| PurePath.Suffix | py_utility/file.py:31 | the suffix is "" or a '.' and at least one character with no further '.', and it ends the name |
| PurePath.Stem | py_utility/file.py:24 | stem + suffix is the name, and the stem is empty only for an empty name |
| PurePath.NameRender | py_utility/file.py:24 | `name` of a rendered path is its last component |
| PurePath.SuffixAt | py_utility/file.py:31 | when the name's last '.' is neither its first nor its last character, the suffix starts at that '.' and the stem is what comes before it |
| PurePath.NoSuffix | py_utility/file.py:31 | with no '.' after the first character, the suffix is "" and the stem is the whole name |
| FileTree.WalkRender | py_utility/path.py:10-13 | the files the walk lists, joined to their roots, are the paths of the tree's files in walk order |
| FileTree.FilesMem | py_utility/path.py:10-13 | a relative path is listed exactly when it names a file whose name matches |
| FileTree.FilesDistinct | py_utility/path.py:10-13 | no file is listed twice in a well-formed tree |
| FileTree.FilesNonEmpty | py_utility/path.py:10-13 | every listed relative path has at least one component |
| FileTree.WalkListing | py_utility/path.py:10-13 | the walk below a directory lists each matching file under it exactly once, and nothing else |
| Transfer.FilePathsOfDirectory | pylabtools/minio_wrapper.py:39-43 | the two lists are aligned and as long as the file list; each absolute path is the file's path; each relative path is the path below the directory, and for a directory other than "/" the absolute path is directory + "/" + relative |
| Transfer.FilePaths | pylabtools/minio_wrapper.py:27-43 | the two lists are aligned pair by pair, each relative path being its absolute path with `len(directory) + 1` characters cut; a file or a missing path has no files |
| Transfer.RelativeOne | pylabtools/minio_wrapper.py:42 | cutting `len(directory) + 1` characters gives the path below the directory, except at "/" where one character too many is cut |
| Transfer.UploadsOfDirectory | pylabtools/minio_wrapper.py:96-100 | uploading a directory other than "/" plans one upload per file below it, in walk order: the file's path, under `join(join(prefix, basename(dir)), rel)` with '\\' replaced by '/'; the copy at py_utility/minio_.py:43-49 behaves the same |
| Transfer.Uploads | pylabtools/minio_wrapper.py:93-103 | a directory gives one upload per file of `get_all_file_paths`, local paths in that order; anything else gives one upload of the path itself; no object name holds a backslash |
| Transfer.UploadsOfDirectoryDistinct | pylabtools/minio_wrapper.py:96-100 | a directory upload never sends a file twice, and with no '\\' in relative paths no two uploads share an object name |
| Transfer.UploadsOfFile | pylabtools/minio_wrapper.py:101-103 | a single-file upload is one upload under `join(prefix, basename(file))`; the copy at py_utility/minio_.py:50-55 behaves the same |
| Transfer.ObjectNameSlashes | pylabtools/minio_wrapper.py:99-102 | no object name contains '\\'; each '\\' of the relative path becomes '/' |
| Transfer.BackslashCollision | pylabtools/minio_wrapper.py:99 | two different local paths, "a\\b" and "a/b", map to the same object name |
| Transfer.ObjectNamesDistinct | pylabtools/minio_wrapper.py:99 | distinct relative paths without '\\' and without a leading '/' give distinct object names |
| Transfer.DownloadsMem | py_utility/minio_.py:65-66 | a download writes `join(dir, name)` with the object's data exactly for the listed names that exist |
| Transfer.Downloads | py_utility/minio_.py:65-66 | there are at most as many writes as listed names, and each write is `join(dir, name)` with the data of a listed name that is an object |
| Transfer.DownloadsDistinct | py_utility/minio_.py:65-66 | distinct relative object names give distinct destinations |
| Transfer.JoinInjective | py_utility/minio_.py:66 | `join(dir, a)` and `join(dir, b)` are equal exactly when `a == b`, for relative names |
| ObjectStore.WriteAllDistinct | py_utility/minio_.py:47-49 | after writes to distinct names, each name holds its write, and every other name keeps its old value |
| ObjectStore.WriteOrderIrrelevant | pylabtools/minio_wrapper.py:106-107 | writes to distinct names give the same objects in any order |
| ObjectStore.ListedRecursive | py_utility/minio_.py:65 | a recursive listing names exactly the objects that start with the prefix |
| ObjectStore.ListedShallow | pylabtools/minio_wrapper.py:128 | a listing that is not recursive names objects directly under the prefix, or "directories" ending in '/' that begin some object's name |
| ObjectStore.Server.MakeBucket | py_utility/minio_.py:37-39 | a missing bucket is created empty and nothing else changes |
| ObjectStore.Server.FPutObject | pylabtools/minio_wrapper.py:65 | a put fails on a fault or a missing bucket; otherwise it creates or replaces the object |
| ObjectStore.Server.FGetObject | pylabtools/minio_wrapper.py:167 | a get fails on a missing bucket or object; otherwise it writes the object's data to the destination |
| LabMinio.MinioWrapper.constructor | pylabtools/minio_wrapper.py:19-24 | the wrapper keeps the endpoint, keys and flag, and the client it was given |
| LabMinio.MinioWrapper.Tasks | pylabtools/minio_wrapper.py:96-103 | one task per planned upload, in order, each carrying that upload's local path and object name, and all for the given bucket |
| LabMinio.MinioWrapper.UploadFile | pylabtools/minio_wrapper.py:46-68 | never fails: it returns "Success" or "Upload Error for <local> : <err>", and the bucket changes only on success |
| LabMinio.UploadResult | pylabtools/minio_wrapper.py:62-68 | the result is "Success" exactly when the put succeeds, and otherwise starts with "Upload Error for ", the local path and " : " |
| LabMinio.Errors | pylabtools/minio_wrapper.py:110 | a string is among the logged errors exactly when it is a result other than "Success" |
| LabMinio.MinioWrapper.Upload | pylabtools/minio_wrapper.py:70-112 | the errors logged are the results other than "Success", and, up to order, they do not depend on the order the pool ran the tasks; the bucket ends up with the successful tasks' objects |
| LabMinio.MinioWrapper.RunUploads | pylabtools/minio_wrapper.py:106-107 | running the tasks in an order gives each task's result, and the bucket holds the successful writes in that order |
| LabMinio.ErrorsCount | pylabtools/minio_wrapper.py:110 | each error appears among the logged errors as often as among the results, and "Success" never does |
| LabMinio.ErrorsMultiset | pylabtools/minio_wrapper.py:110 | rearranging the results rearranges the errors logged and nothing more |
| LabMinio.ResultsMultiset | pylabtools/minio_wrapper.py:106-107 | rearranging the tasks rearranges their results |
| LabMinio.ErrorsAll | pylabtools/minio_wrapper.py:110-112 | when no task succeeds, every result is logged |
| LabMinio.MissingBucket | pylabtools/minio_wrapper.py:65-68 | with no bucket, nothing is written and every result is an error |
| LabMinio.WrittenDistinct | pylabtools/minio_wrapper.py:99 | tasks with distinct object names write distinct names |
| LabMinio.UploadOrderIrrelevant | pylabtools/minio_wrapper.py:106-107 | any two orders of the same tasks with distinct object names leave the same objects |
| LabMinio.UploadedObjects | pylabtools/minio_wrapper.py:106-107 | after any order, each successful task's object holds its local file, and every other object is unchanged |
| LabMinio.DirectoryTasksDistinct | pylabtools/minio_wrapper.py:96-100 | the tasks of a directory upload, with no '\\' in the relative paths, have distinct object names |
| LabMinio.MinioWrapper.DownloadFiles | pylabtools/minio_wrapper.py:115-139 | the default destination "" fails first, with FileNotFoundError from `os.makedirs`; then a listing of a missing bucket fails; otherwise each listed object is written to `join(destination, name)`; the buckets never change, and on failure neither does the disk |
| LabMinio.DownloadedObjects | pylabtools/minio_wrapper.py:137-139 | whatever order the threads run in, each listed object ends up at `join(destination, name)`, and the result does not depend on the order |
| LabMinio.ShallowDownloads | pylabtools/minio_wrapper.py:128-133 | a download that is not recursive writes only objects directly under the prefix or below a listed "directory" |
| LabMinio.MinioWrapper.DownloadFile | pylabtools/minio_wrapper.py:141-167 | the object is written to `file_output` whenever it is given (even ""), otherwise to `file_name`; a missing bucket or object is an error |
| UtilityMinio.GetAllFilePaths | py_utility/minio_.py:8-17 | the nested loops build exactly the aligned absolute and relative lists of `get_all_file_paths` |
| UtilityMinio.FirstFault | py_utility/minio_.py:45-49 | the index where the sequential upload stops: no fault before it, and a fault at it unless it is the end |
| UtilityMinio.MinioClient.Upload | py_utility/minio_.py:23-55 | the bucket is created only if missing; then the uploads run in walk order up to the first fault, whose error ends the call, and the bucket holds exactly the objects put before it |
| UtilityMinio.MinioClient.UploadSingle | py_utility/minio_.py:50-55 | a single file is put under `join(prefix, basename(file))`, or the fault is returned |
| UtilityMinio.MinioClient.UploadDirectory | py_utility/minio_.py:43-49 | one put per file below the directory, in walk order, until the first fault |
| UtilityMinio.MinioClient.PutAll | py_utility/minio_.py:45-49 | the loop puts the files one after another and stops at the first fault with its error |
| UtilityMinio.MinioClient.Download | py_utility/minio_.py:57-66 | the listing is recursive; each listed object is saved to `join(dir_local_storage, name)`, and a missing bucket is an error |

## Left out

- Reading and writing whole files, JSON configuration, and logging setup: these are I/O and library calls with no logic of their own.
- `normalize_text_transcription`, `normalize_transcription`, `search_word_in_all_files`, `delete_all_files` (utils.py): regular-expression semantics, console output and an interactive prompt.
- Text decoding and universal-newline translation before `stream_file_by_line` splits lines: the model starts from decoded text with '\n' line ends.
- `os.path.abspath` and the current directory: every path helper requires an absolute normalised path, on which `abspath` is the identity. Relative inputs, and the case of `get_previous_path` with `previous < 1` returning a relative input untouched, are not modelled beyond that.
- Windows path rules and the order in which the operating system lists entries: the model uses `posixpath` and a fixed child order per directory.
- Symbolic links, permissions and errors while walking: the tree has only files and directories.
- The process pool of `upload` and the thread pool of `download_files`: the tasks take effect one at a time in an order passed as `run`. Real overlap between tasks is not modelled.
- tqdm progress bars, `print` of an existing bucket, the `Progress` callback and `max_workers`: display and tuning only.
- `os.makedirs` in `download_files`: the model's local disk is a map from path to data, with no directories. The only failure of `os.makedirs` modelled is the one on the destination "".
- Object data: an uploaded object's data is the name of the local file it came from, and a downloaded file's data is the object's data.
- The network and the server's own failures are the `faults` parameter. Downloads fail only on a missing bucket or object.
- `LabMinio.MinioWrapper.UploadFile`: does not model that the new client is built without `secure`. The model assumes it reaches the same server as `minio_client`.
- `LabMinio.MinioWrapper.DownloadFiles` and `UtilityMinio.MinioClient.Download`: the listing is a parameter, required to name exactly what `list_objects` yields, each name once.
- The `minio` package itself (`bucket_exists`, `make_bucket`, `fput_object`, `fget_object`, `list_objects`) is not part of this model. `ObjectStore.Server` states only what the calling code relies on.
- setup.py and the `__main__` blocks: packaging and ad-hoc scripts.

# ipfs-deploy, modelled in Dafny

ipfs-deploy uploads a local directory to an IPFS node and returns the CID (content
identifier) of the uploaded root directory. Its whole logic sits in `deploy.mjs`:

- `getFilesRecursively(dir)` walks a directory tree and returns the absolute path of every
  file beneath it, in listing order, with a subdirectory's files spliced in at the position
  of the subdirectory.
- `deploy(...)` maps every walked path to a logical path `www/<relative path>` and
  announces each one to the logging sink. It then creates an IPFS HTTP client whose headers
  carry Basic credentials when a user or password is set. It hands all files to one
  `addAll` call and consumes the result stream, logging every `(cid, path)`. It returns the
  CID of the result whose path is the virtual root `www`.

The model has two modules:

- `Walker` (walker.dfy) holds the directory tree as a value (`Entry = File(name) |
  Dir(name, children)`). `Walk`/`Visit` give the walk. `FileChains` and `Contains` are
  reference definitions of "the files of the tree" that do not depend on where the tree
  is mounted.
- `Deploy` (deploy.dfy) holds the logical-path mapping, the header construction and the
  `Deploy` method. That method runs the announcement loop and the result loop, keeping
  `rootCid` and the log as state.

The file system is the `listing` parameter. The store's answer to `addAll` is the `results`
parameter. `Buffer`'s base64 encoding is the `base64` function parameter. Each call of the
logging sink becomes one element of the returned `log` sequence: `Announce(path)` for a
one-argument call, `Added(cid, path)` for a two-argument one.

Three details of the code that the model keeps as written:

- The code does no separator conversion. A logical path is `www/` followed by whatever
  follows the directory and one more character in the resolved path.
- Credentials are sent when `IPFS_USER || IPFS_PASS` is truthy, so an empty string alone
  does not cause the header to be sent. Once the other side is truthy, an empty side is
  rendered as the empty string, while an absent side is rendered as `undefined`.
- The directory `/` is a special case. `path.resolve('/', name)` gives `/name`, yet the
  slice still cuts two characters, so each logical path loses the first character of the
  file's top-level name. `Deploy.RootDirectoryDropsFirstCharacter` proves this behaviour.
  Distinct files can then share a logical path: top-level files `ab` and `bb` are both
  handed to `addAll` as `www/b` (`Deploy.RootDirectoryCollision`), and a file `a` as `www/`.
  The lemmas about ordinary logical paths therefore require a directory that does not end
  in `/`.

## Model

| member | source | states |
|---|---|---|
| Walker.Resolve | deploy.mjs:9 | A resolved entry path starts with the directory and one separator (no second separator after the root `/`); for a listed name it does not end in `/` |
| Walker.Walk | deploy.mjs:5-15 | Every path the walk returns starts with the walked directory and a separator; an empty directory walks to `[]` |
| Walker.Visit | deploy.mjs:8-11 | What one entry contributes (its path, or its subdirectory's walk) lies under the walked directory |
| Walker.FileChains | deploy.mjs:5-15 | Reference flattening of the tree: each file's chain of names from the directory down, none of them empty |
| Walker.EntryChains | deploy.mjs:10 | Each chain an entry contributes starts with that entry's name |
| Walker.WalkAppend | deploy.mjs:7-14 | Walking a listing made of two parts returns the walk of the first part followed by the walk of the second |
| Walker.WalkAt | deploy.mjs:7-14 | Entry k contributes its own path (a file) or its whole subtree (a directory) contiguously, between the contributions of the entries before and after it |
| Walker.WalkIsJoinedChains | deploy.mjs:9-10 | The walk has one path per file of the tree; the i-th is the directory, a separator and the i-th file's names joined by `/` |
| Walker.VisitIsJoinedChains | deploy.mjs:9-10 | The same per entry: the path of a file, or of a file nested in a subdirectory, is the directory plus its joined names |
| Walker.FileChainsAreTheFiles | deploy.mjs:5-15 | A chain is produced if and only if the tree holds a non-directory entry reached through it (no entry skipped, nothing invented); the code asks only `isDirectory()`, so links, FIFOs and sockets count as files |
| Walker.EntryChainsAreTheFiles | deploy.mjs:10 | The same, per entry, in both directions |
| Walker.DirChainsAreTheFiles | deploy.mjs:10 | A subdirectory's chains are exactly its name followed by a chain of a file in its listing |
| Walker.ChainsDistinct | deploy.mjs:5-15 | With sibling names distinct, no file's chain appears twice |
| Walker.JoinInjective | deploy.mjs:9 | Different chains of valid names are joined to different paths |
| Walker.WalkIsTheFiles | deploy.mjs:5-15 | A path is walked if and only if it is the directory, a separator and the joined names of a file the tree holds |
| Walker.WalkHasNoDuplicates | deploy.mjs:5-15 | In a well-formed tree the walk lists every file exactly once: a path is walked if and only if it is a file's path, and no path appears twice |
| Deploy.Slice | deploy.mjs:30 | Definition of `String.prototype.slice` with a non-negative start: the characters from `start` on, empty once `start` passes the end; its use is proved in `LogicalPathsOfWalk` and `RootDirectoryDropsFirstCharacter` |
| Deploy.LogicalPath | deploy.mjs:30 | Definition of the template literal `www/` + slice: every logical path starts with `www/`, and for a path under the directory, the directory, a separator and what follows `www/` give back the walked path |
| Deploy.FileEntries | deploy.mjs:29-32 | Definition of the `map`: one entry per walked path, in walk order; entry i is placed at the logical path of path i and streams path i; its properties over a walk are proved in `LogicalPathsOfWalk` and `LogicalPathsDistinct` |
| Deploy.LogicalPathsOfWalk | deploy.mjs:26-32 | For a directory not ending in `/`, the i-th file handed to `addAll` streams the i-th walked file and is placed at `www/` followed by that file's names joined by `/` |
| Deploy.LogicalPathsDistinct | deploy.mjs:28-32 | For a directory not ending in `/`, the logical paths are pairwise distinct and none of them is `www` itself |
| Deploy.RootDirectoryDropsFirstCharacter | deploy.mjs:26-30 | For the directory `/`, each logical path is `www/` followed by the file's joined names minus their first character |
| Deploy.RootDirectoryCollision | deploy.mjs:26-30 | For the directory `/`, two top-level files whose names differ only in their first character are handed to `addAll` at the same logical path |
| Deploy.RootDirectoryCollisionExample | deploy.mjs:26-30 | For the directory `/`, the well-formed listing of files `ab` and `bb` gives two entries both placed at `www/b` |
| Deploy.RootDirectoryOneCharacterName | deploy.mjs:26-30 | For the directory `/`, a top-level file with a one-character name is placed at `www/` itself |
| Deploy.Truthy | deploy.mjs:40 | Definition of `IPFS_USER \|\| IPFS_PASS` per side: a setting is truthy exactly when it is defined and renders non-empty |
| Deploy.Render | deploy.mjs:42 | Definition of how the template literal renders a setting: its text, or `undefined` when absent |
| Deploy.Credentials | deploy.mjs:42 | The credential text is the rendered user, one colon, the rendered password; the split back is proved in `CredentialsRoundTrip` |
| Deploy.ClientOptionsFor | deploy.mjs:35-48 | Definition of the `create` options: host, port and protocol passed through, the headers of `Headers`, timeout `5m` |
| Deploy.Headers | deploy.mjs:39-46 | `Content-Encoding: utf-8` is always present; `Authorization` is present if and only if user or password is truthy; when present it is `Basic ` followed by the base64 of the rendered `user:pass`; no other header |
| Deploy.CredentialsRoundTrip | deploy.mjs:42 | A server splitting the credential text at its first colon (section 2 of RFC 7617) reads back the rendered user and password, given a user without a colon |
| Deploy.LoneCredentialSendsUndefined | deploy.mjs:40-44 | With only one of user and password set, the header is still sent and the missing side is read as the text `undefined` |
| Deploy.Deploy | deploy.mjs:17-58 | The files handed to `addAll` are the logical-path mapping of the walk; the client gets the host, port, protocol, headers and a `5m` timeout; the log is one announcement per file in file order followed by one `(cid, path)` entry per result in result order, and nothing else; the returned CID is absent if and only if no result has path `www`, and otherwise is the CID of the last result with that path |
| Deploy.ExampleWalk | deploy.test.mjs:40-52 | A directory holding `css/file2.css` and `file1.html`, listed `css` first, walks to `<dir>/css/file2.css` then `<dir>/file1.html` |
| Deploy.ExampleFiles | deploy.test.mjs:117-131 | That directory is handed to `addAll` as `www/css/file2.css` then `www/file1.html` |
| Deploy.ExampleDeployment | deploy.test.mjs:152-176 | With the store answering `QmFile2`, `QmFile1`, `QmRoot`, deploying that directory returns `QmRoot` and logs exactly the five calls the test expects |
| Deploy.EmptyDeployment | deploy.test.mjs:54-60 | An empty directory walks to nothing, so nothing is handed to `addAll` (the test); the log is exactly the store's answer, entry by entry, and no CID is returned when that answer does not name `www` (a scenario of the model's own: no test deploys an empty directory) |
| Deploy.ClientOptionsExample | deploy.test.mjs:62-87 | With all five connection settings given, the client is created with exactly the options the test expects |

## Left out

- bin.mjs (loading `.env`, reading `process.env` and `argv`, the `debug` logger, printing
  the result) is configuration and I/O plumbing around `deploy`, and is not part of this
  model.
- The file system is not modelled. `fs.readdir` becomes the `listing` parameter.
  `Dirent.isDirectory` becomes the `File`/`Dir` distinction. A `Dirent` describes a
  symbolic link itself, so the walk never descends through a link: a link, FIFO or socket is
  a `File` entry and its path is returned. A link to a directory then fails when its stream
  is read, an error this model leaves out with the others.
- Errors from reading a directory, opening a file or the remote store are not modelled. The
  code catches none of them, and the model's inputs cannot fail.
- Walker.Resolve: models POSIX `path.resolve` only (separator `/`, and `/` the only root
  that ends in a separator). On Windows Node's `path` is win32: walked paths carry `\`, so
  logical paths such as `www/css\file2.css` result, and drive roots such as `C:\` meet the
  same slice quirk as `/`.
- Deploy.Slice: counts characters (Unicode scalar values), while JavaScript's `length` and
  `slice` count UTF-16 code units. They differ only when a cut falls inside a surrogate
  pair, which happens in `RootDirectoryDropsFirstCharacter`'s case: for directory `/` and a
  top-level file `😀a` the code yields `www/` followed by a lone low surrogate and `a`,
  while the model yields `www/a`.
- Walker.Walk: does not model `Array.prototype.concat(...filePaths)` throwing `RangeError`
  when one directory has more entries than the engine accepts as call arguments (on the
  order of 10^5); the model concatenates any number.
- `path.resolve(srcDir)` is not modelled. `Deploy` takes the already resolved, normalised
  directory.
- `createReadStream(path)` is not modelled as a stream. A `FileEntry` records the walked
  path its content would be read from.
- The IPFS HTTP client is not modelled: its creation, the network behaviour of `addAll`
  and the `5m` timeout's effect. The client options are returned as a value, and the result
  stream is an input.
- `Buffer.from(...).toString('base64')` is a function parameter. Only what holds for every
  encoding is proved.
- `Promise.all` and `for await` scheduling are not modelled. Both preserve order, so the
  model runs sequentially.
- Connection settings are modelled as optional strings, as bin.mjs passes them from the
  environment. The test's numeric port `1234` appears as the string `"1234"`.
- `result.cid.toString()` is not modelled. A CID is already a string in the model.

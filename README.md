# deluge `TorrentInfo` and the file trees, in Dafny

This project models the torrent-description core of deluge's user interface
library, `deluge/ui/common.py`. That core has three parts:

- `TorrentInfo.__init__` decodes a metainfo (or a bare info dict), computes the
  info hash, picks the encoding and the torrent name, and rewrites every file
  record in place. It fills two dictionaries: `paths` (path to record) and
  `dirs` (directory to total length). It then builds the files tree with one of
  the two tree classes and the flat `files` list.
- `FileTree` builds the compact tree layout: a directory is the dict of its
  children and a file a list. `get_tree` turns each non-empty list into a
  tuple. An empty list stays `[]`, because `()` is falsy and the walk keeps
  the node when the callback's result is falsy.
- `FileTree2` builds the typed layout: every node is a dict with a `'type'`
  key, and a directory's children sit under `'contents'`.

The modules follow that structure:

| file | module | what it holds |
|---|---|---|
| `wrappers.dfy` | `Wrappers` | `Option` and `Result` |
| `values.dfy` | `Values` | Python values, insertion-ordered dicts (`Keys`/`Get`/`Put`/`Delete`), lowercase hex |
| `paths.dfy` | `Paths` | `os.path.join`, the `/` split, `dirname`, the ancestor totals |
| `pathtree.dfy` | `PathTree` | the tree both classes build, `get_parent` and the pre-order `walk` |
| `filetree.dfy` | `FileTrees` | the classes `FileTree` and `FileTree2`, `get_tree`, `__str__` |
| `records.dfy` | `Records` | the per-record loop of `__init__` |
| `torrent.dfy` | `Torrent` | `__init__` as a whole and the object's properties |

Python dicts keep insertion order, so a dict is a sequence of (key, value)
pairs. `Put` keeps an existing key in place and appends a new one. The
properties `name`, `info_hash`, `files`, `files_tree`, `metadata` and
`filedata` (lines 314-379) only return what `__init__` stored, so they are
the fields of the datatype `TorrentInfo` that `Parse` returns. Trees are
datatype values held in the classes' fields. Mutating a nested dict in place
becomes assigning the new tree to the field.

`get_parent` is a `while` loop that descends through a list of frames, proved
against the recursive `InsertSegs`. `walk` is a recursive method with a `for`
loop over a directory's entries, proved against the function `Walked`. Its
ghost result is the sequence of calls the callback receives.

The record loop and its inner `while dirname:` loop are methods proved against
the functions `Collect`, `Summary` and `AddToAncestors`. Lemmas then state what
those functions mean: one item per record, in order; each path maps to its last
record; each directory's total is the sum of the lengths strictly below it; and
every node of the built tree comes from one of the paths.

Python's truth value decides whether a callback's result replaces a node
(`callback(...) or node`). The layout decides which results are falsy: an empty
dict or tuple is falsy, while a typed dict always holds `'type'`. The model
writes this out as `IsTruthy` and `Rewrite`.

## Model

| member | source | states |
|---|---|---|
| Values.Put | deluge/ui/common.py:245 | `d[k] = v`: `k` maps to `v`, every other key keeps its value, an existing key keeps its position and a new key goes last |
| Values.Delete | deluge/ui/common.py:230 | `del f[b'path.utf-8']`: the key is gone, every other key keeps its value, and the remaining keys keep their order |
| Values.UnHexHex | deluge/ui/common.py:240 | the hex text a digest becomes decodes back to the digest's bytes, so no information is lost |
| Paths.JoinSegments | deluge/ui/common.py:475-476 | splitting a path at every `/` and joining the names again gives the path back |
| Paths.JoinAllSeparates | deluge/ui/common.py:229-232 | `os.path.join` of parts that are non-empty and hold no separator puts exactly one separator between neighbours |
| Paths.JoinAllFrom | deluge/ui/common.py:229 | `os.path.join(*names)` builds the same path as the walk's joining of those names from the top |
| Paths.JoinAllSegments | deluge/ui/common.py:229 | `os.path.join` of a path's `/`-separated names gives the path back, so a record's path list and the tree's names describe the same file |
| Paths.DirTotalsAreSums | deluge/ui/common.py:246-250 | after the totals loop a directory has an entry exactly when some path lies strictly below it, and its total is the sum of the lengths of all those records, duplicates included |
| Paths.AddToAncestorsBelow | deluge/ui/common.py:247-250 | one run of the `while dirname:` loop adds the length to exactly the directories the path lies strictly below |
| Paths.BelowDirname | deluge/ui/common.py:246 | a path lies below `d` exactly when its dirname is `d` or lies below `d` |
| PathTree.Rewrite | deluge/ui/common.py:523-525 | `callback(path, node) or node` is the node or the callback's result, and any replacement is truthy |
| PathTree.RewriteTruthy | deluge/ui/common.py:436-439 | a truthy result of the callback replaces the node |
| PathTree.InsertAt | deluge/ui/common.py:473-481 | `get_parent` plus the assignment of the leaf equals inserting along the path's names, creating each missing directory |
| PathTree.InsertSegsAt | deluge/ui/common.py:483-490 | after inserting a path: the leaf sits at its names, a directory sits at every proper prefix, nothing lies below the leaf, and every other address is unchanged |
| PathTree.InsertSegsIdempotent | deluge/ui/common.py:483-490 | inserting the same path twice gives the same tree as inserting it once |
| PathTree.BuildOrigins | deluge/ui/common.py:403-410 | every node of a built tree is a file leaf exactly at a path without a trailing `/`, or a fresh directory at a prefix of some path or at a path with a trailing `/` |
| PathTree.WalkDirectory | deluge/ui/common.py:519-530 | the recursive walk replaces each child with `callback(...) or child` and descends into directories; the callback receives every node in pre-order |
| PathTree.WalkedAt | deluge/ui/common.py:519-530 | after the walk, every node is still at its address, rewritten by the callback with the full path of that address, and a directory keeps its child names in order |
| PathTree.WalkIdentity | deluge/ui/common.py:519-530 | a callback that always returns a falsy value (as `__str__`'s `write`) or the node it was given leaves the tree unchanged |
| PathTree.PreOrderVisits | deluge/ui/common.py:432-447 | the callback receives every node of the tree with the full path of its address |
| PathTree.PreOrderOnce | deluge/ui/common.py:432-447 | in a tree whose directories have unique names, the calls correspond one to one to the nodes, in pre-order: every node's address is listed, every call is at a node's address with that node and its full path, and no address is listed twice |
| PathTree.BuildUnique | deluge/ui/common.py:470-490 | the tree the constructors build never holds two children with the same name in one directory |
| FileTrees.FileTree.constructor | deluge/ui/common.py:470-490 | the tree is the result of inserting the paths in order, a trailing `/` giving an empty directory and any other path a `[]` leaf |
| FileTrees.FileTree2.constructor | deluge/ui/common.py:390-410 | the same for the typed layout, with `{'type': 'file'}` leaves and `{'type': 'dir', 'contents': {}}` directories |
| FileTrees.FileTree.Walk | deluge/ui/common.py:508-532 | the new tree is the walked tree and the callback calls are the pre-order of the old tree |
| FileTrees.FileTree2.Walk | deluge/ui/common.py:421-447 | the same, starting from the root `{'contents': ..., 'type': 'dir'}` |
| FileTrees.FileTree.GetTree | deluge/ui/common.py:492-506 | `get_tree` returns the tree after the `to_tuple` walk, and stores that tree too |
| FileTrees.ToTupleAt | deluge/ui/common.py:500-503 | after `get_tree` a non-empty list leaf is the tuple of its elements, a non-empty text or byte string the tuple of its characters or byte values, an empty one stays as it was (since `()` is falsy), a tuple stays, and directories keep their children |
| FileTrees.JoinedNamesShape | deluge/ui/common.py:538-539 | a node's full path has one `/` per level below the top and ends with the node's own name |
| FileTrees.RenderedNode | deluge/ui/common.py:534-544 | `__str__` has a line for every node, indented two spaces per level, holding its name, with `/` after a directory |
| Records.Lookup | deluge/ui/common.py:249 | `v[k]` succeeds exactly on a dict holding `k` and yields its value; a missing key is a KeyError for that key |
| Records.JoinParts | deluge/ui/common.py:229 | `os.path.join(*parts)` needs a non-empty list of byte strings |
| Records.JoinPartsSeparates | deluge/ui/common.py:229-232 | a path list of non-empty byte strings without `b'/'` joins to those strings with one `b'/'` between neighbours and nothing else |
| Records.RecordPath | deluge/ui/common.py:228-232 | `path.utf-8` is preferred, decoded without an encoding and deleted; otherwise `path` is decoded with the torrent's encoding; the record's other keys keep their order; it fails exactly when the chosen key's value cannot be joined, with a KeyError for `path` when neither key is present |
| Records.NormaliseDigest | deluge/ui/common.py:239-244 | a digest of exactly the expected size becomes its hex text; other keys and other sizes are left alone; it fails exactly when the value has no `len()`, or has the size but is not a byte string |
| Records.NormaliseDigests | deluge/ui/common.py:239-244 | a 20-byte `sha1`, a 16-byte `ed2k` and a 20-byte `filehash` become their hex text, every other key keeps its value, and the step fails exactly when one of the three checks fails |
| Records.FinishRecord | deluge/ui/common.py:239-250 | the digests become hex text and the other keys stay; it fails exactly when a digest check fails or the path has a directory part and the record has no integer length, with a KeyError for a missing length |
| Records.Stamp | deluge/ui/common.py:237-238 | the record gets the full path and its index, and every other key keeps its value; a key already present keeps its place and a new one goes last, `path` before `index` |
| Records.FinishStamped | deluge/ui/common.py:237-244 | the digest step keeps the path, the index and the length that were stamped, and cannot bring `path.utf-8` back |
| Records.RewriteRecord | deluge/ui/common.py:227-250 | a rewritten record holds its full path (prefixed with the name when there are several files) and its index, has no `path.utf-8`, and keeps its length, which is an integer whenever the path has a directory part |
| Records.RewriteRecordOutcome | deluge/ui/common.py:227-250 | the loop body fails exactly when the record is not a dict, its path cannot be resolved, the path is not handled, a digest check fails, or a path with a directory part has no integer length, each with its error; on success every key but `path.utf-8` (deleted), `path`, `index` (set) and the digests (hex text) keeps its value, and the keys are the record's in order without `path.utf-8`, followed by `path` and then `index` where they were not present |
| Records.AddLength | deluge/ui/common.py:246-250 | the `while dirname:` loop adds the length to every ancestor directory of the path |
| Records.RewriteRecords | deluge/ui/common.py:226-250 | the record loop yields the rewritten records, the `paths` map and the `dirs` totals of its items, or the error of the first failing record |
| Records.CollectSucceeds | deluge/ui/common.py:227-245 | the loop succeeds exactly when every record rewrites, and then yields one item per record, in order |
| Records.CollectFailure | deluge/ui/common.py:227-250 | a failing loop fails with the error of its first failing record, after all earlier records succeeded |
| Records.LastWithIsLast | deluge/ui/common.py:245 | `LastWith` finds the record of the last item with a path exactly when some item has that path |
| Records.PathMapLast | deluge/ui/common.py:245 | `paths[path] = f` leaves each path mapped to its last record |
| Records.PathMapKeys | deluge/ui/common.py:245 | the keys of `paths` are exactly the items' paths |
| Records.DirsAreSums | deluge/ui/common.py:246-250 | after the loop a directory has a total exactly when a record's path lies below it, and the total sums all those records' lengths |
| Records.CollectRecords | deluge/ui/common.py:227-238 | every item of a successful loop is the rewrite of the record at its position, stamped with that index and its accepted path |
| Records.PrefixedBelow | deluge/ui/common.py:234-235 | prefixing the torrent name puts a relative path strictly below the name's directory |
| Paths.DirnameAgrees | deluge/ui/common.py:246-250 | on a path with no leading `/` and no `//`, `os.path.dirname` is everything before the last `/`, and the result has that shape again |
| Paths.CleanLoopEnds | deluge/ui/common.py:247-250 | on such a path the `while dirname:` loop ends within as many steps as the path is long |
| Paths.AcceptedLoopEnds | deluge/ui/common.py:246-250 | on every path the model accepts, `os.path.dirname` is the model's `Dirname` and the loop ends |
| Paths.LeadingSlashLoops | deluge/ui/common.py:235-250 | as written, a path starting with `/` never leaves the loop: its dirname chain reaches `/`, whose dirname is `/`; a torrent name in front does not help, since joining with an absolute path keeps only that path |
| Torrent.Metainfo | deluge/ui/common.py:183-202 | with metadata, the dict is `{b'info': bdecode(metadata)}` and `filedata` its encoding; otherwise the dict is the decoded metainfo and `filedata` the metainfo itself; an undecodable input fails |
| Torrent.EncodingOf | deluge/ui/common.py:207-211 | `encoding` when truthy, otherwise `codepage` when truthy, otherwise `b'UTF-8'`; the result is always truthy |
| Torrent.NameOf | deluge/ui/common.py:213-219 | `name.utf-8` is preferred and decoded without an encoding; otherwise the encoding is decoded to text and `name` is decoded with it; both failure cases are stated |
| Torrent.ReadHeader | deluge/ui/common.py:204-219 | the info hash is the hex SHA-1 of the bencoded info dict, the header keeps the decoded dict and the file data, and its name and encoding hint are what `NameOf` gives for the info dict and the chosen encoding; it fails exactly when the metainfo cannot be decoded, is not a dict, has no `info` key (a KeyError) or yields no name |
| Torrent.WithRecords | deluge/ui/common.py:227-244 | the metainfo after the loop: the `files` container of the info dict holds the rewritten records, and every other entry at both levels is unchanged |
| Torrent.RecordsOf | deluge/ui/common.py:225-227 | the loop visits the elements of a list, nothing for an empty container, and fails on any other value |
| Torrent.FlatFiles | deluge/ui/common.py:288-297 | the loop that builds `files` computes `FlatList` |
| Torrent.FlatListSpec | deluge/ui/common.py:294-297 | the flat list is complete exactly when every record holds a path and a length, and then has one entry per record, in order |
| Torrent.CompactStepLeaf | deluge/ui/common.py:265-268 | FileTree's callback turns a file leaf into `[index, length, True]` of its path's record |
| Torrent.CompactFileLeaf | deluge/ui/common.py:263-272 | in the compact tree, every file is `(index, length, True)` of the last record with its path |
| Torrent.TypedStepDir | deluge/ui/common.py:254-259 | FileTree2's callback gives a directory its total as `b'length'` and `'download': True` |
| Torrent.TypedStepLeaf | deluge/ui/common.py:254-259 | FileTree2's callback gives a file leaf the keys of its path's record and `'download': True` |
| Torrent.TypedDirNode | deluge/ui/common.py:252-262 | in the typed tree, every directory has a total (the sum of the lengths below it), that length and `'download': True`, and keeps its children |
| Torrent.TypedFileNode | deluge/ui/common.py:252-262 | in the typed tree, every file is `{'type': 'file'}` updated with the last record with its path, then `'download': True` |
| Torrent.ParseTorrent | deluge/ui/common.py:181-301 | `__init__` step by step, using the tree classes, computes `Parse` |
| Torrent.ParseMultiFile | deluge/ui/common.py:222-297 | a multi-file torrent that parses has one stamped item per record, in order, each with a length; the tree is built from them; the flat list holds their paths and lengths in order; the name, hash and file data come from the header; the metadata is the metainfo with the rewritten records |
| Torrent.FlatListOfItems | deluge/ui/common.py:294-297 | the flat list of the rewritten records holds each record's path and length, in order |
| Torrent.ParseSingleFile | deluge/ui/common.py:273-301 | a single-file torrent parses exactly when its info dict has a length, and then describes one file with the torrent's name, at index 0, marked for download; in the typed layout the root holds only `'contents'`, without the `'type': 'dir'` that FileTree2's root has (line 391) |

## Findings

| source | as written | input that shows it | evidently intended | confidence | as-written member | corrected member |
|---|---|---|---|---|---|---|
| deluge/ui/common.py:246-250 | `while dirname:` steps with `os.path.dirname`, and `os.path.dirname('/')` is `'/'`, so a path starting with `/` never leaves the loop | a file record whose path is `[b'/x']`; in a multi-file torrent `os.path.join(name, '/x')` is `'/x'` as well | the loop adds the length to each ancestor directory and then stops | not executed | Paths.LeadingSlashLoops | Paths.AcceptedLoopEnds |

The model's record loop rejects such a path with `UnsupportedPath` before the
totals loop (`Records.RewriteRecordOutcome`), and `Paths.AcceptedLoopEnds`
shows that on every path it lets through the loop ends and steps exactly as
the model's `Dirname` does.

## Left out

- Reading the torrent file named by `filename` (lines 189-196) and the logging. The model takes the metainfo bytes as they are.
- `bencode`, `bdecode`, SHA-1 and `decode_bytes` are foreign code. They are uninterpreted functions, the fields of `Records.Env`.
- `as_dict` (line 312) is left out: it is `getattr` over names chosen at run time.
- Torrent.NameOf: the `.decode()` of a byte-string encoding (line 218) is assumed to succeed; the model keeps the encoding's bytes as the hint `DecodedEncoding(bytes)` and does not model a UnicodeDecodeError. An encoding that is not a byte string fails with `WrongType`, where Python would raise an AttributeError.
- The hex digest of lines 240-244 uses Python 2's `hex` codec, modelled as lowercase hex text.
- Line 242 reads `f['ed2k']` with a text key. The model reads the same key as its test, `b'ed2k'`, which is what Python 2 (where the two spellings are one key) does.
- Paths that are empty, start with `/` or contain `//` fail with `UnsupportedPath`. On such a path Python raises, loops (see Findings) or builds a tree with empty names.
- A path that has to descend through an earlier file fails with `PathThroughFile`. Python raises there too, but with another exception: in the compact layout `parent.get` on a list (line 477) raises an AttributeError, and assigning into the list (lines 487 and 490) a TypeError; in the typed layout reading `'contents'` of a file (lines 397, 407 and 410) raises a KeyError.
- FileTrees.FileTree2.constructor: where `'contents'` falls among a node's keys is not modelled. The root is `{'contents': ..., 'type': 'dir'}` (line 391), a created directory `{'type': 'dir', 'contents': ...}` (line 399), and `__init__`'s callback later appends `b'length'` and `'download'` (lines 257-259). The model holds a directory's attributes and its children apart, so only the order within each is kept.
- `FileTree2.walk`'s replacement of `\` by `/` in the full path (line 434) is not modelled.
- PathTree.WalkDirectory: requires the callback to map a directory to a directory with the same children (`KeepsDirectories`). The source would descend into whatever the callback returned. Every callback the source passes meets this.
- FileTrees.FileTree.Walk: requires `KeepsDirectories`, as `PathTree.WalkDirectory` does.
- FileTrees.FileTree2.Walk: requires `KeepsDirectories`, as `PathTree.WalkDirectory` does.
- FileTree2's walk callback in `__init__` updates the node in place and returns None. The model's callback returns the updated node instead, which replaces the node.
- FileTree's walk callback raises a KeyError for a record without a length. The model keeps the leaf instead. The flat list then fails with the same KeyError, so `Parse` reports the same error.
- Records.RecordPath: a `path` value that is not a list or tuple of byte strings fails with `WrongType`, including containers Python's `os.path.join(*x)` would accept.
- Records.JoinParts: the same. Only a non-empty list or tuple of byte strings is joined; any other container (a dict of byte strings, say) fails with `WrongType`.
- Records.RewriteRecordOutcome: a boolean `length` fails with `WrongType`, where Python's `0 + True` would add 1. The bencode codec never decodes a boolean.
- FileTrees.ToTuple: `tuple()` is modelled for list, tuple, text and byte-string leaves. An integer or boolean leaf, where Python raises a TypeError, is kept. A dict leaf is treated as a file, where Python's `isinstance(item, dict)` would treat it as a directory. Only a callback passed to `walk` can create such leaves; `TorrentInfo` creates list leaves only.
- FileTrees.FileTree.GetTree: the same, since `get_tree` walks with `ToTuple`.
- Values.Value: a `Dict` may hold a key twice, which a Python dict cannot. `bdecode` is uninterpreted and its results are not constrained to unique keys. `Get` reads the first entry with the key. The trees the classes build do have unique names (`PathTree.BuildUnique`).
- Torrent.TypedStepDir: a directory without a total, and a file without a record, would make the typed callback fail. The model keeps the node there instead. `TypedDirNode` and `TypedFileNode` show that neither case occurs.

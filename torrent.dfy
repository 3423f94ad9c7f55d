/**
 * TorrentInfo.__init__ of deluge/ui/common.py: decoding the metainfo, the
 * info hash, the encoding and the name, the record loop (module Records),
 * the files tree in either layout (module FileTrees) and the flat file list.
 * The properties of the object are the fields of `TorrentInfo`.
 */
module Torrent {
  import opened Wrappers
  import opened Values
  import opened Paths
  import opened PathTree
  import opened Records
  import opened FileTrees

  const InfoKey: Key := BKey([105, 110, 102, 111])                                // b'info'
  const NameKey: Key := BKey([110, 97, 109, 101])                                 // b'name'
  const NameUtf8Key: Key := BKey([110, 97, 109, 101, 46, 117, 116, 102, 45, 56])  // b'name.utf-8'
  const FilesKey: Key := BKey([102, 105, 108, 101, 115])                          // b'files'
  const EncodingKey: Key := BKey([101, 110, 99, 111, 100, 105, 110, 103])         // b'encoding'
  const CodepageKey: Key := BKey([99, 111, 100, 101, 112, 97, 103, 101])          // b'codepage'
  const DefaultEncoding: Value := Bytes([85, 84, 70, 45, 56])                     // b'UTF-8'
  const DownloadKey: Key := SKey("download")

  /** An element of `files`: `{'path': ..., 'size': ..., 'download': True}`. */
  datatype FileEntry = FileEntry(path: Value, size: Value, download: bool)

  /** `files_tree`: FileTree's dict of entries, or FileTree2's root node. */
  datatype FilesTree = CompactTree(entries: Entries) | TypedTree(root: Node)

  /** The object's properties once __init__ has completed. */
  datatype TorrentInfo = TorrentInfo(
    name: string,
    infoHash: string,
    files: seq<FileEntry>,
    filesTree: FilesTree,
    metadata: Value,
    filedata: seq<byte>)

  // ---------------------------------------------------------------------
  // The metainfo, the hash, the encoding and the name

  /**
   * The metainfo dictionary and the bytes `filedata` returns: with metadata,
   * `{b'info': bdecode(metadata)}` and its encoding; otherwise the decoded
   * metainfo and the metainfo itself.
   */
  function Metainfo(metainfo: seq<byte>, metadata: seq<byte>, env: Env): (r: Result<(Value, seq<byte>), InitError>)
    ensures metadata != [] ==> (r.Success? <==> env.bdecode(metadata).Some?)
    ensures metadata != [] && r.Success? ==>
      r.value.0 == Dict([(InfoKey, env.bdecode(metadata).value)]) && r.value.1 == env.bencode(r.value.0)
    ensures metadata == [] ==> (r.Success? <==> env.bdecode(metainfo).Some?)
    ensures metadata == [] && r.Success? ==> r.value == (env.bdecode(metainfo).value, metainfo)
  {
    if metadata != [] then
      match env.bdecode(metadata)
      case None => Failure(MetadataUndecodable)
      case Some(info) =>
        var d := Dict([(InfoKey, info)]);
        Success((d, env.bencode(d)))
    else
      match env.bdecode(metainfo)
      case None => Failure(Undecodable)
      case Some(d) => Success((d, metainfo))
  }

  /**
   * `encoding` when truthy, else `codepage` when truthy, else b'UTF-8': the
   * result is always truthy, and codepage is used only when encoding is not.
   */
  function EncodingOf(d: seq<(Key, Value)>): (r: Value)
    ensures Truthy(r)
    ensures Get(d, EncodingKey).Some? && Truthy(Get(d, EncodingKey).value) ==> r == Get(d, EncodingKey).value
    ensures r == DefaultEncoding || Get(d, EncodingKey) == Some(r) || Get(d, CodepageKey) == Some(r)
    ensures Get(d, CodepageKey) == Some(r) && r != DefaultEncoding && Get(d, EncodingKey) != Some(r) ==>
      Get(d, EncodingKey).None? || !Truthy(Get(d, EncodingKey).value)
    ensures ((Get(d, EncodingKey).None? || !Truthy(Get(d, EncodingKey).value)) &&
             Get(d, CodepageKey).Some? && Truthy(Get(d, CodepageKey).value))
      ==> r == Get(d, CodepageKey).value
    ensures ((Get(d, EncodingKey).None? || !Truthy(Get(d, EncodingKey).value)) &&
             (Get(d, CodepageKey).None? || !Truthy(Get(d, CodepageKey).value)))
      ==> r == DefaultEncoding
  {
    var e := Get(d, EncodingKey);
    var c := Get(d, CodepageKey);
    if e.Some? && Truthy(e.value) then e.value
    else if c.Some? && Truthy(c.value) then c.value
    else DefaultEncoding
  }

  /**
   * The torrent name and the encoding argument the record paths are decoded
   * with. 'name.utf-8' is preferred and decoded without an encoding, the raw
   * encoding value is then passed on; otherwise the encoding must be a byte
   * string, decoded to text first, and 'name' is decoded with it.
   */
  function NameOf(info: Value, encoding: Value, env: Env): (r: Result<(string, Hint), InitError>)
    ensures r.Success? ==> info.Dict?
    ensures r.Success? && Get(info.entries, NameUtf8Key).Some? ==>
      r.value == (env.decodeBytes(Get(info.entries, NameUtf8Key).value, NoHint), RawEncoding(encoding))
    ensures r.Success? && Get(info.entries, NameUtf8Key).None? ==>
      encoding.Bytes? && Get(info.entries, NameKey).Some? &&
      r.value == (env.decodeBytes(Get(info.entries, NameKey).value, DecodedEncoding(encoding.bytes)),
                  DecodedEncoding(encoding.bytes))
    ensures info.Dict? && r.Failure? ==>
      Get(info.entries, NameUtf8Key).None? && (!encoding.Bytes? || Get(info.entries, NameKey).None?)
  {
    if !info.Dict? then Failure(WrongType)
    else
      match Get(info.entries, NameUtf8Key)
      case Some(v) => Success((env.decodeBytes(v, NoHint), RawEncoding(encoding)))
      case None =>
        if !encoding.Bytes? then Failure(WrongType)
        else
          var name :- Lookup(info, NameKey);
          var hint := DecodedEncoding(encoding.bytes);
          Success((env.decodeBytes(name, hint), hint))
  }

  /** What __init__ reads before the file records. */
  datatype Header = Header(
    dict: Value,                 // the metainfo dictionary
    filedata: seq<byte>,
    info: seq<(Key, Value)>,     // its b'info' dictionary
    infoHash: string,
    name: string,
    hint: Hint)

  function ReadHeader(metainfo: seq<byte>, metadata: seq<byte>, env: Env): (r: Result<Header, InitError>)
    ensures r.Success? ==> Metainfo(metainfo, metadata, env).Success?
    ensures r.Success? ==>
      var (d, filedata) := Metainfo(metainfo, metadata, env).value;
      d.Dict? && Get(d.entries, InfoKey) == Some(Dict(r.value.info)) && d == r.value.dict &&
      filedata == r.value.filedata &&
      r.value.infoHash == Hex(env.sha1(env.bencode(Dict(r.value.info))))
    ensures r.Success? ==>
      var d := Metainfo(metainfo, metadata, env).value.0;
      d.Dict? && NameOf(Dict(r.value.info), EncodingOf(d.entries), env) == Success((r.value.name, r.value.hint))
    ensures r.Success? <==>
      Metainfo(metainfo, metadata, env).Success? &&
      var d := Metainfo(metainfo, metadata, env).value.0;
      d.Dict? && Get(d.entries, InfoKey).Some? &&
      NameOf(Get(d.entries, InfoKey).value, EncodingOf(d.entries), env).Success?
    ensures Metainfo(metainfo, metadata, env).Failure? ==> r == Failure(Metainfo(metainfo, metadata, env).error)
    ensures Metainfo(metainfo, metadata, env).Success? ==>
      var d := Metainfo(metainfo, metadata, env).value.0;
      (!d.Dict? ==> r == Failure(WrongType)) &&
      (d.Dict? && Get(d.entries, InfoKey).None? ==> r == Failure(MissingKey(InfoKey)))
  {
    var (d, filedata) :- Metainfo(metainfo, metadata, env);
    var info :- Lookup(d, InfoKey);
    var (name, hint) :- NameOf(info, EncodingOf(d.entries), env);
    Success(Header(d, filedata, info.entries, Hex(env.sha1(env.bencode(info))), name, hint))
  }

  // ---------------------------------------------------------------------
  // The multi-file layout

  /**
   * The records `enumerate(info_dict[b'files'])` visits: the elements of a
   * list, none for an empty container; any other value fails on its first
   * element or on len().
   */
  function RecordsOf(files: Value): (r: Result<seq<Value>, InitError>)
    ensures r.Success? <==> files.List? || files.Tuple? || Len(files) == Some(0)
    ensures r.Success? ==> Len(files) == Some(|r.value|)
    ensures files.List? || files.Tuple? ==> r == Success(files.items)
  {
    if files.List? || files.Tuple? then Success(files.items)
    else if Len(files) == Some(0) then Success([])
    else Failure(WrongType)
  }

  /** FileTree's walk callback: a file becomes `[index, length, True]` of its path's record. */
  function CompactStep(paths: seq<(string, Value)>): Callback {
    (p: string, n: Node) =>
      if n.Dir? then Some(n)
      else
        var rec := Get(paths, p);
        if rec.Some? && rec.value.Dict? && Get(rec.value.entries, IndexKey).Some? &&
           Get(rec.value.entries, LengthKey).Some?
        then Some(File(List([Get(rec.value.entries, IndexKey).value, Get(rec.value.entries, LengthKey).value, Bool(true)])))
        else None
  }

  lemma CompactStepKeeps(paths: seq<(string, Value)>)
    ensures KeepsDirectories(Compact, CompactStep(paths))
  {
  }

  /**
   * `item.update(other)`: each key of `other`, in order, put into `item`
   * with `other`'s value for it.
   */
  function Update(item: seq<(Key, Value)>, other: seq<(Key, Value)>, n: nat): (r: seq<(Key, Value)>)
    requires n <= |other|
    ensures forall k :: Get(r, k) == if k in Keys(other)[..n] then Get(other, k) else Get(item, k)
  {
    if n == 0 then item
    else
      var k := other[n - 1].0;
      assert Keys(other)[n - 1] == k;
      assert Keys(other)[..n] == Keys(other)[..n - 1] + [k];
      Put(Update(item, other, n - 1), k, Get(other, k).value)
  }

  function UpdateAll(item: seq<(Key, Value)>, other: seq<(Key, Value)>): seq<(Key, Value)> {
    Update(item, other, |other|)
  }

  /**
   * FileTree2's walk callback: a directory takes its total length, a file
   * the keys of its path's record, and both `'download': True`.
   */
  function TypedStep(paths: seq<(string, Value)>, dirs: map<string, int>): Callback {
    (p: string, n: Node) => TypedUpdate(paths, dirs, p, n)
  }

  function TypedUpdate(paths: seq<(string, Value)>, dirs: map<string, int>, p: string, n: Node): Option<Node> {
    if n.Dir? then DirWithTotal(dirs, p, n.attrs, n.entries) else FileWithRecord(paths, p, n.value)
  }

  /** `dirinfo['length'] = dirs[path]; dirinfo['download'] = True` (a KeyError without a total). */
  function DirWithTotal(dirs: map<string, int>, p: string, attrs: seq<(Key, Value)>, es: Entries): Option<Node> {
    if p in dirs then Some(Dir(Put(Put(attrs, LengthKey, Int(dirs[p])), DownloadKey, Bool(true)), es))
    else None
  }

  /** `fileinfo.update(paths[path]); fileinfo['download'] = True` (an error without a record). */
  function FileWithRecord(paths: seq<(string, Value)>, p: string, v: Value): Option<Node> {
    var rec := Get(paths, p);
    if v.Dict? && rec.Some? && rec.value.Dict?
    then Some(File(Dict(Put(UpdateAll(v.entries, rec.value.entries), DownloadKey, Bool(true)))))
    else None
  }

  lemma TypedStepKeeps(paths: seq<(string, Value)>, dirs: map<string, int>)
    ensures KeepsDirectories(Typed, TypedStep(paths, dirs))
  {
  }

  /** FileTree(paths), walked with the compact callback, then get_tree. */
  function CompactFiles(paths: seq<(string, Value)>): Entries {
    CompactStepKeeps(paths);
    Tupled(Walked(Compact, CompactStep(paths), Dir([], Build(Keys(paths), ListLeaf, CompactDir)), ""))
  }

  /** FileTree2(list(paths)), walked with the typed callback; get_tree is the root. */
  function TypedFiles(paths: seq<(string, Value)>, dirs: map<string, int>): Node {
    TypedStepKeeps(paths, dirs);
    var root := Dir([TypeTag("dir")], Build(Keys(paths), TypedLeaf, TypedDir));
    Dir(root.attrs, Walked(Typed, TypedStep(paths, dirs), root, ""))
  }

  function MultiTree(parsed: Parsed, typed: bool): FilesTree {
    if typed then TypedTree(TypedFiles(parsed.paths, parsed.dirs))
    else CompactTree(CompactFiles(parsed.paths))
  }

  /** The tree classes can insert every path: none descends through a file. */
  predicate Insertable(keys: seq<string>, typed: bool) {
    if typed then Buildable(keys, TypedLeaf, TypedDir) else Buildable(keys, ListLeaf, CompactDir)
  }

  /** `{'path': f[b'path'], 'size': f[b'length'], 'download': True}` for each record in turn. */
  function FlatList(records: seq<Value>): Result<seq<FileEntry>, InitError> {
    if records == [] then Success([])
    else
      var init :- FlatList(records[..|records| - 1]);
      var f := records[|records| - 1];
      var path :- Lookup(f, PathKey);
      var size :- Lookup(f, LengthKey);
      Success(init + [FileEntry(path, size, true)])
  }

  /**
   * The metainfo dictionary after the record loop rewrote its records in
   * place: the 'files' container of its info dict holds the rewritten
   * records, and every other entry, at either level, is as it was.
   */
  function WithRecords(d: Value, info: seq<(Key, Value)>, files: Value, records: seq<Value>): (r: Value)
    ensures r.Dict? <==> d.Dict?
    ensures d.Dict? ==> Keys(r.entries) == Keys(Put(d.entries, InfoKey, Dict(info)))
    ensures d.Dict? ==> forall k :: k != InfoKey ==> Get(r.entries, k) == Get(d.entries, k)
    ensures d.Dict? ==>
      Get(r.entries, InfoKey).Some? && Get(r.entries, InfoKey).value.Dict? &&
      var info' := Get(r.entries, InfoKey).value.entries;
      Keys(info') == Keys(Put(info, FilesKey, files)) &&
      (forall k :: k != FilesKey ==> Get(info', k) == Get(info, k)) &&
      Get(info', FilesKey).Some? &&
      (files.List? ==> Get(info', FilesKey).value == List(records)) &&
      (files.Tuple? ==> Get(info', FilesKey).value == Tuple(records)) &&
      (!files.List? && !files.Tuple? ==> Get(info', FilesKey).value == files)
  {
    var files' := if files.List? then List(records) else if files.Tuple? then Tuple(records) else files;
    if d.Dict? then Dict(Put(d.entries, InfoKey, Dict(Put(info, FilesKey, files')))) else d
  }

  // ---------------------------------------------------------------------
  // The single-file layout

  /** `{name: (0, length, True)}`, or the typed `{'contents': {name: {...}}}`. */
  function SingleTree(name: string, length: Value, typed: bool): FilesTree {
    if typed then
      TypedTree(Dir([], [(name, File(Dict([TypeTag("file"), (SKey("index"), Int(0)),
                                            (SKey("length"), length), (DownloadKey, Bool(true))])))]))
    else
      CompactTree([(name, File(Tuple([Int(0), length, Bool(true)])))])
  }

  // ---------------------------------------------------------------------
  // __init__

  /** What __init__ leaves behind, or how it ends early. `filetree == 2` selects FileTree2. */
  function Parse(metainfo: seq<byte>, metadata: seq<byte>, filetree: int, env: Env): Result<TorrentInfo, InitError> {
    var h :- ReadHeader(metainfo, metadata, env);
    var typed := filetree == 2;
    var files := Get(h.info, FilesKey);
    if files.Some? then
      var records :- RecordsOf(files.value);
      var prefix := if |records| > 1 then h.name else "";
      var parsed :- RewriteAll(records, prefix, h.hint, env);
      if !Insertable(Keys(parsed.paths), typed) then Failure(PathThroughFile)
      else
        var list :- FlatList(parsed.records);
        Success(TorrentInfo(h.name, h.infoHash, list, MultiTree(parsed, typed),
                            WithRecords(h.dict, h.info, files.value, parsed.records), h.filedata))
    else
      var length :- Lookup(Dict(h.info), LengthKey);
      Success(TorrentInfo(h.name, h.infoHash, [FileEntry(Str(h.name), length, true)],
                          SingleTree(h.name, length, typed), h.dict, h.filedata))
  }

  lemma {:induction false} FlatFailureSticks(records: seq<Value>, k: nat)
    requires k <= |records| && FlatList(records[..k]).Failure?
    ensures FlatList(records) == FlatList(records[..k])
    decreases |records| - k
  {
    if k < |records| {
      TakeTake(records, k);
      FlatFailureSticks(records, k + 1);
    } else {
      TakeAll(records);
    }
  }

  /** The `for f in info_dict[b'files']` loop that builds `files`. */
  method FlatFiles(records: seq<Value>) returns (r: Result<seq<FileEntry>, InitError>)
    ensures r == FlatList(records)
  {
    var files: seq<FileEntry> := [];
    for j := 0 to |records|
      invariant FlatList(records[..j]) == Success(files)
    {
      TakeTake(records, j);
      var path := Lookup(records[j], PathKey);
      if path.Failure? {
        FlatFailureSticks(records, j + 1);
        return Failure(path.error);
      }
      var size := Lookup(records[j], LengthKey);
      if size.Failure? {
        FlatFailureSticks(records, j + 1);
        return Failure(size.error);
      }
      files := files + [FileEntry(path.value, size.value, true)];
    }
    TakeAll(records);
    return Success(files);
  }

  /** __init__ step by step, building the tree with the FileTree classes. */
  method ParseTorrent(metainfo: seq<byte>, metadata: seq<byte>, filetree: int, env: Env)
      returns (r: Result<TorrentInfo, InitError>)
    ensures r == Parse(metainfo, metadata, filetree, env)
  {
    var h := ReadHeader(metainfo, metadata, env);
    if h.Failure? {
      return Failure(h.error);
    }
    var header := h.value;
    var files := Get(header.info, FilesKey);
    if files.None? {
      var length := Lookup(Dict(header.info), LengthKey);
      if length.Failure? {
        return Failure(length.error);
      }
      return Success(TorrentInfo(header.name, header.infoHash, [FileEntry(Str(header.name), length.value, true)],
                                 SingleTree(header.name, length.value, filetree == 2), header.dict, header.filedata));
    }
    var records := RecordsOf(files.value);
    if records.Failure? {
      return Failure(records.error);
    }
    var prefix := if |records.value| > 1 then header.name else "";
    var parsed := RewriteRecords(records.value, prefix, header.hint, env);
    if parsed.Failure? {
      return Failure(parsed.error);
    }
    var paths, dirs := parsed.value.paths, parsed.value.dirs;
    var filesTree: FilesTree;
    if filetree == 2 {
      if !Buildable(Keys(paths), TypedLeaf, TypedDir) {
        return Failure(PathThroughFile);
      }
      var tree := new FileTree2(Keys(paths));
      TypedStepKeeps(paths, dirs);
      var _ := tree.Walk(TypedStep(paths, dirs));
      var root := tree.GetTree();
      filesTree := TypedTree(root);
    } else {
      if !Buildable(Keys(paths), ListLeaf, CompactDir) {
        return Failure(PathThroughFile);
      }
      var tree := new FileTree(Keys(paths));
      CompactStepKeeps(paths);
      var _ := tree.Walk(CompactStep(paths));
      var entries := tree.GetTree();
      filesTree := CompactTree(entries);
    }
    var list := FlatFiles(parsed.value.records);
    if list.Failure? {
      return Failure(list.error);
    }
    return Success(TorrentInfo(header.name, header.infoHash, list.value, filesTree,
                               WithRecords(header.dict, header.info, files.value, parsed.value.records),
                               header.filedata));
  }

  // ---------------------------------------------------------------------
  // The flat list

  /** A record the flat list can take: a dict holding a path and a length. */
  predicate Listable(v: Value) {
    v.Dict? && Get(v.entries, PathKey).Some? && Get(v.entries, LengthKey).Some?
  }

  /** The flat-list entry of such a record. */
  function EntryOf(v: Value): FileEntry
    requires Listable(v)
  {
    FileEntry(Get(v.entries, PathKey).value, Get(v.entries, LengthKey).value, true)
  }

  /** FlatList builds its entries in record order, each EntryOf its record. */
  ghost predicate ListsAll(records: seq<Value>, list: seq<FileEntry>) {
    |list| == |records| &&
    forall j :: 0 <= j < |records| ==> Listable(records[j]) && list[j] == EntryOf(records[j])
  }

  lemma ListsAllSnoc(records: seq<Value>, list: seq<FileEntry>, v: Value)
    requires ListsAll(records, list) && Listable(v)
    ensures ListsAll(records + [v], list + [EntryOf(v)])
  {
  }

  lemma FlatListLast(records: seq<Value>)
    requires records != []
    ensures var init, last := records[..|records| - 1], records[|records| - 1];
      FlatList(init).Success? && Listable(last) ==>
        FlatList(records) == Success(FlatList(init).value + [EntryOf(last)])
    ensures var init, last := records[..|records| - 1], records[|records| - 1];
      FlatList(records).Success? <==> FlatList(init).Success? && Listable(last)
  {
  }

  /**
   * The list is complete exactly when every record is a dict holding a path
   * and a length, and then has one entry per record, in order.
   */
  lemma {:induction false} FlatListSpec(records: seq<Value>)
    ensures FlatList(records).Success? <==> forall j :: 0 <= j < |records| ==> Listable(records[j])
    ensures FlatList(records).Success? ==> ListsAll(records, FlatList(records).value)
  {
    if records != [] {
      var init, last := records[..|records| - 1], records[|records| - 1];
      FlatListSpec(init);
      FlatListLast(records);
      SplitLast(records);
      assert forall j :: 0 <= j < |init| ==> init[j] == records[j];
      if FlatList(records).Success? {
        ListsAllSnoc(init, FlatList(init).value, last);
      }
    }
  }

  // ---------------------------------------------------------------------
  // Where each node of the files tree comes from

  /** A path that ends in '/' lies directly below itself without the '/'. */
  lemma SlashBelow(k: string)
    requires AcceptedPath(k) && EndsWithSlash(k)
    ensures Below(StripSlash(k), k)
  {
    var q := StripSlash(k);
    assert q == k[..|k| - 1];
    assert Segments("") == [""];
    assert Segments(q)[0] != "";
    assert k[..|q|] == q && k[|q|] == '/';
  }

  lemma BelowExtend(d: string, q: string, k: string)
    requires Below(d, q) && |q| <= |k| && k[..|q|] == q
    ensures Below(d, k)
  {
    assert k[..|d|] == q[..|d|];
  }

  /** The path joined from a proper prefix of a path's names lies strictly below the path. */
  lemma PrefixBelow(k: string, t: seq<string>)
    requires AcceptedPath(k) && |t| >= 1 && IsProperPrefix(t, SegsOf(k))
    ensures Below(JoinFrom("", t), k)
  {
    var q := StripSlash(k);
    JoinSegments(q);
    SegmentsAreNames(q);
    JoinPrefixBelow(SegsOf(k), |t|);
    assert SegsOf(k)[..|t|] == t;
    assert k[..|q|] == q;
    BelowExtend(JoinFrom("", t), q, k);
  }

  /** A file node of a tree built from accepted paths sits exactly at one of them. */
  lemma FileNodePath(keys: seq<string>, fileLeaf: Node, empty: EmptyDir, t: seq<string>)
    requires fileLeaf.File? && Buildable(keys, fileLeaf, empty) && |t| >= 1
    requires forall i :: 0 <= i < |keys| ==> AcceptedPath(keys[i])
    requires GetAt(Build(keys, fileLeaf, empty), t).Some? && GetAt(Build(keys, fileLeaf, empty), t).value.File?
    ensures JoinFrom("", t) in keys
    ensures GetAt(Build(keys, fileLeaf, empty), t) == Some(fileLeaf)
  {
    BuildOrigins(keys, fileLeaf, empty, t);
    var i :| 0 <= i < |keys| && !EndsWithSlash(keys[i]) && SegsOf(keys[i]) == t;
    assert StripSlash(keys[i]) == keys[i];
    JoinSegments(keys[i]);
  }

  /**
   * A directory node of such a tree sits strictly above one of the paths,
   * and carries the attributes of the empty directory.
   */
  lemma DirNodePath(keys: seq<string>, fileLeaf: Node, empty: EmptyDir, t: seq<string>)
    requires fileLeaf.File? && Buildable(keys, fileLeaf, empty) && |t| >= 1
    requires forall i :: 0 <= i < |keys| ==> AcceptedPath(keys[i])
    requires GetAt(Build(keys, fileLeaf, empty), t).Some? && GetAt(Build(keys, fileLeaf, empty), t).value.Dir?
    ensures exists i :: 0 <= i < |keys| && Below(JoinFrom("", t), keys[i])
    ensures GetAt(Build(keys, fileLeaf, empty), t).value.attrs == empty.attrs
  {
    BuildOrigins(keys, fileLeaf, empty, t);
    var i :| 0 <= i < |keys| &&
      (IsProperPrefix(t, SegsOf(keys[i])) || (EndsWithSlash(keys[i]) && SegsOf(keys[i]) == t));
    if IsProperPrefix(t, SegsOf(keys[i])) {
      PrefixBelow(keys[i], t);
    } else {
      SlashBelow(keys[i]);
      JoinSegments(StripSlash(keys[i]));
    }
  }

  /** Every record of a successful loop has a length (what the flat list needs). */
  predicate HasLengths(items: seq<Item>) {
    forall i :: 0 <= i < |items| ==> Get(items[i].1, LengthKey).Some?
  }

  lemma KeysAccepted(items: seq<Item>)
    requires Stamped(items)
    ensures forall i :: 0 <= i < |Keys(PathMap(items))| ==> AcceptedPath(Keys(PathMap(items))[i])
  {
    var keys := Keys(PathMap(items));
    forall i | 0 <= i < |keys| ensures AcceptedPath(keys[i]) {
      PathMapKeys(items, keys[i]);
    }
  }

  /**
   * The path map's entry for a path is the record of the last item with that
   * path.
   */
  lemma LastRecord(items: seq<Item>, p: string)
    requires p in Keys(PathMap(items))
    ensures exists j :: (0 <= j < |items| && items[j].0 == p &&
      (forall j' :: j < j' < |items| ==> items[j'].0 != p) && Get(PathMap(items), p) == Some(Dict(items[j].1)))
  {
    PathMapKeys(items, p);
    PathMapLast(items, p);
    LastWithIsLast(items, p);
  }

  /** FileTree's walk and get_tree turn the leaf of a path into (index, length, True) of its record. */
  lemma CompactLeafAt(paths: seq<(string, Value)>, t: seq<string>, f: seq<(Key, Value)>)
    requires |t| >= 1
    requires GetAt(Build(Keys(paths), ListLeaf, CompactDir), t) == Some(ListLeaf)
    requires Get(paths, JoinFrom("", t)) == Some(Dict(f))
    requires Get(f, IndexKey).Some? && Get(f, LengthKey).Some?
    ensures GetAt(CompactFiles(paths), t) ==
      Some(File(Tuple([Get(f, IndexKey).value, Get(f, LengthKey).value, Bool(true)])))
  {
    var built := Build(Keys(paths), ListLeaf, CompactDir);
    var cb := CompactStep(paths);
    CompactStepKeeps(paths);
    CompactStepLeaf(paths, JoinFrom("", t), f);
    WalkedAt(Compact, cb, Dir([], built), "", t);
    ToTupleAt(Walked(Compact, cb, Dir([], built), ""), t);
  }

  /** FileTree's callback on a new file leaf whose path has a record with an index and a length. */
  lemma CompactStepLeaf(paths: seq<(string, Value)>, p: string, f: seq<(Key, Value)>)
    requires Get(paths, p) == Some(Dict(f))
    requires Get(f, IndexKey).Some? && Get(f, LengthKey).Some?
    ensures Rewrite(Compact, CompactStep(paths), p, ListLeaf) ==
      File(List([Get(f, IndexKey).value, Get(f, LengthKey).value, Bool(true)]))
  {
  }

  /**
   * FileTree: every file of the finished tree is the tuple (index, length,
   * True) of the last record with its path, the index being that record's
   * position in the list.
   */
  lemma CompactFileLeaf(items: seq<Item>, t: seq<string>)
    requires Stamped(items) && HasLengths(items) && |t| >= 1
    requires Buildable(Keys(PathMap(items)), ListLeaf, CompactDir)
    requires GetAt(Build(Keys(PathMap(items)), ListLeaf, CompactDir), t).Some?
    requires GetAt(Build(Keys(PathMap(items)), ListLeaf, CompactDir), t).value.File?
    ensures exists j :: (0 <= j < |items| && items[j].0 == JoinFrom("", t) &&
      (forall j' :: j < j' < |items| ==> items[j'].0 != JoinFrom("", t)) &&
      GetAt(CompactFiles(PathMap(items)), t) == Some(File(Tuple([Int(j), Get(items[j].1, LengthKey).value, Bool(true)]))))
  {
    var paths := PathMap(items);
    var p := JoinFrom("", t);
    KeysAccepted(items);
    FileNodePath(Keys(paths), ListLeaf, CompactDir, t);
    LastRecord(items, p);
    var j :| 0 <= j < |items| && items[j].0 == p &&
      (forall j' :: j < j' < |items| ==> items[j'].0 != p) && Get(paths, p) == Some(Dict(items[j].1));
    CompactLeafAt(paths, t, items[j].1);
  }

  /** The attributes FileTree2's callback gives a directory. */
  lemma TypedDirAttrs(length: int)
    ensures Put(Put([TypeTag("dir")], LengthKey, Int(length)), DownloadKey, Bool(true)) ==
      [TypeTag("dir"), (LengthKey, Int(length)), (DownloadKey, Bool(true))]
  {
    var a := [TypeTag("dir")];
    assert IndexOf(Keys(a), LengthKey) == -1;
    var b := Put(a, LengthKey, Int(length));
    assert Keys(b) == [SKey("type"), LengthKey];
    assert IndexOf(Keys(b), DownloadKey) == -1;
  }

  /** FileTree2's callback on a directory with a total: the total as its length, and `'download': True`. */
  lemma TypedStepDir(paths: seq<(string, Value)>, dirs: map<string, int>, p: string, attrs: seq<(Key, Value)>, es: Entries)
    requires p in dirs
    ensures Rewrite(Typed, TypedStep(paths, dirs), p, Dir(attrs, es)) ==
      Dir(Put(Put(attrs, LengthKey, Int(dirs[p])), DownloadKey, Bool(true)), es)
  {
    var m := Dir(Put(Put(attrs, LengthKey, Int(dirs[p])), DownloadKey, Bool(true)), es);
    assert DirWithTotal(dirs, p, attrs, es) == Some(m);
    assert TypedStep(paths, dirs)(p, Dir(attrs, es)) == Some(m);
    RewriteTruthy(Typed, TypedStep(paths, dirs), p, Dir(attrs, es), m);
  }

  /** FileTree2's callback on a new file leaf whose path has a record. */
  lemma TypedStepLeaf(paths: seq<(string, Value)>, dirs: map<string, int>, p: string, f: seq<(Key, Value)>)
    requires Get(paths, p) == Some(Dict(f))
    ensures Rewrite(Typed, TypedStep(paths, dirs), p, TypedLeaf) ==
      File(Dict(Put(UpdateAll([TypeTag("file")], f), DownloadKey, Bool(true))))
  {
    PutNonEmpty(UpdateAll([TypeTag("file")], f), DownloadKey, Bool(true));
    FileWithRecordLeaf(paths, p, f);
    TypedStepFile(paths, dirs, p, TypedLeaf.value, File(Dict(Put(UpdateAll([TypeTag("file")], f), DownloadKey, Bool(true)))));
  }

  /** A non-empty file dict the callback returns for a file replaces it. */
  lemma TypedStepFile(paths: seq<(string, Value)>, dirs: map<string, int>, p: string, v: Value, m: Node)
    requires FileWithRecord(paths, p, v) == Some(m)
    requires m.File? && m.value.Dict? && |m.value.entries| > 0
    ensures Rewrite(Typed, TypedStep(paths, dirs), p, File(v)) == m
  {
    assert TypedStep(paths, dirs)(p, File(v)) == TypedUpdate(paths, dirs, p, File(v));
    assert TypedUpdate(paths, dirs, p, File(v)) == FileWithRecord(paths, p, v);
    assert IsTruthy(Typed, m) by { assert Truthy(m.value); }
    RewriteTruthy(Typed, TypedStep(paths, dirs), p, File(v), m);
  }

  lemma FileWithRecordLeaf(paths: seq<(string, Value)>, p: string, f: seq<(Key, Value)>)
    requires Get(paths, p) == Some(Dict(f))
    ensures FileWithRecord(paths, p, TypedLeaf.value) ==
      Some(File(Dict(Put(UpdateAll([TypeTag("file")], f), DownloadKey, Bool(true)))))
  {
  }

  /** FileTree2's walk gives a directory with a total its length and `'download': True`. */
  lemma TypedDirAt(paths: seq<(string, Value)>, dirs: map<string, int>, t: seq<string>)
    requires |t| >= 1 && JoinFrom("", t) in dirs
    requires GetAt(Build(Keys(paths), TypedLeaf, TypedDir), t).Some?
    requires GetAt(Build(Keys(paths), TypedLeaf, TypedDir), t).value.Dir?
    requires GetAt(Build(Keys(paths), TypedLeaf, TypedDir), t).value.attrs == [TypeTag("dir")]
    ensures GetAt(TypedFiles(paths, dirs).entries, t).Some?
    ensures var m := GetAt(TypedFiles(paths, dirs).entries, t).value;
      m.Dir? && m.attrs == [TypeTag("dir"), (LengthKey, Int(dirs[JoinFrom("", t)])), (DownloadKey, Bool(true))] &&
      Keys(m.entries) == Keys(GetAt(Build(Keys(paths), TypedLeaf, TypedDir), t).value.entries)
  {
    var root := Dir([TypeTag("dir")], Build(Keys(paths), TypedLeaf, TypedDir));
    var cb := TypedStep(paths, dirs);
    var n := GetAt(root.entries, t).value;
    TypedStepKeeps(paths, dirs);
    WalkedAt(Typed, cb, root, "", t);
    TypedStepDir(paths, dirs, JoinFrom("", t), n.attrs, n.entries);
    TypedDirAttrs(dirs[JoinFrom("", t)]);
  }

  /**
   * FileTree2: every directory of the finished tree has, besides its type,
   * the total length of the records below it and `'download': True`.
   */
  lemma TypedDirNode(items: seq<Item>, t: seq<string>)
    requires Stamped(items) && |t| >= 1
    requires Buildable(Keys(PathMap(items)), TypedLeaf, TypedDir)
    requires GetAt(Build(Keys(PathMap(items)), TypedLeaf, TypedDir), t).Some?
    requires GetAt(Build(Keys(PathMap(items)), TypedLeaf, TypedDir), t).value.Dir?
    ensures var s, p := Summary(items), JoinFrom("", t);
      p in s.dirs && s.dirs[p] == SumBelow(LengthItems(items), p) &&
      GetAt(TypedFiles(s.paths, s.dirs).entries, t).Some? &&
      var m := GetAt(TypedFiles(s.paths, s.dirs).entries, t).value;
      m.Dir? && m.attrs == [TypeTag("dir"), (LengthKey, Int(s.dirs[p])), (DownloadKey, Bool(true))] &&
      Keys(m.entries) == Keys(GetAt(Build(Keys(PathMap(items)), TypedLeaf, TypedDir), t).value.entries)
  {
    var s := Summary(items);
    var keys := Keys(s.paths);
    var p := JoinFrom("", t);
    KeysAccepted(items);
    DirNodePath(keys, TypedLeaf, TypedDir, t);
    var i :| 0 <= i < |keys| && Below(p, keys[i]);
    PathMapKeys(items, keys[i]);
    DirsAreSums(items);
    assert p in s.dirs;
    assert s.dirs[p] == Total(s.dirs, p);
    TypedDirAt(s.paths, s.dirs, t);
  }

  /** FileTree2's walk gives the leaf of a path the keys of its record and `'download': True`. */
  lemma TypedLeafAt(paths: seq<(string, Value)>, dirs: map<string, int>, t: seq<string>, f: seq<(Key, Value)>)
    requires |t| >= 1
    requires GetAt(Build(Keys(paths), TypedLeaf, TypedDir), t) == Some(TypedLeaf)
    requires Get(paths, JoinFrom("", t)) == Some(Dict(f))
    ensures GetAt(TypedFiles(paths, dirs).entries, t) ==
      Some(File(Dict(Put(UpdateAll([TypeTag("file")], f), DownloadKey, Bool(true)))))
  {
    var root := Dir([TypeTag("dir")], Build(Keys(paths), TypedLeaf, TypedDir));
    var cb := TypedStep(paths, dirs);
    TypedStepKeeps(paths, dirs);
    WalkedAt(Typed, cb, root, "", t);
    TypedStepLeaf(paths, dirs, JoinFrom("", t), f);
  }

  /**
   * FileTree2: every file of the finished tree is `{'type': 'file'}` updated
   * with the last record with its path, then `'download': True`.
   */
  lemma TypedFileNode(items: seq<Item>, t: seq<string>)
    requires Stamped(items) && |t| >= 1
    requires Buildable(Keys(PathMap(items)), TypedLeaf, TypedDir)
    requires GetAt(Build(Keys(PathMap(items)), TypedLeaf, TypedDir), t).Some?
    requires GetAt(Build(Keys(PathMap(items)), TypedLeaf, TypedDir), t).value.File?
    ensures exists j :: (0 <= j < |items| && items[j].0 == JoinFrom("", t) &&
      (forall j' :: j < j' < |items| ==> items[j'].0 != JoinFrom("", t)) &&
      GetAt(TypedFiles(Summary(items).paths, Summary(items).dirs).entries, t) ==
        Some(File(Dict(Put(UpdateAll([TypeTag("file")], items[j].1), DownloadKey, Bool(true))))))
  {
    var s := Summary(items);
    var p := JoinFrom("", t);
    KeysAccepted(items);
    FileNodePath(Keys(s.paths), TypedLeaf, TypedDir, t);
    LastRecord(items, p);
    var j :| 0 <= j < |items| && items[j].0 == p &&
      (forall j' :: j < j' < |items| ==> items[j'].0 != p) && Get(s.paths, p) == Some(Dict(items[j].1));
    TypedLeafAt(s.paths, s.dirs, t, items[j].1);
  }

  // ---------------------------------------------------------------------
  // __init__ as a whole

  /** The steps of __init__ on a torrent with a 'files' entry, when it parses. */
  lemma ParseMultiSteps(metainfo: seq<byte>, metadata: seq<byte>, filetree: int, env: Env)
    requires Parse(metainfo, metadata, filetree, env).Success?
    requires ReadHeader(metainfo, metadata, env).Success?
    requires Get(ReadHeader(metainfo, metadata, env).value.info, FilesKey).Some?
    ensures var h := ReadHeader(metainfo, metadata, env).value;
      var files := Get(h.info, FilesKey).value;
      RecordsOf(files).Success? &&
      var records := RecordsOf(files).value;
      var prefix := if |records| > 1 then h.name else "";
      var items := Collect(Outcomes(records, prefix, h.hint, env));
      items.Success? && Insertable(Keys(PathMap(items.value)), filetree == 2) &&
      FlatList(DictsOf(items.value)).Success? &&
      Parse(metainfo, metadata, filetree, env).value ==
        TorrentInfo(h.name, h.infoHash, FlatList(DictsOf(items.value)).value,
                    MultiTree(Summary(items.value), filetree == 2),
                    WithRecords(h.dict, h.info, files, DictsOf(items.value)), h.filedata)
  {
  }

  /**
   * A torrent with a 'files' entry that parses: one item per record, each
   * the record at that position rewritten with its index, every one with a
   * length; the tree is built from them, and the flat list holds their
   * paths and lengths in order.
   */
  lemma ParseMultiFile(metainfo: seq<byte>, metadata: seq<byte>, filetree: int, env: Env)
    requires Parse(metainfo, metadata, filetree, env).Success?
    requires ReadHeader(metainfo, metadata, env).Success?
    requires Get(ReadHeader(metainfo, metadata, env).value.info, FilesKey).Some?
    ensures var h, r := ReadHeader(metainfo, metadata, env).value, Parse(metainfo, metadata, filetree, env).value;
      var records := RecordsOf(Get(h.info, FilesKey).value);
      records.Success? &&
      var prefix := if |records.value| > 1 then h.name else "";
      var loop := Collect(Outcomes(records.value, prefix, h.hint, env));
      loop.Success? &&
      var items := loop.value;
      |items| == |records.value| && Stamped(items) && HasLengths(items) &&
      (forall i :: 0 <= i < |items| ==> RewriteRecord(records.value[i], i, prefix, h.hint, env) == Success(items[i])) &&
      Insertable(Keys(PathMap(items)), filetree == 2) &&
      r.filesTree == MultiTree(Summary(items), filetree == 2) &&
      |r.files| == |items| &&
      (forall j :: 0 <= j < |items| ==>
        r.files[j] == FileEntry(Str(items[j].0), Get(items[j].1, LengthKey).value, true)) &&
      r.name == h.name && r.infoHash == h.infoHash && r.filedata == h.filedata &&
      r.metadata == WithRecords(h.dict, h.info, Get(h.info, FilesKey).value, DictsOf(items))
  {
    ParseMultiSteps(metainfo, metadata, filetree, env);
    var h := ReadHeader(metainfo, metadata, env).value;
    var records := RecordsOf(Get(h.info, FilesKey).value).value;
    var prefix := if |records| > 1 then h.name else "";
    CollectRecords(records, prefix, h.hint, env);
    var items := Collect(Outcomes(records, prefix, h.hint, env)).value;
    FlatListOfItems(items);
  }

  /** The flat list of stamped items: each item's path and length, in order. */
  lemma FlatListOfItems(items: seq<Item>)
    requires Stamped(items) && FlatList(DictsOf(items)).Success?
    ensures HasLengths(items)
    ensures var list := FlatList(DictsOf(items)).value;
      |list| == |items| &&
      forall j :: 0 <= j < |items| ==>
        list[j] == FileEntry(Str(items[j].0), Get(items[j].1, LengthKey).value, true)
  {
    var dicts := DictsOf(items);
    FlatListSpec(dicts);
    forall j | 0 <= j < |items|
      ensures Get(items[j].1, LengthKey).Some?
      ensures FlatList(dicts).value[j] == FileEntry(Str(items[j].0), Get(items[j].1, LengthKey).value, true)
    {
      assert dicts[j] == Dict(items[j].1);
      assert Listable(dicts[j]);
    }
  }

  /**
   * A torrent without a 'files' entry parses exactly when its info dict has
   * a length; the object then describes the single file named after the
   * torrent, at index 0, marked for download, and keeps the metainfo as it
   * was decoded.
   */
  lemma ParseSingleFile(metainfo: seq<byte>, metadata: seq<byte>, filetree: int, env: Env)
    requires ReadHeader(metainfo, metadata, env).Success?
    requires Get(ReadHeader(metainfo, metadata, env).value.info, FilesKey).None?
    ensures var h := ReadHeader(metainfo, metadata, env).value;
      Parse(metainfo, metadata, filetree, env).Success? <==> Get(h.info, LengthKey).Some?
    ensures var h, r := ReadHeader(metainfo, metadata, env).value, Parse(metainfo, metadata, filetree, env);
      r.Failure? ==> r.error == MissingKey(LengthKey)
    ensures var h, r := ReadHeader(metainfo, metadata, env).value, Parse(metainfo, metadata, filetree, env);
      r.Success? ==>
        (var length := Get(h.info, LengthKey).value;
        r.value.name == h.name && r.value.infoHash == h.infoHash &&
        r.value.files == [FileEntry(Str(h.name), length, true)] &&
        r.value.metadata == h.dict && r.value.filedata == h.filedata &&
        (filetree == 2 ==>
           (r.value.filesTree.TypedTree? &&
            r.value.filesTree.root.Dir? && r.value.filesTree.root.attrs == [] &&
            Keys(r.value.filesTree.root.entries) == [h.name] &&
            GetAt(r.value.filesTree.root.entries, [h.name]) ==
              Some(File(Dict([TypeTag("file"), (SKey("index"), Int(0)), (SKey("length"), length), (DownloadKey, Bool(true))]))))) &&
        (filetree != 2 ==> r.value.filesTree == CompactTree([(h.name, File(Tuple([Int(0), length, Bool(true)])))])))
  {
  }
}

/**
 * The per-file part of TorrentInfo.__init__: resolving each file record's
 * path, rewriting the record in place (path, index, digests), and filling the
 * `paths` dictionary (path to its last record) and the `dirs` totals (the
 * summed lengths below each directory).
 *
 * The codec, SHA-1 and decode_bytes are foreign code: they are the fields of
 * `Env`, uninterpreted functions of their arguments.
 */
module Records {
  import opened Wrappers
  import opened Values
  import opened Paths

  /** The encoding argument decode_bytes receives. */
  datatype Hint =
    | NoHint                        // decode_bytes(x)
    | RawEncoding(v: Value)         // the encoding value as the metainfo holds it
    | DecodedEncoding(bs: seq<byte>) // `encoding.decode()` of a byte string

  datatype Env = Env(
    bdecode: seq<byte> -> Option<Value>,  // None: BTFailure
    bencode: Value -> seq<byte>,
    sha1: seq<byte> -> seq<byte>,
    decodeBytes: (Value, Hint) -> string)

  /** How __init__ ends when it does not build a complete object. */
  datatype InitError =
    | MetadataUndecodable      // bdecode of `metadata` raised
    | Undecodable              // bdecode of the metainfo failed: early return
    | MissingKey(key: Key)     // KeyError
    | WrongType                // TypeError or AttributeError on a value of the wrong kind
    | UnsupportedPath(path: string)  // a path outside the ones the model handles
    | PathThroughFile                // a path that descends through an earlier file

  // The byte-string keys, spelled as their ASCII codes.
  const PathKey: Key := BKey([112, 97, 116, 104])                           // b'path'
  const PathUtf8Key: Key := BKey([112, 97, 116, 104, 46, 117, 116, 102, 45, 56]) // b'path.utf-8'
  const IndexKey: Key := BKey([105, 110, 100, 101, 120])                    // b'index'
  const LengthKey: Key := BKey([108, 101, 110, 103, 116, 104])              // b'length'
  const Sha1Key: Key := BKey([115, 104, 97, 49])                            // b'sha1'
  const Ed2kKey: Key := BKey([101, 100, 50, 107])                           // b'ed2k'
  const FilehashKey: Key := BKey([102, 105, 108, 101, 104, 97, 115, 104])   // b'filehash'

  /** The record keys are pairwise different (they differ in their first byte or their length). */
  lemma KeysDiffer()
    ensures PathKey != PathUtf8Key && PathKey != IndexKey && PathKey != LengthKey
    ensures IndexKey != LengthKey && IndexKey != PathUtf8Key && LengthKey != PathUtf8Key
    ensures LengthKey != Sha1Key && LengthKey != Ed2kKey && LengthKey != FilehashKey
    ensures PathKey != Sha1Key && PathKey != Ed2kKey && PathKey != FilehashKey
    ensures IndexKey != Sha1Key && IndexKey != Ed2kKey && IndexKey != FilehashKey
    ensures PathUtf8Key != Sha1Key && PathUtf8Key != Ed2kKey && PathUtf8Key != FilehashKey
  {
    assert |PathKey.bytes| != |PathUtf8Key.bytes|;
  }

  /** `v[k]` on a decoded value. */
  function Lookup(v: Value, k: Key): (r: Result<Value, InitError>)
    ensures r.Success? <==> v.Dict? && Get(v.entries, k).Some?
    ensures r.Success? ==> Get(v.entries, k) == Some(r.value)
    ensures r.Failure? && v.Dict? ==> r.error == MissingKey(k)
  {
    match v
    case Dict(es) =>
      (match Get(es, k)
       case Some(x) => Success(x)
       case None => Failure(MissingKey(k)))
    case _ => Failure(WrongType)
  }

  /** `len(v)`, None where Python raises TypeError. */
  function Len(v: Value): Option<nat> {
    match v
    case Bytes(bs) => Some(|bs|)
    case Str(s) => Some(|s|)
    case List(xs) => Some(|xs|)
    case Tuple(xs) => Some(|xs|)
    case Dict(es) => Some(|es|)
    case _ => None
  }

  predicate AllBytes(xs: seq<Value>) {
    forall i :: 0 <= i < |xs| ==> xs[i].Bytes?
  }

  function BytesOf(xs: seq<Value>): (r: seq<seq<byte>>)
    requires AllBytes(xs)
    ensures |r| == |xs| && forall i :: 0 <= i < |xs| ==> r[i] == xs[i].bytes
  {
    seq(|xs|, i requires 0 <= i < |xs| => xs[i].bytes)
  }

  /** `os.path.join(*parts)` over a list of byte strings. */
  function JoinParts(parts: Value): (r: Result<seq<byte>, InitError>)
    ensures r.Success? <==> (parts.List? || parts.Tuple?) && |parts.items| >= 1 && AllBytes(parts.items)
  {
    if (parts.List? || parts.Tuple?) && |parts.items| >= 1 && AllBytes(parts.items) then
      var slash: byte := 47;
      Success(JoinAll(BytesOf(parts.items), slash))
    else
      Failure(WrongType)
  }

  /**
   * A path list of non-empty byte strings without b'/' joins to those
   * strings with one b'/' between neighbours: `os.path.join` adds nothing
   * else and drops nothing.
   */
  lemma JoinPartsSeparates(parts: Value)
    requires parts.List? || parts.Tuple?
    requires |parts.items| >= 1 && AllBytes(parts.items)
    requires forall i :: 0 <= i < |parts.items| ==> parts.items[i].bytes != [] && 47 !in parts.items[i].bytes
    ensures JoinParts(parts) == Success(SepJoin(BytesOf(parts.items), 47))
  {
    JoinAllSeparates(BytesOf(parts.items), 47);
  }

  /**
   * The record's path text before the torrent name is prefixed, and the
   * record without 'path.utf-8': that key is preferred and deleted, 'path'
   * is decoded with the torrent's encoding otherwise.
   */
  function RecordPath(f: seq<(Key, Value)>, hint: Hint, env: Env): (r: Result<(string, seq<(Key, Value)>), InitError>)
    ensures r.Success? ==> PathUtf8Key !in Keys(r.value.1)
    ensures r.Success? ==> Keys(r.value.1) == Without(Keys(f), PathUtf8Key)
    ensures r.Success? ==> forall k :: k != PathUtf8Key ==> Get(r.value.1, k) == Get(f, k)
    ensures r.Success? && PathUtf8Key in Keys(f) ==>
      JoinParts(Get(f, PathUtf8Key).value).Success? &&
      r.value.0 == env.decodeBytes(Bytes(JoinParts(Get(f, PathUtf8Key).value).value), NoHint)
    ensures r.Success? && PathUtf8Key !in Keys(f) ==>
      Get(f, PathKey).Some? && JoinParts(Get(f, PathKey).value).Success? &&
      r.value.0 == env.decodeBytes(Bytes(JoinParts(Get(f, PathKey).value).value), hint)
    ensures r.Success? <==>
      if Get(f, PathUtf8Key).Some? then JoinParts(Get(f, PathUtf8Key).value).Success?
      else Get(f, PathKey).Some? && JoinParts(Get(f, PathKey).value).Success?
    ensures Get(f, PathUtf8Key).None? && Get(f, PathKey).None? ==> r == Failure(MissingKey(PathKey))
    ensures r.Failure? && (Get(f, PathUtf8Key).Some? || Get(f, PathKey).Some?) ==> r.error == WrongType
  {
    match Get(f, PathUtf8Key)
    case Some(parts) =>
      var joined :- JoinParts(parts);
      Success((env.decodeBytes(Bytes(joined), NoHint), Delete(f, PathUtf8Key)))
    case None =>
      var parts :- Lookup(Dict(f), PathKey);
      var joined :- JoinParts(parts);
      WithoutAbsent(Keys(f), PathUtf8Key);
      Success((env.decodeBytes(Bytes(joined), hint), f))
  }

  /**
   * A digest entry after `if key in f and len(f[key]) == size: f[key] =
   * <hex of f[key]>`: a byte string of the digest's size becomes its
   * lowercase hex text; anything else, or no entry, stays.
   */
  function Digested(v: Option<Value>, size: nat): Option<Value> {
    if v.Some? && v.value.Bytes? && |v.value.bytes| == size then Some(Str(Hex(v.value.bytes))) else v
  }

  /**
   * The digest check raises: the entry has no len(), or it has the digest's
   * size but is not a byte string, so `.encode(b'hex')` is missing.
   */
  predicate DigestFails(f: seq<(Key, Value)>, key: Key, size: nat) {
    Get(f, key).Some? &&
    (Len(Get(f, key).value).None? || (Len(Get(f, key).value) == Some(size) && !Get(f, key).value.Bytes?))
  }

  function NormaliseDigest(f: seq<(Key, Value)>, key: Key, size: nat): (r: Result<seq<(Key, Value)>, InitError>)
    ensures r.Success? ==> Keys(r.value) == Keys(f)
    ensures r.Success? ==> forall k :: k != key ==> Get(r.value, k) == Get(f, k)
    ensures r.Success? ==> Get(r.value, key) == Digested(Get(f, key), size)
    ensures r.Failure? <==> DigestFails(f, key, size)
    ensures r.Failure? ==> r.error == WrongType
  {
    match Get(f, key)
    case None => Success(f)
    case Some(v) =>
      match Len(v)
      case None => Failure(WrongType)
      case Some(n) =>
        if n != size then Success(f)
        else if v.Bytes? then
          assert key in Keys(f);
          Success(Put(f, key, Str(Hex(v.bytes))))
        else Failure(WrongType)
  }

  /** One of the three digest checks raises. */
  predicate DigestsFail(f: seq<(Key, Value)>) {
    DigestFails(f, Sha1Key, 20) || DigestFails(f, Ed2kKey, 16) || DigestFails(f, FilehashKey, 20)
  }

  /** `sha1` and `filehash` of 20 bytes and `ed2k` of 16 become hex text, one check after the other. */
  function NormaliseDigests(f: seq<(Key, Value)>): (r: Result<seq<(Key, Value)>, InitError>)
    ensures r.Success? ==> Keys(r.value) == Keys(f)
    ensures r.Success? ==> forall k :: k != Sha1Key && k != Ed2kKey && k != FilehashKey ==> Get(r.value, k) == Get(f, k)
    ensures r.Success? ==>
      Get(r.value, Sha1Key) == Digested(Get(f, Sha1Key), 20) &&
      Get(r.value, Ed2kKey) == Digested(Get(f, Ed2kKey), 16) &&
      Get(r.value, FilehashKey) == Digested(Get(f, FilehashKey), 20)
    ensures r.Failure? <==> DigestsFail(f)
    ensures r.Failure? ==> r.error == WrongType
  {
    DigestKeysDiffer();
    var f1 :- NormaliseDigest(f, Sha1Key, 20);
    var f2 :- NormaliseDigest(f1, Ed2kKey, 16);
    NormaliseDigest(f2, FilehashKey, 20)
  }

  lemma DigestKeysDiffer()
    ensures Sha1Key != Ed2kKey && Sha1Key != FilehashKey && Ed2kKey != FilehashKey
  {
    assert Sha1Key.bytes[0] != FilehashKey.bytes[0];
  }

  /** os.path.join(prefix, path) when the prefix is not empty. */
  function Prefixed(prefix: string, path: string): string {
    if prefix != "" then Join(prefix, path) else path
  }

  /**
   * `f[b'path'] = path; f[b'index'] = index`: a key already there keeps its
   * place, and a new one goes last, 'path' before 'index'.
   */
  function Stamp(f: seq<(Key, Value)>, path: string, index: nat): (r: seq<(Key, Value)>)
    ensures Get(r, PathKey) == Some(Str(path)) && Get(r, IndexKey) == Some(Int(index))
    ensures forall k :: k != PathKey && k != IndexKey ==> Get(r, k) == Get(f, k)
    ensures forall k :: k in Keys(r) <==> k in Keys(f) || k == PathKey || k == IndexKey
    ensures Keys(r) == Keys(f) + (if PathKey in Keys(f) then [] else [PathKey])
                               + (if IndexKey in Keys(f) then [] else [IndexKey])
  {
    assert PathKey != IndexKey by { assert PathKey.bytes[0] != IndexKey.bytes[0]; }
    PutTwo(f, PathKey, Str(path), IndexKey, Int(index));
    var f1 := Put(f, PathKey, Str(path));
    assert IndexKey in Keys(f1) <==> IndexKey in Keys(f);
    Put(f1, IndexKey, Int(index))
  }

  /** Two puts of different keys: both values are there, nothing else changes. */
  lemma PutTwo(f: seq<(Key, Value)>, k1: Key, v1: Value, k2: Key, v2: Value)
    requires k1 != k2
    ensures var r := Put(Put(f, k1, v1), k2, v2);
      Get(r, k1) == Some(v1) && Get(r, k2) == Some(v2) &&
      (forall k :: k != k1 && k != k2 ==> Get(r, k) == Get(f, k)) &&
      (forall k :: k in Keys(r) <==> k in Keys(f) || k == k1 || k == k2)
  {
    var f1 := Put(f, k1, v1);
    assert forall k :: k in Keys(f1) <==> k in Keys(f) || k == k1;
  }

  /**
   * The body of the record loop for the record at `index`: the resolved
   * path and the rewritten record. The totals loop reads the record's
   * length only when the path has a directory part, and adds it to an
   * integer.
   */
  function RewriteRecord(rec: Value, index: nat, prefix: string, hint: Hint, env: Env)
    : (r: Result<(string, seq<(Key, Value)>), InitError>)
    ensures r.Success? ==> rec.Dict? && AcceptedPath(r.value.0) && RecordPath(rec.entries, hint, env).Success?
    ensures r.Success? ==> r.value.0 == Prefixed(prefix, RecordPath(rec.entries, hint, env).value.0)
    ensures r.Success? ==> Get(r.value.1, PathKey) == Some(Str(r.value.0))
    ensures r.Success? ==> Get(r.value.1, IndexKey) == Some(Int(index))
    ensures r.Success? ==> PathUtf8Key !in Keys(r.value.1)
    ensures r.Success? ==> Get(r.value.1, LengthKey) == Get(rec.entries, LengthKey)
    ensures r.Success? && Dirname(r.value.0) != "" ==>
      Get(r.value.1, LengthKey).Some? && Get(r.value.1, LengthKey).value.Int?
  {
    if !rec.Dict? then Failure(WrongType)
    else
      var (decoded, f) :- RecordPath(rec.entries, hint, env);
      var path := Prefixed(prefix, decoded);
      if !AcceptedPath(path) then Failure(UnsupportedPath(path))
      else
        var f2 :- FinishRecord(Stamp(f, path, index), path);
        FinishStamped(f, path, index);
        Success((path, f2))
  }

  /**
   * Every way the body of the record loop can end. It raises exactly when
   * the record is not a dictionary, its path cannot be resolved, the
   * resolved path is outside the handled ones, a digest check raises, or the
   * path has a directory part and the record has no integer length. On
   * success the record keeps every entry but 'path.utf-8' (deleted), 'path'
   * and 'index' (set), and the digests (rewritten to hex text).
   */
  lemma RewriteRecordOutcome(rec: Value, index: nat, prefix: string, hint: Hint, env: Env)
    ensures var r := RewriteRecord(rec, index, prefix, hint, env);
      r.Failure? <==>
        !rec.Dict? || RecordPath(rec.entries, hint, env).Failure? ||
        var path := Prefixed(prefix, RecordPath(rec.entries, hint, env).value.0);
        !AcceptedPath(path) || DigestsFail(rec.entries) || (Dirname(path) != "" && !HasIntLength(rec.entries))
    ensures var r := RewriteRecord(rec, index, prefix, hint, env);
      r.Failure? && rec.Dict? && RecordPath(rec.entries, hint, env).Success? ==>
        var path := Prefixed(prefix, RecordPath(rec.entries, hint, env).value.0);
        (!AcceptedPath(path) ==> r.error == UnsupportedPath(path)) &&
        (AcceptedPath(path) && DigestsFail(rec.entries) ==> r.error == WrongType) &&
        (AcceptedPath(path) && !DigestsFail(rec.entries) ==>
           r.error == if Get(rec.entries, LengthKey).None? then MissingKey(LengthKey) else WrongType)
    ensures var r := RewriteRecord(rec, index, prefix, hint, env);
      r.Success? ==>
        (forall k :: k in Keys(r.value.1) <==> (k in Keys(rec.entries) && k != PathUtf8Key) || k == PathKey || k == IndexKey) &&
        Keys(r.value.1) == Without(Keys(rec.entries), PathUtf8Key)
                             + (if PathKey in Keys(rec.entries) then [] else [PathKey])
                             + (if IndexKey in Keys(rec.entries) then [] else [IndexKey]) &&
        (forall k :: k != PathKey && k != IndexKey && k != PathUtf8Key && k != Sha1Key && k != Ed2kKey && k != FilehashKey ==>
           Get(r.value.1, k) == Get(rec.entries, k)) &&
        Get(r.value.1, Sha1Key) == Digested(Get(rec.entries, Sha1Key), 20) &&
        Get(r.value.1, Ed2kKey) == Digested(Get(rec.entries, Ed2kKey), 16) &&
        Get(r.value.1, FilehashKey) == Digested(Get(rec.entries, FilehashKey), 20)
  {
    if rec.Dict? && RecordPath(rec.entries, hint, env).Success? {
      var (decoded, f) := RecordPath(rec.entries, hint, env).value;
      var path := Prefixed(prefix, decoded);
      if AcceptedPath(path) {
        var s := Stamp(f, path, index);
        KeysDiffer();
        WithoutMembers(Keys(rec.entries), PathUtf8Key, PathKey);
        WithoutMembers(Keys(rec.entries), PathUtf8Key, IndexKey);
        StampedRecord(rec.entries, f, s, path, index);
        var g := FinishRecord(s, path);
        if g.Success? {
          FinishedRecord(rec.entries, f, s, g.value);
        }
      }
    }
  }

  /** What the digest and length checks see of a stamped record is the original record's. */
  lemma StampedRecord(e: seq<(Key, Value)>, f: seq<(Key, Value)>, s: seq<(Key, Value)>, path: string, index: nat)
    requires forall k :: k != PathUtf8Key ==> Get(f, k) == Get(e, k)
    requires forall k :: k != PathKey && k != IndexKey ==> Get(s, k) == Get(f, k)
    ensures Get(s, Sha1Key) == Get(e, Sha1Key) && Get(s, Ed2kKey) == Get(e, Ed2kKey)
    ensures Get(s, FilehashKey) == Get(e, FilehashKey) && Get(s, LengthKey) == Get(e, LengthKey)
    ensures DigestsFail(s) == DigestsFail(e) && HasIntLength(s) == HasIntLength(e)
  {
    KeysDiffer();
  }

  /** The finished record against the original one, key by key. */
  lemma FinishedRecord(e: seq<(Key, Value)>, f: seq<(Key, Value)>, s: seq<(Key, Value)>, g: seq<(Key, Value)>)
    requires PathUtf8Key !in Keys(f)
    requires forall k :: k != PathUtf8Key ==> Get(f, k) == Get(e, k)
    requires forall k :: k != PathKey && k != IndexKey ==> Get(s, k) == Get(f, k)
    requires forall k :: k in Keys(s) <==> k in Keys(f) || k == PathKey || k == IndexKey
    requires Keys(g) == Keys(s)
    requires forall k :: k != Sha1Key && k != Ed2kKey && k != FilehashKey ==> Get(g, k) == Get(s, k)
    requires Get(g, Sha1Key) == Digested(Get(s, Sha1Key), 20)
    requires Get(g, Ed2kKey) == Digested(Get(s, Ed2kKey), 16)
    requires Get(g, FilehashKey) == Digested(Get(s, FilehashKey), 20)
    ensures forall k :: k in Keys(g) <==> (k in Keys(e) && k != PathUtf8Key) || k == PathKey || k == IndexKey
    ensures forall k :: k != PathKey && k != IndexKey && k != PathUtf8Key && k != Sha1Key && k != Ed2kKey && k != FilehashKey ==>
      Get(g, k) == Get(e, k)
    ensures Get(g, Sha1Key) == Digested(Get(e, Sha1Key), 20)
    ensures Get(g, Ed2kKey) == Digested(Get(e, Ed2kKey), 16)
    ensures Get(g, FilehashKey) == Digested(Get(e, FilehashKey), 20)
  {
    KeysDiffer();
    forall k ensures k in Keys(f) <==> k in Keys(e) && k != PathUtf8Key {
      if k != PathUtf8Key {
        assert Get(f, k) == Get(e, k);
      }
    }
  }

  /** `f[b'length']` is there and is an integer, so the directory totals can add it. */
  predicate HasIntLength(f: seq<(Key, Value)>) {
    Get(f, LengthKey).Some? && Get(f, LengthKey).value.Int?
  }

  /** What the digests and the length check leave of the stamped record. */
  lemma FinishStamped(f: seq<(Key, Value)>, path: string, index: nat)
    requires FinishRecord(Stamp(f, path, index), path).Success?
    ensures var g := FinishRecord(Stamp(f, path, index), path).value;
      Get(g, PathKey) == Some(Str(path)) && Get(g, IndexKey) == Some(Int(index)) &&
      (PathUtf8Key !in Keys(f) ==> PathUtf8Key !in Keys(g)) &&
      Get(g, LengthKey) == Get(f, LengthKey)
  {
    var s := Stamp(f, path, index);
    StampThenDigests(f, s, FinishRecord(s, path).value, path, index);
  }

  /** The key facts of FinishStamped, from the contracts of Stamp and FinishRecord alone. */
  lemma StampThenDigests(f: seq<(Key, Value)>, s: seq<(Key, Value)>, g: seq<(Key, Value)>, path: string, index: nat)
    requires Get(s, PathKey) == Some(Str(path)) && Get(s, IndexKey) == Some(Int(index))
    requires forall k :: k != PathKey && k != IndexKey ==> Get(s, k) == Get(f, k)
    requires forall k :: k in Keys(s) <==> k in Keys(f) || k == PathKey || k == IndexKey
    requires Keys(g) == Keys(s)
    requires forall k :: k != Sha1Key && k != Ed2kKey && k != FilehashKey ==> Get(g, k) == Get(s, k)
    ensures Get(g, PathKey) == Some(Str(path)) && Get(g, IndexKey) == Some(Int(index))
    ensures PathUtf8Key !in Keys(f) ==> PathUtf8Key !in Keys(g)
    ensures Get(g, LengthKey) == Get(f, LengthKey)
  {
    KeysDiffer();
  }

  /** The digests, then the length the totals loop reads when the path has a directory part. */
  function FinishRecord(f1: seq<(Key, Value)>, path: string): (r: Result<seq<(Key, Value)>, InitError>)
    ensures r.Success? ==> Keys(r.value) == Keys(f1)
    ensures r.Success? ==> forall k :: k != Sha1Key && k != Ed2kKey && k != FilehashKey ==> Get(r.value, k) == Get(f1, k)
    ensures r.Success? && Dirname(path) != "" ==> Get(r.value, LengthKey).Some? && Get(r.value, LengthKey).value.Int?
    ensures r.Success? ==>
      Get(r.value, Sha1Key) == Digested(Get(f1, Sha1Key), 20) &&
      Get(r.value, Ed2kKey) == Digested(Get(f1, Ed2kKey), 16) &&
      Get(r.value, FilehashKey) == Digested(Get(f1, FilehashKey), 20)
    ensures r.Failure? <==> DigestsFail(f1) || (Dirname(path) != "" && !HasIntLength(f1))
    ensures r.Failure? && !DigestsFail(f1) && Get(f1, LengthKey).None? ==> r.error == MissingKey(LengthKey)
    ensures r.Failure? && (DigestsFail(f1) || Get(f1, LengthKey).Some?) ==> r.error == WrongType
  {
    KeysDiffer();
    var f2 :- NormaliseDigests(f1);
    if Dirname(path) != "" then
      var length :- Lookup(Dict(f2), LengthKey);
      if length.Int? then Success(f2) else Failure(WrongType)
    else
      Success(f2)
  }

  /** The integer length the totals loop adds (only read below a directory). */
  function LengthOf(f: seq<(Key, Value)>): int {
    var v := Get(f, LengthKey);
    if v.Some? && v.value.Int? then v.value.i else 0
  }

  /** A rewritten record with its full path. */
  type Item = (string, seq<(Key, Value)>)

  type Outcome = Result<Item, InitError>

  /** The outcome of the loop body for every record. */
  function Outcomes(records: seq<Value>, prefix: string, hint: Hint, env: Env): (r: seq<Outcome>)
    ensures |r| == |records|
    ensures forall j :: 0 <= j < |records| ==> r[j] == RewriteRecord(records[j], j, prefix, hint, env)
  {
    seq(|records|, j requires 0 <= j < |records| => RewriteRecord(records[j], j, prefix, hint, env))
  }

  /** The record loop over the given outcomes: the first failure ends it. */
  function Collect(steps: seq<Outcome>): Result<seq<Item>, InitError> {
    if steps == [] then Success([])
    else
      var prev, step := Collect(steps[..|steps| - 1]), steps[|steps| - 1];
      if prev.Failure? then prev
      else if step.Failure? then Failure(step.error)
      else Success(prev.value + [step.value])
  }

  /** `paths[path] = f` for each item in turn. */
  function PathMap(items: seq<Item>): seq<(string, Value)> {
    if items == [] then []
    else
      var last := items[|items| - 1];
      Put(PathMap(items[..|items| - 1]), last.0, Dict(last.1))
  }

  /** Each item's path with the length the totals loop adds for it. */
  function LengthItems(items: seq<Item>): (r: seq<(string, int)>)
    ensures |r| == |items|
    ensures forall j :: 0 <= j < |items| ==> r[j] == (items[j].0, LengthOf(items[j].1))
  {
    seq(|items|, j requires 0 <= j < |items| => (items[j].0, LengthOf(items[j].1)))
  }

  function DictsOf(items: seq<Item>): (r: seq<Value>)
    ensures |r| == |items|
    ensures forall j :: 0 <= j < |items| ==> r[j] == Dict(items[j].1)
  {
    seq(|items|, j requires 0 <= j < |items| => Dict(items[j].1))
  }

  /**
   * What the record loop leaves behind: the rewritten records in order, the
   * path map, and the directory totals.
   */
  datatype Parsed = Parsed(records: seq<Value>, paths: seq<(string, Value)>, dirs: map<string, int>)

  function Summary(items: seq<Item>): Parsed {
    Parsed(DictsOf(items), PathMap(items), DirTotals(LengthItems(items)))
  }

  function RewriteAll(records: seq<Value>, prefix: string, hint: Hint, env: Env): Result<Parsed, InitError> {
    var items :- Collect(Outcomes(records, prefix, hint, env));
    Success(Summary(items))
  }

  /** `while dirname: ...; dirname = os.path.dirname(dirname)` */
  method AddLength(dirs: map<string, int>, path: string, length: int) returns (r: map<string, int>)
    ensures r == AddToAncestors(dirs, Dirname(path), length)
  {
    r := dirs;
    var dirname := Dirname(path);
    while dirname != ""
      invariant AddToAncestors(r, dirname, length) == AddToAncestors(dirs, Dirname(path), length)
      decreases |dirname|
    {
      r := r[dirname := Total(r, dirname) + length];
      dirname := Dirname(dirname);
    }
  }

  /** One more step of the loop. */
  lemma CollectStep(steps: seq<Outcome>, k: nat)
    requires k < |steps| && Collect(steps[..k]).Success?
    ensures steps[k].Failure? ==> Collect(steps[..k + 1]) == Failure(steps[k].error)
    ensures steps[k].Success? ==> Collect(steps[..k + 1]) == Success(Collect(steps[..k]).value + [steps[k].value])
  {
    TakeTake(steps, k);
  }

  /** Appending an item extends each accumulator as the loop body does. */
  lemma SummaryStep(items: seq<Item>, x: Item)
    ensures var s, t := Summary(items), Summary(items + [x]);
      t.records == s.records + [Dict(x.1)] &&
      t.paths == Put(s.paths, x.0, Dict(x.1)) &&
      t.dirs == AddToAncestors(s.dirs, Dirname(x.0), LengthOf(x.1))
  {
    TakeSnoc(items, x);
    DictsOfSnoc(items, x);
    LengthItemsSnoc(items, x);
  }

  lemma DictsOfSnoc(items: seq<Item>, x: Item)
    ensures DictsOf(items + [x]) == DictsOf(items) + [Dict(x.1)]
  {
  }

  lemma LengthItemsSnoc(items: seq<Item>, x: Item)
    ensures LengthItems(items + [x])[..|items|] == LengthItems(items)
    ensures LengthItems(items + [x])[|items|] == (x.0, LengthOf(x.1))
  {
  }

  /** Once a step fails, the loop's result is that failure. */
  lemma {:induction false} FailureSticks(steps: seq<Outcome>, k: nat)
    requires k <= |steps| && Collect(steps[..k]).Failure?
    ensures Collect(steps) == Collect(steps[..k])
    decreases |steps| - k
  {
    if k < |steps| {
      assert steps[..k + 1][..k] == steps[..k];
      FailureSticks(steps, k + 1);
    } else {
      assert steps[..k] == steps;
    }
  }

  /**
   * The `for index, f in enumerate(info_dict[b'files'])` loop, with its inner
   * `while dirname:` loop that adds the length to every ancestor directory.
   */
  method RewriteRecords(records: seq<Value>, prefix: string, hint: Hint, env: Env)
      returns (r: Result<Parsed, InitError>)
    ensures r == RewriteAll(records, prefix, hint, env)
  {
    ghost var steps := Outcomes(records, prefix, hint, env);
    ghost var items: seq<Item> := [];
    var rewritten: seq<Value> := [];
    var paths: seq<(string, Value)> := [];
    var dirs: map<string, int> := map[];
    for index := 0 to |records|
      invariant Collect(steps[..index]) == Success(items)
      invariant Parsed(rewritten, paths, dirs) == Summary(items)
    {
      var step := RewriteRecord(records[index], index, prefix, hint, env);
      assert step == steps[index];
      CollectStep(steps, index);
      if step.Failure? {
        FailureSticks(steps, index + 1);
        return Failure(step.error);
      }
      var (path, f) := step.value;
      SummaryStep(items, (path, f));
      items := items + [(path, f)];
      rewritten := rewritten + [Dict(f)];
      paths := Put(paths, path, Dict(f));
      dirs := AddLength(dirs, path, LengthOf(f));
    }
    TakeAll(steps);
    return Success(Parsed(rewritten, paths, dirs));
  }

  // ---------------------------------------------------------------------
  // What the record loop computes, record by record

  predicate AllSucceed(steps: seq<Outcome>) {
    forall j :: 0 <= j < |steps| ==> steps[j].Success?
  }

  /** The loop succeeds exactly when every record rewrites, and then yields every item in order. */
  lemma {:induction false} CollectSucceeds(steps: seq<Outcome>)
    ensures Collect(steps).Success? <==> AllSucceed(steps)
    ensures Collect(steps).Success? ==>
      |Collect(steps).value| == |steps| &&
      forall j :: 0 <= j < |steps| ==> Collect(steps).value[j] == steps[j].value
  {
    if steps != [] {
      var init := steps[..|steps| - 1];
      CollectSucceeds(init);
      if AllSucceed(steps) {
        assert AllSucceed(init) by {
          forall j | 0 <= j < |init| ensures init[j].Success? {
            assert init[j] == steps[j];
          }
        }
      } else {
        var j :| 0 <= j < |steps| && steps[j].Failure?;
        if j < |init| {
          assert init[j] == steps[j];
        }
      }
    }
  }

  /** A failing loop fails with the error of its first failing record. */
  lemma {:induction false} CollectFailure(steps: seq<Outcome>)
    requires Collect(steps).Failure?
    ensures exists j :: 0 <= j < |steps| && AllSucceed(steps[..j]) && steps[j] == Failure(Collect(steps).error)
  {
    var init := steps[..|steps| - 1];
    CollectSucceeds(init);
    if Collect(init).Failure? {
      CollectFailure(init);
      var j :| 0 <= j < |init| && AllSucceed(init[..j]) && init[j] == Failure(Collect(init).error);
      assert init[..j] == steps[..j];
    } else {
      assert init == steps[..|steps| - 1];
    }
  }

  // ---------------------------------------------------------------------
  // The path map keeps the last record of each path

  /** Some item has path `p`. */
  predicate HasPath(items: seq<Item>, p: string) {
    exists j :: 0 <= j < |items| && items[j].0 == p
  }

  /** The record of the last item with path `p`. */
  function LastWith(items: seq<Item>, p: string): Option<Value> {
    if items == [] then None
    else if items[|items| - 1].0 == p then Some(Dict(items[|items| - 1].1))
    else LastWith(items[..|items| - 1], p)
  }

  /** LastWith finds the record of the last item with that path, and finds one whenever an item has it. */
  lemma {:induction false} LastWithIsLast(items: seq<Item>, p: string)
    ensures LastWith(items, p).Some? <==> HasPath(items, p)
    ensures LastWith(items, p).Some? ==>
      exists j :: 0 <= j < |items| && items[j].0 == p && LastWith(items, p) == Some(Dict(items[j].1)) &&
        forall j' :: j < j' < |items| ==> items[j'].0 != p
  {
    if items != [] {
      var init := items[..|items| - 1];
      LastWithIsLast(init, p);
      HasPathSplit(items, p);
      if items[|items| - 1].0 != p {
        if LastWith(init, p).Some? {
          var j :| 0 <= j < |init| && init[j].0 == p && LastWith(init, p) == Some(Dict(init[j].1)) &&
            forall j' :: j < j' < |init| ==> init[j'].0 != p;
          assert items[j] == init[j];
          assert forall j' :: j < j' < |items| ==> items[j'].0 != p by {
            forall j' | j < j' < |items| ensures items[j'].0 != p {
              if j' < |init| {
                assert items[j'] == init[j'];
              }
            }
          }
        }
      }
    }
  }

  /** A path maps to the record of its last occurrence. */
  lemma {:induction false} PathMapLast(items: seq<Item>, p: string)
    ensures Get(PathMap(items), p) == LastWith(items, p)
  {
    if items != [] {
      PathMapLast(items[..|items| - 1], p);
    }
  }

  /** The paths the map holds are exactly those of the items. */
  lemma {:induction false} PathMapKeys(items: seq<Item>, p: string)
    ensures p in Keys(PathMap(items)) <==> HasPath(items, p)
  {
    if items != [] {
      var init := items[..|items| - 1];
      PathMapKeys(init, p);
      HasPathSplit(items, p);
    }
  }

  lemma HasPathSplit(items: seq<Item>, p: string)
    requires items != []
    ensures HasPath(items, p) <==> HasPath(items[..|items| - 1], p) || items[|items| - 1].0 == p
  {
    var init := items[..|items| - 1];
    if HasPath(init, p) {
      var j :| 0 <= j < |init| && init[j].0 == p;
      assert items[j] == init[j];
    }
    if HasPath(items, p) {
      var j :| 0 <= j < |items| && items[j].0 == p;
      if j < |init| {
        assert init[j] == items[j];
      }
    }
  }

  // ---------------------------------------------------------------------
  // The directory totals

  /**
   * After the loop, a directory has a total exactly when some record's path
   * lies strictly below it, and the total is the sum of the lengths of all
   * those records, a path's duplicates included.
   */
  lemma DirsAreSums(items: seq<Item>)
    ensures var dirs, lengths := Summary(items).dirs, LengthItems(items);
      (forall d :: d in dirs <==> exists i :: 0 <= i < |items| && Below(d, items[i].0)) &&
      (forall d :: Total(dirs, d) == SumBelow(lengths, d))
  {
    DirTotalsAreSums(LengthItems(items));
  }

  /**
   * What every item of a successful loop satisfies: the path is one the
   * model accepts, and the record holds that path and its own position as
   * its index.
   */
  predicate Stamped(items: seq<Item>) {
    forall i :: 0 <= i < |items| ==>
      AcceptedPath(items[i].0) && Get(items[i].1, PathKey) == Some(Str(items[i].0)) &&
      Get(items[i].1, IndexKey) == Some(Int(i))
  }

  /**
   * A successful loop yields one item per record, in order: the record at
   * position i rewritten as RewriteRecord describes, with index i.
   */
  lemma CollectRecords(records: seq<Value>, prefix: string, hint: Hint, env: Env)
    requires Collect(Outcomes(records, prefix, hint, env)).Success?
    ensures var items := Collect(Outcomes(records, prefix, hint, env)).value;
      |items| == |records| && Stamped(items) &&
      forall i :: 0 <= i < |records| ==> RewriteRecord(records[i], i, prefix, hint, env) == Success(items[i])
  {
    var steps := Outcomes(records, prefix, hint, env);
    CollectSucceeds(steps);
    var items := Collect(steps).value;
    forall i | 0 <= i < |records| ensures RewriteRecord(records[i], i, prefix, hint, env) == Success(items[i]) {
      assert steps[i] == RewriteRecord(records[i], i, prefix, hint, env);
    }
  }

  /** Prefixing the torrent's name puts a relative path strictly below the name's directory. */
  lemma PrefixedBelow(prefix: string, path: string)
    requires prefix != "" && prefix[|prefix| - 1] != '/'
    requires path != "" && path[0] != '/'
    ensures Below(prefix, Prefixed(prefix, path))
  {
  }
}

/**
 * The Python values the torrent parser handles: what the bencode codec decodes
 * (integers, byte strings, lists and dictionaries with byte-string keys) and
 * what the parser writes back into them (text, booleans, tuples, text keys).
 * Python dictionaries keep insertion order, so a dictionary is an ordered
 * sequence of (key, value) pairs handled by Keys/Get/Put/Delete below.
 */
module Values {
  import opened Wrappers

  type byte = b: int | 0 <= b < 256

  /** A dictionary key: a byte string (`b'length'`) or a text string (`'download'`). */
  datatype Key = BKey(bytes: seq<byte>) | SKey(text: string)

  datatype Value =
    | Int(i: int)
    | Bool(b: bool)
    | Bytes(bytes: seq<byte>)
    | Str(s: string)
    | List(items: seq<Value>)
    | Tuple(items: seq<Value>)
    | Dict(entries: seq<(Key, Value)>)

  /** Python's truth value: zero, False and every empty container are falsy. */
  predicate Truthy(v: Value) {
    match v
    case Int(i) => i != 0
    case Bool(b) => b
    case Bytes(bs) => |bs| > 0
    case Str(s) => |s| > 0
    case List(xs) => |xs| > 0
    case Tuple(xs) => |xs| > 0
    case Dict(es) => |es| > 0
  }

  /** The bytes of an ASCII literal, as Python's `b'...'`. */
  function Ascii(s: string): (r: seq<byte>)
    requires forall i :: 0 <= i < |s| ==> s[i] as int < 128
    ensures |r| == |s|
  {
    seq(|s|, i requires 0 <= i < |s| => s[i] as int)
  }

  function B(s: string): Key
    requires forall i :: 0 <= i < |s| ==> s[i] as int < 128
  {
    BKey(Ascii(s))
  }

  // ---------------------------------------------------------------------
  // Sequence facts the folds over records and paths rely on

  lemma TakeAll<T>(s: seq<T>)
    ensures s[..|s|] == s
  {
  }

  lemma SplitLast<T>(s: seq<T>)
    requires s != []
    ensures s[..|s| - 1] + [s[|s| - 1]] == s
  {
  }

  lemma TakeSnoc<T>(s: seq<T>, x: T)
    ensures (s + [x])[..|s|] == s && (s + [x])[|s|] == x
  {
  }

  lemma TakeTake<T>(s: seq<T>, k: nat)
    requires k < |s|
    ensures s[..k + 1][..k] == s[..k] && s[..k + 1][k] == s[k]
  {
  }

  // ---------------------------------------------------------------------
  // Insertion-ordered dictionaries

  function Keys<K, V>(d: seq<(K, V)>): seq<K> {
    seq(|d|, i requires 0 <= i < |d| => d[i].0)
  }

  /** Position of the first occurrence of `k`, or -1. */
  function IndexOf<K(==)>(ks: seq<K>, k: K): (i: int)
    ensures -1 <= i < |ks|
    ensures 0 <= i ==> ks[i] == k && k !in ks[..i]
    ensures i < 0 <==> k !in ks
  {
    if ks == [] then -1
    else if ks[0] == k then 0
    else
      var j := IndexOf(ks[1..], k);
      assert ks[1..][..if j < 0 then 0 else j] == ks[1..if j < 0 then 1 else j + 1];
      if j < 0 then -1 else j + 1
  }

  function Get<K(==), V>(d: seq<(K, V)>, k: K): Option<V> {
    var i := IndexOf(Keys(d), k);
    if i < 0 then None else Some(d[i].1)
  }

  predicate HasKey<K(==), V>(d: seq<(K, V)>, k: K) {
    k in Keys(d)
  }

  /**
   * `d[k] = v`: an existing key keeps its position and takes the new value,
   * a new key goes to the end.
   */
  function Put<K(==,!new), V>(d: seq<(K, V)>, k: K, v: V): (r: seq<(K, V)>)
    ensures Keys(r) == if k in Keys(d) then Keys(d) else Keys(d) + [k]
    ensures Get(r, k) == Some(v)
    ensures forall k' :: k' != k ==> Get(r, k') == Get(d, k')
  {
    var i := IndexOf(Keys(d), k);
    if i < 0 then
      var r := d + [(k, v)];
      assert Keys(r) == Keys(d) + [k];
      assert IndexOf(Keys(r), k) == |d| by {
        assert Keys(r)[..|d|] == Keys(d);
      }
      forall k' | k' != k ensures Get(r, k') == Get(d, k') {
        var j := IndexOf(Keys(d), k');
        if 0 <= j {
          assert Keys(r)[..j] == Keys(d)[..j];
          assert IndexOf(Keys(r), k') == j;
        } else {
          assert k' !in Keys(r);
        }
      }
      r
    else
      var r := d[i := (k, v)];
      assert Keys(r) == Keys(d);
      r
  }

  /** Every entry after `d[k] = v` is the new one or an entry that was there before. */
  lemma PutEntries<K(!new), V>(d: seq<(K, V)>, k: K, v: V)
    ensures forall e :: e in Put(d, k, v) ==> e == (k, v) || e in d
  {
  }

  /** The value Get finds is the value of an entry of the dictionary. */
  lemma GetEntry<K, V>(d: seq<(K, V)>, k: K)
    requires Get(d, k).Some?
    ensures (k, Get(d, k).value) in d
  {
    var i := IndexOf(Keys(d), k);
    assert d[i] == (k, Get(d, k).value);
  }

  lemma PutNonEmpty<K(!new), V>(d: seq<(K, V)>, k: K, v: V)
    ensures |Put(d, k, v)| > 0
  {
    assert k in Keys(Put(d, k, v));
  }

  lemma PutPut<K(!new), V>(d: seq<(K, V)>, k: K, v1: V, v2: V)
    ensures Put(Put(d, k, v1), k, v2) == Put(d, k, v2)
  {
    var i := IndexOf(Keys(d), k);
    var d1 := Put(d, k, v1);
    if i < 0 {
      assert Keys(d1) == Keys(d) + [k];
      assert IndexOf(Keys(d1), k) == |d|;
    } else {
      assert Keys(d1) == Keys(d);
    }
  }

  /** `ks` with every occurrence of `k` dropped, the others kept in order. */
  function Without<K(==)>(ks: seq<K>, k: K): seq<K> {
    if ks == [] then []
    else (if ks[0] == k then [] else [ks[0]]) + Without(ks[1..], k)
  }

  /** `x` survives `Without(ks, k)` exactly when it is in `ks` and is not `k`. */
  lemma {:induction false} WithoutMembers<K>(ks: seq<K>, k: K, x: K)
    ensures x in Without(ks, k) <==> x in ks && x != k
  {
    if ks != [] {
      WithoutMembers(ks[1..], k, x);
      assert ks == [ks[0]] + ks[1..];
    }
  }

  /** Dropping a key that is not there changes nothing. */
  lemma {:induction false} WithoutAbsent<K>(ks: seq<K>, k: K)
    requires k !in ks
    ensures Without(ks, k) == ks
  {
    if ks != [] {
      WithoutAbsent(ks[1..], k);
      assert ks == [ks[0]] + ks[1..];
    }
  }

  /**
   * `del d[k]`. Callers only delete keys that are present, so Python's
   * KeyError for a missing key does not arise; on one, `d` comes back as it was.
   */
  function Delete<K(==,!new), V>(d: seq<(K, V)>, k: K): (r: seq<(K, V)>)
    ensures k !in Keys(r)
    ensures forall k' :: k' != k ==> Get(r, k') == Get(d, k')
    ensures Keys(r) == Without(Keys(d), k)
  {
    if d == [] then []
    else
      var rest := Delete(d[1..], k);
      assert Keys(d[1..]) == Keys(d)[1..];
      if d[0].0 == k then rest
      else
        var r := [d[0]] + rest;
        assert Keys(r) == [d[0].0] + Keys(rest);
        forall k' | k' != k ensures Get(r, k') == Get(d, k') {
          if k' == d[0].0 {
            assert IndexOf(Keys(r), k') == 0 && IndexOf(Keys(d), k') == 0;
          } else {
            var j := IndexOf(Keys(rest), k');
            var j' := IndexOf(Keys(d[1..]), k');
            assert Keys(r)[1..] == Keys(rest);
            assert IndexOf(Keys(r), k') == if j < 0 then -1 else j + 1;
            assert IndexOf(Keys(d), k') == if j' < 0 then -1 else j' + 1;
            assert Get(rest, k') == Get(d[1..], k');
          }
        }
        r
  }

  // ---------------------------------------------------------------------
  // Lowercase hexadecimal text of a byte string

  function HexDigit(n: int): (c: char)
    requires 0 <= n < 16
  {
    if n < 10 then ('0' as int + n) as char else ('a' as int + n - 10) as char
  }

  predicate IsHexChar(c: char) {
    '0' <= c <= '9' || 'a' <= c <= 'f'
  }

  function Hex(bs: seq<byte>): (s: string)
    ensures |s| == 2 * |bs|
    ensures forall i :: 0 <= i < |s| ==> IsHexChar(s[i])
  {
    if bs == [] then ""
    else [HexDigit(bs[0] / 16), HexDigit(bs[0] % 16)] + Hex(bs[1..])
  }

  function DigitValue(c: char): Option<int> {
    if '0' <= c <= '9' then Some(c as int - '0' as int)
    else if 'a' <= c <= 'f' then Some(c as int - 'a' as int + 10)
    else None
  }

  /** Inverse of Hex: None for odd lengths and non-hex characters. */
  function UnHex(s: string): Option<seq<byte>> {
    if s == [] then Some([])
    else if |s| == 1 then None
    else
      match (DigitValue(s[0]), DigitValue(s[1]), UnHex(s[2..]))
      case (Some(hi), Some(lo), Some(rest)) => Some([hi * 16 + lo] + rest)
      case _ => None
  }

  /** Hex encoding is lossless: decoding the text gives back the bytes. */
  lemma {:induction false} UnHexHex(bs: seq<byte>)
    ensures UnHex(Hex(bs)) == Some(bs)
  {
    if bs != [] {
      var s := Hex(bs);
      assert DigitValue(s[0]) == Some(bs[0] / 16);
      assert DigitValue(s[1]) == Some(bs[0] % 16);
      assert s[2..] == Hex(bs[1..]);
      UnHexHex(bs[1..]);
      assert [bs[0]] + bs[1..] == bs;
    }
  }
}

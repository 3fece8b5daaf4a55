/**
 * One segment of `HashDictionary` is an ordered list of key/value pairs that is
 * scanned front to back. This module gives the value-level meaning of the
 * three scans (find, overwrite-or-append, remove-first) and of a whole list of
 * segments read as one key-to-value map.
 */
module Segments {
  import opened Wrappers

  /** A `KeyValuePair<string, string>`. */
  datatype Entry = Entry(key: string, value: string)

  type Segment = seq<Entry>

  /** No two entries of the segment share a key. */
  ghost predicate UniqueKeys(s: Segment) {
    forall i, j :: 0 <= i < j < |s| ==> s[i].key != s[j].key
  }

  /** `m[k]` as an optional value. */
  function Get(m: map<string, string>, k: string): Option<string> {
    if k in m then Some(m[k]) else None
  }

  /** Two maps that agree on every key are equal. */
  lemma GetExtensional(m1: map<string, string>, m2: map<string, string>)
    requires forall k :: Get(m1, k) == Get(m2, k)
    ensures m1 == m2
  {
    forall k | k in m1
      ensures k in m2 && m1[k] == m2[k]
    {
      assert Get(m1, k) == Get(m2, k);
    }
    forall k | k in m2
      ensures k in m1
    {
      assert Get(m1, k) == Get(m2, k);
    }
  }

  /** The position of the first entry whose key is `key`, if there is one. */
  function Find(s: Segment, key: string): (r: Option<nat>)
    ensures r.Some? ==> r.value < |s| && s[r.value].key == key
    ensures r.Some? ==> forall j :: 0 <= j < r.value ==> s[j].key != key
    ensures r.None? <==> forall j :: 0 <= j < |s| ==> s[j].key != key
  {
    if s == [] then None
    else if s[0].key == key then Some(0)
    else match Find(s[1..], key)
      case None => None
      case Some(i) => Some(i + 1)
  }

  /** The value of the first entry whose key is `key`, if there is one. */
  function Lookup(s: Segment, key: string): (r: Option<string>)
    ensures r.None? <==> forall j :: 0 <= j < |s| ==> s[j].key != key
    ensures r.Some? ==> exists j :: 0 <= j < |s| && s[j] == Entry(key, r.value)
  {
    match Find(s, key)
    case None => None
    case Some(i) => Some(s[i].value)
  }

  /** Any position that holds the first occurrence of `key` is the one `Find` reports. */
  lemma FindFirst(s: Segment, key: string, i: nat)
    requires i < |s| && s[i].key == key
    requires forall j :: 0 <= j < i ==> s[j].key != key
    ensures Find(s, key) == Some(i)
  {
  }

  /** Lookup in a segment with unique keys finds the one entry that has the key. */
  lemma LookupUnique(s: Segment, i: nat)
    requires UniqueKeys(s) && i < |s|
    ensures Lookup(s, s[i].key) == Some(s[i].value)
  {
  }

  /**
   * The segment after `Insert(key, value)`: the first entry with `key` is
   * overwritten in place, or a new entry is appended when there is none.
   */
  function Put(s: Segment, key: string, value: string): (r: Segment)
    ensures |r| == if Lookup(s, key).Some? then |s| else |s| + 1
  {
    match Find(s, key)
    case Some(i) => s[i := Entry(key, value)]
    case None => s + [Entry(key, value)]
  }

  /**
   * After `Put`, the key maps to the new value and every other key keeps its
   * value; a segment with unique keys keeps them unique.
   */
  lemma PutLookup(s: Segment, key: string, value: string, k: string)
    ensures Lookup(Put(s, key, value), k) == if k == key then Some(value) else Lookup(s, k)
  {
    var r := Put(s, key, value);
    match Find(s, key)
    case Some(i) =>
      if k == key {
        FindFirst(r, key, i);
      } else {
        match Find(s, k)
        case Some(j) => FindFirst(r, k, j);
        case None =>
      }
    case None =>
      if k == key {
        FindFirst(r, key, |s|);
      } else {
        match Find(s, k)
        case Some(j) => FindFirst(r, k, j);
        case None =>
      }
  }

  lemma PutUnique(s: Segment, key: string, value: string)
    requires UniqueKeys(s)
    ensures UniqueKeys(Put(s, key, value))
  {
  }

  /**
   * Position by position, with unique keys: the entry that had the key now
   * holds the new value, every other entry stays where it was, and an absent
   * key is appended at the end.
   */
  lemma PutPositions(s: Segment, key: string, value: string)
    requires UniqueKeys(s)
    ensures var r := Put(s, key, value);
      && |s| <= |r|
      && (forall j :: 0 <= j < |s| ==> r[j] == if s[j].key == key then Entry(key, value) else s[j])
      && (|r| > |s| ==> r[|s|] == Entry(key, value))
  {
  }

  /**
   * The segment after `Remove(key)`: the first entry with `key` is cut out and
   * the entries after it shift left, or nothing changes when there is none.
   */
  function Delete(s: Segment, key: string): (r: Segment)
    ensures |r| == if Lookup(s, key).Some? then |s| - 1 else |s|
    ensures Lookup(s, key).None? ==> r == s
  {
    match Find(s, key)
    case Some(i) => s[..i] + s[i + 1..]
    case None => s
  }

  /** Cutting out the first match at `i` shifts every later entry one place left. */
  lemma DeleteShift(s: Segment, key: string, i: nat)
    requires Find(s, key) == Some(i)
    ensures |Delete(s, key)| == |s| - 1
    ensures forall j :: 0 <= j < |s| - 1 ==> Delete(s, key)[j] == s[if j < i then j else j + 1]
  {
    var front, back := s[..i], s[i + 1..];
    assert Delete(s, key) == front + back;
    forall j | 0 <= j < |s| - 1
      ensures (front + back)[j] == s[if j < i then j else j + 1]
    {
      if j < i {
        assert (front + back)[j] == front[j];
      } else {
        assert (front + back)[j] == back[j - i];
      }
    }
  }

  /**
   * After `Delete`, a segment with unique keys no longer holds the key, every
   * other key keeps its value, and the keys stay unique.
   */
  lemma DeleteLookup(s: Segment, key: string, k: string)
    requires UniqueKeys(s)
    ensures Lookup(Delete(s, key), k) == if k == key then None else Lookup(s, k)
  {
    var r := Delete(s, key);
    match Find(s, key)
    case Some(i) =>
      DeleteShift(s, key, i);
      if k != key {
        match Find(s, k)
        case Some(j) =>
          assert j != i;
          FindFirst(r, k, if j < i then j else j - 1);
        case None =>
      }
    case None =>
  }

  /** The entries of `s` whose key is not `key`, in their original order. */
  function Without(s: Segment, key: string): Segment {
    if s == [] then [] else (if s[0].key == key then [] else [s[0]]) + Without(s[1..], key)
  }

  lemma {:induction false} WithoutAbsent(s: Segment, key: string)
    requires forall j :: 0 <= j < |s| ==> s[j].key != key
    ensures Without(s, key) == s
  {
    if s != [] {
      WithoutAbsent(s[1..], key);
    }
  }

  /** Removing from a segment whose head has another key keeps the head. */
  lemma DeleteCons(s: Segment, key: string)
    requires s != [] && s[0].key != key
    ensures Delete(s, key) == [s[0]] + Delete(s[1..], key)
  {
    match Find(s[1..], key) {
      case Some(i) => DeleteConsFound(s, key, i);
      case None =>
        assert Find(s, key) == None;
        assert s == [s[0]] + s[1..];
    }
  }

  /** `DeleteCons` when the tail holds the key, first at position `i`. */
  lemma DeleteConsFound(s: Segment, key: string, i: nat)
    requires s != [] && s[0].key != key && Find(s[1..], key) == Some(i)
    ensures Delete(s, key) == [s[0]] + Delete(s[1..], key)
  {
    var t := s[1..];
    assert Find(s, key) == Some(i + 1);
    DeleteShift(s, key, i + 1);
    DeleteShift(t, key, i);
    var l, r := Delete(s, key), [s[0]] + Delete(t, key);
    forall j | 0 <= j < |l|
      ensures l[j] == r[j]
    {
      if j > 0 {
        assert r[j] == Delete(t, key)[j - 1];
      }
    }
  }


  /**
   * With unique keys, `Delete` keeps every entry with another key, in the
   * order the segment had them.
   */
  lemma {:induction false} DeleteKeepsOrder(s: Segment, key: string)
    requires UniqueKeys(s)
    ensures Delete(s, key) == Without(s, key)
  {
    if s == [] {
    } else if s[0].key == key {
      WithoutAbsent(s[1..], key);
    } else {
      assert UniqueKeys(s[1..]);
      DeleteKeepsOrder(s[1..], key);
      DeleteCons(s, key);
    }
  }

  lemma DeleteUnique(s: Segment, key: string)
    requires UniqueKeys(s)
    ensures UniqueKeys(Delete(s, key))
  {
  }

  /** The map `m` with the entries of `s` written into it front to back. */
  ghost function Apply(m: map<string, string>, s: Segment): map<string, string> {
    if s == [] then m else Apply(m, s[..|s| - 1])[s[|s| - 1].key := s[|s| - 1].value]
  }

  /**
   * With unique keys, writing a segment into a map agrees with the
   * first-match scan of `Search`: a key of the segment gets the value the scan
   * finds, and any other key keeps its value in `m`.
   */
  lemma {:induction false} ApplyLookup(m: map<string, string>, s: Segment, k: string)
    requires UniqueKeys(s)
    ensures Get(Apply(m, s), k) == if Lookup(s, k).Some? then Lookup(s, k) else Get(m, k)
  {
    if s != [] {
      var p, e := s[..|s| - 1], s[|s| - 1];
      assert UniqueKeys(p);
      ApplyLookup(m, p, k);
      if k == e.key {
        LookupUnique(s, |s| - 1);
      } else {
        match Find(p, k)
        case Some(j) => FindFirst(s, k, j);
        case None => assert forall j :: 0 <= j < |s| ==> s[j].key != k;
      }
    }
  }

  /** The map `m` with whole segments written into it in index order. */
  ghost function ApplyAll(m: map<string, string>, segs: seq<Segment>): map<string, string> {
    if segs == [] then m else Apply(ApplyAll(m, segs[..|segs| - 1]), segs[|segs| - 1])
  }

  /** A list of segments read as one map: the entries written in save order. */
  ghost function TableMap(segs: seq<Segment>): map<string, string> {
    ApplyAll(map[], segs)
  }

  /** Segments that are all empty stand for the empty map. */
  lemma {:induction false} TableMapEmpty(segs: seq<Segment>)
    requires forall i :: 0 <= i < |segs| ==> segs[i] == []
    ensures TableMap(segs) == map[]
  {
    if segs != [] {
      TableMapEmpty(segs[..|segs| - 1]);
    }
  }
}

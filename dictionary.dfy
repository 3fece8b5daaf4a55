/**
 * `HashDictionary`: a string-to-string map kept in `SegmentCount` segments.
 * A key lives in the segment its hash selects; each segment is scanned front
 * to back. The table is an object whose segment list the operations update in
 * place; `Contents()` is the key-to-value map it stands for.
 */
module Dictionary {
  import opened Wrappers
  import opened Hashing
  import opened Segments
  import opened TextFormat

  /**
   * The table invariant: exactly `SegmentCount` segments, every entry sits in
   * the segment its key hashes to, and no segment holds a key twice.
   */
  ghost predicate TableInvariant(hash: string -> int32, segs: seq<Segment>) {
    |segs| == SegmentCount && WellFormed(hash, segs)
  }

  /** Segment `i` holds only keys that hash to `i`, each at most once. */
  ghost predicate WellFormed(hash: string -> int32, segs: seq<Segment>) {
    forall i :: 0 <= i < |segs| ==> HashesTo(hash, segs[i], i) && UniqueKeys(segs[i])
  }

  /** Every entry of `s` hashes to segment `b`. */
  ghost predicate HashesTo(hash: string -> int32, s: Segment, b: nat) {
    forall j :: 0 <= j < |s| ==> BucketIndex(hash(s[j].key)) == b
  }

  lemma {:induction false} TableMapGet(hash: string -> int32, segs: seq<Segment>, k: string)
    requires WellFormed(hash, segs)
    ensures Get(TableMap(segs), k) ==
      if BucketIndex(hash(k)) < |segs| then Lookup(segs[BucketIndex(hash(k))], k) else None
  {
    if segs != [] {
      var p, s := segs[..|segs| - 1], segs[|segs| - 1];
      assert forall i :: 0 <= i < |p| ==> p[i] == segs[i];
      TableMapGet(hash, p, k);
      ApplyLookup(TableMap(p), s, k);
      if BucketIndex(hash(k)) != |p| {
        assert forall j :: 0 <= j < |s| ==> s[j].key != k;
      }
    }
  }

  /**
   * The segments as a whole behave like a finite map: the map they stand for
   * gives a key the value that a first-match scan of the key's own segment
   * finds, and holds no key that scan misses.
   */
  lemma SegmentsRefineMap(hash: string -> int32, segs: seq<Segment>, k: string)
    requires TableInvariant(hash, segs)
    ensures Get(TableMap(segs), k) == Lookup(segs[BucketIndex(hash(k))], k)
  {
    TableMapGet(hash, segs, k);
  }

  /** `SegmentCount` empty segments satisfy the invariant and stand for the empty map. */
  lemma EmptyTable(hash: string -> int32, segs: seq<Segment>)
    requires |segs| == SegmentCount
    requires forall i :: 0 <= i < |segs| ==> segs[i] == []
    ensures TableInvariant(hash, segs) && TableMap(segs) == map[]
  {
    TableMapEmpty(segs);
  }

  /** Changing only the key's segment by `Put` keeps the table invariant. */
  lemma InsertKeepsInvariant(hash: string -> int32, segs: seq<Segment>, key: string, value: string)
    requires TableInvariant(hash, segs)
    ensures var b := BucketIndex(hash(key));
      TableInvariant(hash, segs[b := Put(segs[b], key, value)])
  {
    var b := BucketIndex(hash(key));
    var segs' := segs[b := Put(segs[b], key, value)];
    PutHashesTo(hash, segs[b], key, value, b);
    PutUnique(segs[b], key, value);
    forall i | 0 <= i < |segs'|
      ensures HashesTo(hash, segs'[i], i) && UniqueKeys(segs'[i])
    {
      if i != b {
        assert segs'[i] == segs[i];
      }
    }
  }

  /** `Put` of a key that hashes to `b` keeps every entry of the segment hashing to `b`. */
  lemma PutHashesTo(hash: string -> int32, s: Segment, key: string, value: string, b: nat)
    requires HashesTo(hash, s, b) && BucketIndex(hash(key)) == b
    ensures HashesTo(hash, Put(s, key, value), b)
  {
    var s' := Put(s, key, value);
    assert forall j :: 0 <= j < |s'| ==> s'[j].key == key || s'[j] == s[j];
  }

  /**
   * Inserting into the key's segment keeps the invariant, and the table then
   * stands for the old map with `key` bound to `value`.
   */
  lemma InsertRefines(hash: string -> int32, segs: seq<Segment>, key: string, value: string)
    requires TableInvariant(hash, segs)
    ensures var b := BucketIndex(hash(key));
      var segs' := segs[b := Put(segs[b], key, value)];
      TableInvariant(hash, segs') && TableMap(segs') == TableMap(segs)[key := value]
  {
    var b := BucketIndex(hash(key));
    var s := segs[b];
    var segs' := segs[b := Put(s, key, value)];
    InsertKeepsInvariant(hash, segs, key, value);
    forall k
      ensures Get(TableMap(segs'), k) == Get(TableMap(segs)[key := value], k)
    {
      SegmentsRefineMap(hash, segs, k);
      SegmentsRefineMap(hash, segs', k);
      PutLookup(s, key, value, k);
    }
    GetExtensional(TableMap(segs'), TableMap(segs)[key := value]);
  }

  /** Changing only the key's segment by `Delete` keeps the table invariant. */
  lemma RemoveKeepsInvariant(hash: string -> int32, segs: seq<Segment>, key: string)
    requires TableInvariant(hash, segs)
    ensures var b := BucketIndex(hash(key));
      TableInvariant(hash, segs[b := Delete(segs[b], key)])
  {
    var b := BucketIndex(hash(key));
    var segs' := segs[b := Delete(segs[b], key)];
    DeleteHashesTo(hash, segs[b], key, b);
    DeleteUnique(segs[b], key);
    forall i | 0 <= i < |segs'|
      ensures HashesTo(hash, segs'[i], i) && UniqueKeys(segs'[i])
    {
      if i != b {
        assert segs'[i] == segs[i];
      }
    }
  }

  /** `Delete` only drops an entry, so the rest still hash to the same segment. */
  lemma DeleteHashesTo(hash: string -> int32, s: Segment, key: string, b: nat)
    requires HashesTo(hash, s, b)
    ensures HashesTo(hash, Delete(s, key), b)
  {
    match Find(s, key) {
      case Some(i) => DeleteShift(s, key, i);
      case None =>
    }
  }

  /**
   * Removing from the key's segment keeps the invariant, and the table then
   * stands for the old map without `key`.
   */
  lemma RemoveRefines(hash: string -> int32, segs: seq<Segment>, key: string)
    requires TableInvariant(hash, segs)
    ensures var b := BucketIndex(hash(key));
      var segs' := segs[b := Delete(segs[b], key)];
      TableInvariant(hash, segs') && TableMap(segs') == TableMap(segs) - {key}
  {
    var b := BucketIndex(hash(key));
    var s := segs[b];
    var segs' := segs[b := Delete(s, key)];
    RemoveKeepsInvariant(hash, segs, key);
    forall k
      ensures Get(TableMap(segs'), k) == Get(TableMap(segs) - {key}, k)
    {
      SegmentsRefineMap(hash, segs, k);
      SegmentsRefineMap(hash, segs', k);
      DeleteLookup(s, key, k);
    }
    GetExtensional(TableMap(segs'), TableMap(segs) - {key});
  }

  /** `SegmentCount` empty segments: the table a constructor or a load starts from. */
  function EmptySegments(): (segs: seq<Segment>)
    ensures |segs| == SegmentCount
    ensures forall i :: 0 <= i < |segs| ==> segs[i] == []
  {
    seq(SegmentCount, _ => [])
  }

  /**
   * The segments after each line of `lines` that splits into two parts is
   * inserted into `segs`, in file order.
   */
  ghost function ReplaySegments(hash: string -> int32, segs: seq<Segment>, lines: seq<string>): (r: seq<Segment>)
    requires |segs| == SegmentCount
    ensures |r| == SegmentCount
  {
    if lines == [] then segs
    else
      var p := ReplaySegments(hash, segs, lines[..|lines| - 1]);
      var parts := Split(lines[|lines| - 1], Separator);
      if |parts| == 2 then
        var b := BucketIndex(hash(parts[0]));
        p[b := Put(p[b], parts[0], parts[1])]
      else p
  }

  /** One more line is one more `Put` exactly when it splits into two parts. */
  lemma ReplaySegmentsStep(hash: string -> int32, segs: seq<Segment>, lines: seq<string>, n: nat)
    requires |segs| == SegmentCount && n < |lines|
    ensures var p := ReplaySegments(hash, segs, lines[..n]);
      var parts := Split(lines[n], Separator);
      ReplaySegments(hash, segs, lines[..n + 1]) ==
        if |parts| == 2 then p[BucketIndex(hash(parts[0])) := Put(p[BucketIndex(hash(parts[0]))], parts[0], parts[1])] else p
  {
    assert lines[..n + 1][..n] == lines[..n];
  }

  /**
   * Replaying a file into empty segments builds a table that keeps the
   * invariant and stands for the map `LoadMap` gives the file.
   */
  lemma {:induction false} ReplaySegmentsRefines(hash: string -> int32, lines: seq<string>)
    ensures var r := ReplaySegments(hash, EmptySegments(), lines);
      TableInvariant(hash, r) && TableMap(r) == LoadMap(lines)
  {
    if lines == [] {
      EmptyTable(hash, EmptySegments());
    } else {
      var n := |lines| - 1;
      ReplaySegmentsRefines(hash, lines[..n]);
      ReplaySegmentsStep(hash, EmptySegments(), lines, n);
      LoadMapStep(lines, n);
      assert lines[..n + 1] == lines;
      var parts := Split(lines[n], Separator);
      if |parts| == 2 {
        InsertRefines(hash, ReplaySegments(hash, EmptySegments(), lines[..n]), parts[0], parts[1]);
      }
    }
  }

  /**
   * What reading a file yields: the file does not exist, or the lines read
   * before the reader stopped and whether it reached the end. A file that
   * exists but cannot be opened reads no line and does not reach the end.
   */
  datatype FileRead = Missing | Read(lines: seq<string>, complete: bool)

  /**
   * What `LoadFromFile` reports: the file was read to the end, it does not
   * exist (thrown before anything is cleared), or opening or reading it
   * failed (thrown after the clear, with the lines read so far inserted).
   */
  datatype LoadOutcome = Loaded | FileNotFound | ReadFailed

  class HashDictionary {
    /** `string.GetHashCode`, fixed for the lifetime of the table. */
    const hash: string -> int32
    /** `_segments`: the list of segments, created once with `SegmentCount` of them. */
    var segments: seq<Segment>

    ghost predicate Valid()
      reads this
    {
      TableInvariant(hash, segments)
    }

    /** The key-to-value map the table stands for. */
    ghost function Contents(): map<string, string>
      reads this
    {
      TableMap(segments)
    }

    /** Creates `SegmentCount` empty segments, one after the other. */
    constructor (hash: string -> int32)
      ensures Valid() && this.hash == hash
      ensures |segments| == SegmentCount
      ensures forall i :: 0 <= i < SegmentCount ==> segments[i] == []
      ensures Contents() == map[]
    {
      this.hash := hash;
      segments := [];
      new;
      for i := 0 to SegmentCount
        invariant |segments| == i
        invariant forall j :: 0 <= j < i ==> segments[j] == []
      {
        segments := segments + [[]];
      }
      EmptyTable(hash, segments);
    }

    /** `HashFunction`: the segment a key belongs to. */
    function HashFunction(key: string): (r: nat)
      ensures r < SegmentCount
    {
      BucketIndex(hash(key))
    }

    /**
     * Overwrites the first entry with `key` in its segment, or appends a new
     * entry when there is none; no other segment changes.
     */
    method Insert(key: string, value: string)
      requires Valid()
      modifies this
      ensures Valid()
      ensures segments == old(segments)[HashFunction(key) := Put(old(segments)[HashFunction(key)], key, value)]
      ensures Contents() == old(Contents())[key := value]
    {
      InsertRefines(hash, segments, key, value);
      var index := HashFunction(key);
      var segment := segments[index];
      for i := 0 to |segment|
        invariant forall j :: 0 <= j < i ==> segment[j].key != key
      {
        if segment[i].key == key {
          FindFirst(segment, key, i);
          segments := segments[index := segment[i := Entry(key, value)]];
          return;
        }
      }
      segments := segments[index := segment + [Entry(key, value)]];
    }

    /**
     * Removes the first entry with `key` from its segment, the later entries
     * moving up one place; reports whether there was one. No other segment
     * changes, and an absent key leaves the whole table as it was.
     */
    method Remove(key: string) returns (removed: bool)
      requires Valid()
      modifies this
      ensures Valid()
      ensures removed <==> key in old(Contents())
      ensures segments == old(segments)[HashFunction(key) := Delete(old(segments)[HashFunction(key)], key)]
      ensures !removed ==> segments == old(segments)
      ensures Contents() == old(Contents()) - {key}
    {
      RemoveRefines(hash, segments, key);
      SegmentsRefineMap(hash, segments, key);
      var index := HashFunction(key);
      var segment := segments[index];
      for i := 0 to |segment|
        invariant forall j :: 0 <= j < i ==> segment[j].key != key
      {
        if segment[i].key == key {
          FindFirst(segment, key, i);
          segments := segments[index := segment[..i] + segment[i + 1..]];
          return true;
        }
      }
      return false;
    }

    /**
     * The value of the first entry with `key` in its segment, or `None` where
     * the source returns `null`; this is the value the table's map gives the key.
     */
    method Search(key: string) returns (r: Option<string>)
      requires Valid()
      ensures r == Lookup(segments[HashFunction(key)], key)
      ensures r.Some? <==> key in Contents()
      ensures r.Some? ==> r.value == Contents()[key]
    {
      SegmentsRefineMap(hash, segments, key);
      var segment := segments[HashFunction(key)];
      for i := 0 to |segment|
        invariant forall j :: 0 <= j < i ==> segment[j].key != key
      {
        if segment[i].key == key {
          FindFirst(segment, key, i);
          return Some(segment[i].value);
        }
      }
      return None;
    }

    /** The lines `SaveToFile` writes: `key:value` per entry, segment by segment. */
    method SaveToFile() returns (lines: seq<string>)
      ensures lines == Lines(segments)
    {
      lines := [];
      for i := 0 to |segments|
        invariant lines == Lines(segments[..i])
      {
        var segment := segments[i];
        for j := 0 to |segment|
          invariant lines == Lines(segments[..i]) + SegmentLines(segment[..j])
        {
          assert SegmentLines(segment[..j + 1]) == SegmentLines(segment[..j]) + [FormatLine(segment[j])] by {
            assert segment[..j + 1][..j] == segment[..j];
          }
          lines := lines + [FormatLine(segment[j])];
        }
        assert Lines(segments[..i + 1]) == Lines(segments[..i]) + SegmentLines(segment) by {
          assert segment[..|segment|] == segment;
          assert segments[..i + 1][..i] == segments[..i];
        }
      }
      assert segments[..|segments|] == segments;
    }

    /** The clearing loop of `LoadFromFile`: every segment list is emptied in turn. */
    method ClearSegments()
      requires Valid()
      modifies this
      ensures Valid() && Contents() == map[]
      ensures segments == EmptySegments()
    {
      for i := 0 to |segments|
        invariant |segments| == SegmentCount
        invariant forall j :: 0 <= j < i ==> segments[j] == []
      {
        segments := segments[i := []];
      }
      assert segments == EmptySegments();
      EmptyTable(hash, segments);
    }

    /**
     * `LoadFromFile`: a missing file fails before anything is cleared.
     * Otherwise every segment is emptied and each line read with exactly two
     * `Split` parts is replayed through `Insert`; a read that stops early
     * fails with the lines read so far already inserted.
     */
    method LoadFromFile(file: FileRead) returns (outcome: LoadOutcome)
      requires Valid()
      modifies this
      ensures Valid()
      ensures outcome == FileNotFound <==> file.Missing?
      ensures outcome == ReadFailed <==> file.Read? && !file.complete
      ensures file.Missing? ==> segments == old(segments)
      ensures file.Read? ==> segments == ReplaySegments(hash, EmptySegments(), file.lines)
      ensures file.Read? ==> Contents() == LoadMap(file.lines)
    {
      if file.Missing? {
        return FileNotFound;
      }
      ClearSegments();
      var lines := file.lines;
      assert lines[..0] == [];
      var n := 0;
      while n < |lines|
        invariant n <= |lines|
        invariant segments == ReplaySegments(hash, EmptySegments(), lines[..n])
      {
        ReplaySegmentsRefines(hash, lines[..n]);
        ReplaySegmentsStep(hash, EmptySegments(), lines, n);
        var parts := Split(lines[n], Separator);
        if |parts| == 2 {
          Insert(parts[0], parts[1]);
        }
        n := n + 1;
      }
      assert lines[..|lines|] == lines;
      ReplaySegmentsRefines(hash, lines);
      if !file.complete {
        return ReadFailed;
      }
      return Loaded;
    }
  }

  /**
   * Saving a table and reading the whole file back into the same or another
   * table gives the target the contents the source had, when no key or value
   * holds the separator or a line break.
   */
  method SaveThenLoad(source: HashDictionary, target: HashDictionary)
    requires source.Valid() && target.Valid()
    requires forall i :: 0 <= i < |source.segments| ==> Storable(source.segments[i])
    modifies target
    ensures target.Valid() && target.Contents() == old(source.Contents())
  {
    var lines := source.SaveToFile();
    SaveLoadRoundTrip(source.segments);
    var outcome := target.LoadFromFile(Read(lines, true));
  }

  /** Menu options 4 and 5 on the one table `Main` creates: save, then load the file back. */
  method SaveThenReload(table: HashDictionary)
    requires table.Valid()
    requires forall i :: 0 <= i < |table.segments| ==> Storable(table.segments[i])
    modifies table
    ensures table.Valid() && table.Contents() == old(table.Contents())
  {
    SaveThenLoad(table, table);
  }

  /** Search, insert and remove one key, seen only through the contracts above. */
  method SingleKeyScenario(hash: string -> int32) {
    var table := new HashDictionary(hash);
    var found := table.Search("x");
    assert found == None;
    table.Insert("x", "1");
    found := table.Search("x");
    assert found == Some("1");
    var removed := table.Remove("x");
    assert removed;
    found := table.Search("x");
    assert found == None;
    removed := table.Remove("x");
    assert !removed;
  }
}

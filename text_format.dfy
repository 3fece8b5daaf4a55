/**
 * The text file of `SaveToFile` and `LoadFromFile`: one `key:value` line per
 * entry, with no escaping. A file is modelled as the sequence of its lines.
 */
module TextFormat {
  import opened Wrappers
  import opened Segments

  /** The character between key and value on a line. */
  const Separator: char := ':'

  /** `parts` glued back together with `sep` between neighbouring parts. */
  function Join(parts: seq<string>, sep: char): string
    requires |parts| >= 1
  {
    if |parts| == 1 then parts[0] else parts[0] + [sep] + Join(parts[1..], sep)
  }

  /** How many times `c` occurs in `s`; none exactly when `c` is not in `s`. */
  function Occurrences(s: string, c: char): (n: nat)
    ensures n == 0 <==> c !in s
  {
    if s == [] then 0 else (if s[0] == c then 1 else 0) + Occurrences(s[1..], c)
  }

  lemma {:induction false} OccurrencesConcat(a: string, b: string, c: char)
    ensures Occurrences(a + b, c) == Occurrences(a, c) + Occurrences(b, c)
  {
    if a == [] {
      assert a + b == b;
    } else {
      assert (a + b)[0] == a[0] && (a + b)[1..] == a[1..] + b;
      OccurrencesConcat(a[1..], b, c);
    }
  }

  /**
   * `String.Split(char)`: the pieces of `s` between occurrences of `sep`, cut
   * at every occurrence. There is one more piece than there are separators,
   * no piece holds the separator, and joining the pieces gives `s` back.
   */
  function Split(s: string, sep: char): (parts: seq<string>)
    ensures |parts| == Occurrences(s, sep) + 1
    ensures forall i :: 0 <= i < |parts| ==> sep !in parts[i]
    ensures Join(parts, sep) == s
  {
    if s == [] then [""]
    else
      var rest := Split(s[1..], sep);
      if s[0] == sep then
        assert ([""] + rest)[1..] == rest;
        [""] + rest
      else
        assert ([[s[0]] + rest[0]] + rest[1..])[1..] == rest[1..];
        [[s[0]] + rest[0]] + rest[1..]
  }

  /**
   * A line as `LoadFromFile` reads it: the line is kept only when `Split`
   * yields exactly two parts, which is when it holds exactly one separator.
   */
  function ParseLine(line: string): (r: Option<Entry>)
    ensures r.Some? <==> Occurrences(line, Separator) == 1
    ensures r.Some? ==> line == r.value.key + [Separator] + r.value.value
    ensures r.Some? ==> Separator !in r.value.key && Separator !in r.value.value
  {
    var parts := Split(line, Separator);
    if |parts| == 2 then
      assert Join(parts[1..], Separator) == parts[1];
      Some(Entry(parts[0], parts[1]))
    else None
  }

  /** A line as `SaveToFile` writes it. */
  function FormatLine(e: Entry): string {
    e.key + [Separator] + e.value
  }

  /** Neither key nor value of any entry holds the separator. */
  ghost predicate NoSeparator(s: Segment) {
    forall j :: 0 <= j < |s| ==> Separator !in s[j].key && Separator !in s[j].value
  }

  /**
   * Every key and value can be written as one line and read back: it holds
   * no separator and no line break that `ReadLine` would cut at.
   */
  ghost predicate Storable(s: Segment) {
    && NoSeparator(s)
    && forall j :: 0 <= j < |s| ==> NoLineBreak(s[j].key) && NoLineBreak(s[j].value)
  }

  ghost predicate NoLineBreak(t: string) {
    '\n' !in t && '\r' !in t
  }

  /** A line cut at its first separator determines both halves. */
  lemma SplitAtSeparator(a: string, b: string, a': string, b': string, c: char)
    requires c !in a && c !in a'
    requires a + [c] + b == a' + [c] + b'
    ensures a == a' && b == b'
  {
    var s := a + [c] + b;
    assert s[|a|] == c && s[|a'|] == c;
    assert forall i :: 0 <= i < |a| ==> s[i] == a[i];
    assert forall i :: 0 <= i < |a'| ==> s[i] == a'[i];
    assert a == s[..|a|] && a' == s[..|a'|];
    assert b == s[|a| + 1..] && b' == s[|a'| + 1..];
  }

  /** Reading back a line that was written from a separator-free entry gives the entry. */
  lemma ParseFormat(e: Entry)
    requires Separator !in e.key && Separator !in e.value
    ensures ParseLine(FormatLine(e)) == Some(e)
  {
    var line := FormatLine(e);
    OccurrencesConcat(e.key + [Separator], e.value, Separator);
    OccurrencesConcat(e.key, [Separator], Separator);
    var r := ParseLine(line);
    SplitAtSeparator(r.value.key, r.value.value, e.key, e.value, Separator);
  }

  /** The lines of one segment: one per entry, in the segment's order. */
  function SegmentLines(s: Segment): (lines: seq<string>)
    ensures |lines| == |s|
    ensures forall j :: 0 <= j < |s| ==> lines[j] == FormatLine(s[j])
  {
    if s == [] then [] else SegmentLines(s[..|s| - 1]) + [FormatLine(s[|s| - 1])]
  }

  /** The lines of a whole table: segment by segment, in index order. */
  function Lines(segs: seq<Segment>): seq<string> {
    if segs == [] then [] else Lines(segs[..|segs| - 1]) + SegmentLines(segs[|segs| - 1])
  }

  /**
   * The saved lines are ordered by segment index: those of segment `i` come
   * after the lines of every segment before it and before those of every
   * segment after it.
   */
  lemma {:induction false} SaveOrder(segs: seq<Segment>, i: nat)
    requires i < |segs|
    ensures Lines(segs) == Lines(segs[..i]) + SegmentLines(segs[i]) + Lines(segs[i + 1..])
  {
    var p := segs[..|segs| - 1];
    if i == |segs| - 1 {
      assert segs[i + 1..] == [];
      assert p == segs[..i];
    } else {
      SaveOrder(p, i);
      assert p[..i] == segs[..i] && p[i] == segs[i];
      var post := segs[i + 1..];
      assert post[..|post| - 1] == p[i + 1..];
      assert post[|post| - 1] == segs[|segs| - 1];
    }
  }

  /** The map left by replaying `lines` through `Insert`, starting from `m`. */
  ghost function Replay(m: map<string, string>, lines: seq<string>): map<string, string> {
    if lines == [] then m
    else
      var before := Replay(m, lines[..|lines| - 1]);
      match ParseLine(lines[|lines| - 1])
      case Some(e) => before[e.key := e.value]
      case None => before
  }

  /** The map `LoadFromFile` builds from the lines of a file, starting from a cleared table. */
  ghost function LoadMap(lines: seq<string>): map<string, string> {
    Replay(map[], lines)
  }

  /** Loading one more line: it is replayed through `Insert` exactly when it splits in two. */
  lemma LoadMapStep(lines: seq<string>, n: nat)
    requires n < |lines|
    ensures var parts := Split(lines[n], Separator);
      LoadMap(lines[..n + 1]) ==
        if |parts| == 2 then LoadMap(lines[..n])[parts[0] := parts[1]] else LoadMap(lines[..n])
  {
    assert lines[..n + 1][..n] == lines[..n];
  }

  lemma {:induction false} ReplayConcat(m: map<string, string>, a: seq<string>, b: seq<string>)
    ensures Replay(m, a + b) == Replay(Replay(m, a), b)
  {
    if b == [] {
      assert a + b == a;
    } else {
      var b' := b[..|b| - 1];
      assert (a + b)[..|a + b| - 1] == a + b';
      ReplayConcat(m, a, b');
    }
  }

  lemma {:induction false} ReplaySegment(m: map<string, string>, s: Segment)
    requires NoSeparator(s)
    ensures Replay(m, SegmentLines(s)) == Apply(m, s)
  {
    if s != [] {
      var p, e := s[..|s| - 1], s[|s| - 1];
      var lines := SegmentLines(p) + [FormatLine(e)];
      assert lines[..|lines| - 1] == SegmentLines(p);
      ReplaySegment(m, p);
      ParseFormat(e);
    }
  }

  lemma {:induction false} ReplayLines(m: map<string, string>, segs: seq<Segment>)
    requires forall i :: 0 <= i < |segs| ==> NoSeparator(segs[i])
    ensures Replay(m, Lines(segs)) == ApplyAll(m, segs)
  {
    if segs != [] {
      var p, s := segs[..|segs| - 1], segs[|segs| - 1];
      ReplayConcat(m, Lines(p), SegmentLines(s));
      ReplayLines(m, p);
      ReplaySegment(ApplyAll(m, p), s);
    }
  }

  /**
   * Save then load: when no key or value holds the separator or a line
   * break, loading the saved lines rebuilds exactly the map the segments
   * stand for.
   */
  lemma SaveLoadRoundTrip(segs: seq<Segment>)
    requires forall i :: 0 <= i < |segs| ==> Storable(segs[i])
    ensures LoadMap(Lines(segs)) == TableMap(segs)
  {
    ReplayLines(map[], segs);
  }

  /** The line is kept by `LoadFromFile` and carries key `k`. */
  ghost predicate KeptWithKey(line: string, k: string) {
    ParseLine(line).Some? && ParseLine(line).value.key == k
  }

  /** A key is loaded exactly when some line of the file is kept and carries that key. */
  lemma {:induction false} LoadMapKeys(lines: seq<string>, k: string)
    ensures k in LoadMap(lines) <==> exists i :: 0 <= i < |lines| && KeptWithKey(lines[i], k)
  {
    if lines != [] {
      var p, last := lines[..|lines| - 1], lines[|lines| - 1];
      LoadMapKeys(p, k);
      assert k in LoadMap(lines) <==> k in LoadMap(p) || KeptWithKey(last, k);
      assert forall i :: 0 <= i < |p| ==> p[i] == lines[i];
    }
  }

  /**
   * Duplicate keys: the value loaded for a key is the one on the last kept
   * line that carries the key.
   */
  lemma {:induction false} LoadLastWins(lines: seq<string>, i: nat)
    requires i < |lines| && ParseLine(lines[i]).Some?
    requires forall j :: i < j < |lines| ==>
      ParseLine(lines[j]).None? || ParseLine(lines[j]).value.key != ParseLine(lines[i]).value.key
    ensures var e := ParseLine(lines[i]).value;
      e.key in LoadMap(lines) && LoadMap(lines)[e.key] == e.value
  {
    if i < |lines| - 1 {
      var p := lines[..|lines| - 1];
      assert p[i] == lines[i];
      LoadLastWins(p, i);
    }
  }
}

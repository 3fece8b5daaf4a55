# HashDictionary in Dafny

This project models `HashDictionary` from `ConsoleApp1/ConsoleApp1/Program.cs`. It is a
string-to-string dictionary with a fixed number of segments (buckets). `SegmentCount` is 10.
A key is stored in the segment `Math.Abs(key.GetHashCode() % SegmentCount)`. Each segment is
an ordered list of key/value pairs. `Insert`, `Remove` and `Search` scan that list front to back.
`SaveToFile` writes one `key:value` line per entry. `LoadFromFile` clears the table and replays
the file's lines through `Insert`.

Files and modules:

- `hashing.dfy` (`Hashing`): the .NET `int` range, C#'s truncating `%`, and the bucket index of `HashFunction`.
- `segments.dfy` (`Segments`): the key/value pair `Entry`. It also gives the value-level meaning of the three segment scans: `Find`/`Lookup` (first match), `Put` (overwrite in place or append) and `Delete` (remove the first match). `Apply`/`TableMap` read a list of segments as a single map.
- `text_format.dfy` (`TextFormat`): `String.Split(':')`, the `key:value` line format, the lines of a whole table, and the map that loading a file builds.
- `dictionary.dfy` (`Dictionary`): the `HashDictionary` class and the lemmas that tie it to a finite map. The class keeps `segments: seq<Segment>` and updates it in place. `Valid()` holds the table invariant and `Contents()` gives the map the table stands for. Each mutating method states its whole new `segments` and its new `Contents()`.
- `wrappers.dfy` (`Wrappers`): `Option`. `None` stands where the C# code returns `null`.

The table invariant (`Dictionary.TableInvariant`) has three parts:

- there are exactly `SegmentCount` segments;
- every entry of segment `i` hashes to `i`;
- no segment holds a key twice.

`TableMap(segs)` writes all entries into a map in save order. `SegmentsRefineMap` shows that,
under the invariant, this map agrees with a first-match scan of the key's own segment. All of
the map-level contracts rest on that lemma.

Four details of the code shape the model:

- `HashFunction` takes the remainder first and the absolute value after (`Math.Abs(hash % SegmentCount)`). `BucketIndex` proves that this equals `|hash| mod SegmentCount`. In this order `Math.Abs` never receives `int.MinValue`.
- `line.Split(':')` cuts at every colon, so `LoadFromFile` keeps a line only when it holds exactly one `:` (`ParseLine`).
- `Insert` overwrites an existing key in place, so when a file holds the same key on several kept lines, the last of them wins (`LoadLastWins`).
- `LoadFromFile` checks that the file exists before it clears anything, so a missing file leaves the table unchanged.

## Model

| member | source | states |
|---|---|---|
| `Hashing.TruncMod` | ConsoleApp1/ConsoleApp1/Program.cs:23 | C#'s `%` has the sign of the dividend and a magnitude below the divisor, and satisfies `a == n * (a / n) + a % n` with truncating `/` |
| `Hashing.BucketIndex` | ConsoleApp1/ConsoleApp1/Program.cs:21-24 | the segment index is in `[0, SegmentCount)` and equals `|h| mod SegmentCount`; `Math.Abs` only sees values in `(-SegmentCount, SegmentCount)` (from `TruncMod`) |
| `Dictionary.HashDictionary.HashFunction` | ConsoleApp1/ConsoleApp1/Program.cs:21-24 | every key selects an existing segment, index below `SegmentCount` |
| `Dictionary.HashDictionary.constructor` | ConsoleApp1/ConsoleApp1/Program.cs:10-18 | after the append loop there are exactly `SegmentCount` segments, all empty; the invariant holds and the table stands for the empty map |
| `Segments.Find` | ConsoleApp1/ConsoleApp1/Program.cs:33-41 | the scan returns the position of the first entry with the key; it returns none exactly when no entry has the key |
| `Segments.Lookup` | ConsoleApp1/ConsoleApp1/Program.cs:73-81 | the result is absent exactly when no entry has the key; otherwise some entry is `(key, result)` |
| `Segments.Put` | ConsoleApp1/ConsoleApp1/Program.cs:33-44 | the segment keeps its length when the key was present and grows by one otherwise |
| `Segments.PutLookup` | ConsoleApp1/ConsoleApp1/Program.cs:27-45 | after an insert the key finds the new value and every other key finds what it found before |
| `Segments.PutPositions` | ConsoleApp1/ConsoleApp1/Program.cs:33-44 | with unique keys, the entry with the key is overwritten at its own position and every other entry stays where it was; an absent key is appended at the end |
| `Segments.PutUnique` | ConsoleApp1/ConsoleApp1/Program.cs:33-44 | inserting keeps the keys of a segment unique |
| `Segments.Delete` | ConsoleApp1/ConsoleApp1/Program.cs:54-63 | the segment shrinks by one exactly when the key was present and is unchanged otherwise |
| `Segments.DeleteLookup` | ConsoleApp1/ConsoleApp1/Program.cs:48-64 | after a remove the key is no longer found and every other key finds what it found before |
| `Segments.DeleteKeepsOrder` | ConsoleApp1/ConsoleApp1/Program.cs:54-61 | with unique keys, `RemoveAt` leaves exactly the entries with other keys, in their original relative order (equal to the filter `Without`) |
| `Segments.DeleteUnique` | ConsoleApp1/ConsoleApp1/Program.cs:54-61 | removing keeps the keys of a segment unique |
| `Segments.ApplyLookup` | ConsoleApp1/ConsoleApp1/Program.cs:73-81 | with unique keys, writing a segment's entries into a map in order gives each key the value the first-match scan finds |
| `Segments.TableMapEmpty` | ConsoleApp1/ConsoleApp1/Program.cs:106-110 | once every segment is cleared, the table stands for the empty map |
| `Dictionary.SegmentsRefineMap` | ConsoleApp1/ConsoleApp1/Program.cs:67-82 | under the invariant, the segments behave as one finite map: the map gives a key the value the scan of its own segment finds, and lacks every key that scan misses |
| `Dictionary.InsertKeepsInvariant` | ConsoleApp1/ConsoleApp1/Program.cs:27-45 | `Put` on the key's own segment keeps every entry in the segment its hash selects and keeps the keys of each segment unique |
| `Dictionary.RemoveKeepsInvariant` | ConsoleApp1/ConsoleApp1/Program.cs:48-64 | `Delete` on the key's own segment keeps every remaining entry in the segment its hash selects and keeps the keys of each segment unique |
| `Dictionary.InsertRefines` | ConsoleApp1/ConsoleApp1/Program.cs:27-45 | changing only the key's segment by `Put` keeps the invariant (placement by hash, unique keys), and the map becomes the old map with `key := value` |
| `Dictionary.RemoveRefines` | ConsoleApp1/ConsoleApp1/Program.cs:48-64 | changing only the key's segment by `Delete` keeps the invariant, and the map becomes the old map without `key` |
| `Dictionary.HashDictionary.Insert` | ConsoleApp1/ConsoleApp1/Program.cs:27-45 | the loop overwrites in place or appends. Only segment `HashFunction(key)` changes, and it becomes `Put` of the old one. The invariant is kept and `Contents()` is the old map with `key := value`, so `Search(key)` then returns `value` |
| `Dictionary.HashDictionary.Remove` | ConsoleApp1/ConsoleApp1/Program.cs:48-64 | returns true exactly when the key was in the map. Only the key's segment changes, and it becomes `Delete` of the old one. An absent key leaves every segment unchanged. The invariant is kept and `Contents()` loses the key |
| `Dictionary.HashDictionary.Search` | ConsoleApp1/ConsoleApp1/Program.cs:67-82 | returns the value of the first entry with the key in its segment, and `None` (`null`) when there is none. That is exactly the map's value for the key. The table is not modified |
| `Dictionary.HashDictionary.SaveToFile` | ConsoleApp1/ConsoleApp1/Program.cs:85-98 | the nested loops produce exactly `Lines(segments)`, one `key:value` line per entry, segment by segment |
| `Dictionary.HashDictionary.ClearSegments` | ConsoleApp1/ConsoleApp1/Program.cs:106-110 | after every segment is cleared, the segments are exactly `EmptySegments()` (`SegmentCount` empty lists), the invariant holds and the table stands for the empty map |
| `Dictionary.HashDictionary.LoadFromFile` | ConsoleApp1/ConsoleApp1/Program.cs:101-125 | a missing file reports `FileNotFound` and leaves every segment unchanged. Otherwise the new segments are `ReplaySegments` of the lines read: clear, then `Put` each two-part line into its key's segment in file order, which fixes the order a later `SaveToFile` writes. The invariant holds and the table stands for `LoadMap` of the lines read. The outcome is `Loaded` when the reader reached the end of the file, and `ReadFailed` when opening or reading failed, which leaves the table cleared and holding only the lines read before the failure |
| `Dictionary.ReplaySegmentsRefines` | ConsoleApp1/ConsoleApp1/Program.cs:106-124 | replaying a file's lines into empty segments keeps the invariant, and the segments stand for the map `LoadMap` builds from the same lines |
| `TextFormat.Split` | ConsoleApp1/ConsoleApp1/Program.cs:118 | `Split(':')` cuts at every colon. It yields one more part than there are colons, no part holds a colon, and joining the parts with `:` restores the line |
| `TextFormat.ParseLine` | ConsoleApp1/ConsoleApp1/Program.cs:118-122 | a line is kept exactly when it holds one `:`. The key and value kept are the text before and after that colon |
| `TextFormat.ParseFormat` | ConsoleApp1/ConsoleApp1/Program.cs:94 | a line written as `key:value` reads back as the same pair when neither side holds `:` |
| `TextFormat.SegmentLines` | ConsoleApp1/ConsoleApp1/Program.cs:92-95 | one line per entry of a segment, the `j`-th line formatting the `j`-th entry |
| `TextFormat.SaveOrder` | ConsoleApp1/ConsoleApp1/Program.cs:90-96 | the saved lines of segment `i` come after those of every lower segment and before those of every higher one |
| `TextFormat.LoadMapStep` | ConsoleApp1/ConsoleApp1/Program.cs:116-122 | one more line changes the loaded map by one `Insert` exactly when the line splits into two parts, and leaves it unchanged otherwise |
| `TextFormat.LoadMapKeys` | ConsoleApp1/ConsoleApp1/Program.cs:116-122 | a key is loaded exactly when some kept line carries it |
| `TextFormat.LoadLastWins` | ConsoleApp1/ConsoleApp1/Program.cs:116-122 | for duplicate keys the loaded value is the one on the last kept line with that key |
| `TextFormat.SaveLoadRoundTrip` | ConsoleApp1/ConsoleApp1/Program.cs:85-125 | loading the saved lines rebuilds exactly the map the segments stand for, when no key or value holds `:`, `\n` or `\r` |
| `Dictionary.SaveThenLoad` | ConsoleApp1/ConsoleApp1/Program.cs:85-125 | saving a table and reading the whole file back into the same or another table gives the target the contents the source had before, when no key or value holds `:`, `\n` or `\r` |
| `Dictionary.SaveThenReload` | ConsoleApp1/ConsoleApp1/Program.cs:149-229 | `Main`'s one table, saved (option 4) and loaded back (option 5), keeps its contents and its invariant, when no key or value holds `:`, `\n` or `\r` |

## Left out

- `Program.Main` (Program.cs:145-260) is left out: the menu loop, console input and `int.TryParse` are a driver with no table logic. `SingleKeyScenario`, `SaveThenLoad` and `SaveThenReload` play the part of such a caller.
- `PrintAll` (Program.cs:128-142) is left out because it only writes to the console.
- `string.GetHashCode` is a .NET call whose values differ from process to process. It is a constructor parameter `hash: string -> int32`, fixed for the table's lifetime. Only the bound on the segment index is proved about it.
- File I/O is abstracted. `StreamWriter`, `StreamReader` and `File.Exists` are not modelled. A read file is `Read(lines, complete)`: the lines read and whether the reader reached the end. A missing file is `Missing`. `FileNotFoundException` is the outcome `FileNotFound`, and any exception from opening or reading the file is the outcome `ReadFailed`.
- `SaveToFile` returns its lines. The exception for an unwritable path is not modelled.
- `LoadFromFile`: which exception an open or read failure throws (`IOException`, `UnauthorizedAccessException`, a file deleted after the existence check) is not distinguished; all of them are `ReadFailed`.
- `LoadFromFile`: the text encoding of `StreamWriter` and `StreamReader` is not modelled. `Storable` is a condition on lines only, so encoding effects fall outside the round trip. For example, `StreamReader` drops a leading U+FEFF from the first saved key as a byte-order mark.
- How `ReadLine` cuts a file into lines (newline and carriage return) is not modelled: a file is already a sequence of lines. The save/load round trip (`SaveLoadRoundTrip`, `SaveThenLoad`) therefore requires that no key or value holds `\n` or `\r` (`Storable`), since `ReadLine` would cut such a line in two.
- `null` keys and values, and the `NullReferenceException` that `GetHashCode` throws on a `null` key, are left out. Keys and values are always strings here.
- `_segments[i]` in the source is a reference to a mutable `List`. The model copies the segment value and writes it back into `segments`. No aliasing of segments is modelled.

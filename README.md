# DirContentCompare comparison engine, in Dafny

This project models the engine of DirContentCompare, a tool that compares two
directory trees by file content rather than by name. `DirComparator` takes
the listings of two directories and an optional ignore pattern. It then runs
three stages:

- **Filter** drops the files whose full path matches the pattern.
- **Hash** fingerprints every file of one side. The first file with a
  fingerprint becomes the canonical entry of that side's dictionary. Every
  later file with the same fingerprint becomes a duplicate record
  `(canonical, duplicate)`.
- **Compare** walks a snapshot of the left dictionary. It moves every entry
  whose fingerprint the right dictionary also has into a new common
  dictionary, removing that key from both inputs in place.

`CompareAsync` chains the stages (Filter only when a pattern was given) and
tags the values of the three dictionaries Common or Unique. It returns five
collections: common, left-only, left duplicates, right-only and right
duplicates. Every stage reports its progress through a `StatusChanged`
event.

The model has these parts:

- `Comparator.DirComparator` is a class with the comparator's fields. The two
  events are fields that the methods append to: `log` holds every status
  notification and `completions` every result delivered to `Completed`.
- `Filter`, `Hash` and `Compare` are methods with the source's loops and
  counters. Each is proved against a specification function:
  - `Kept` (filtering) and `FilterLog`;
  - `Hashed`, a left fold of `HashStep` over the listing, and `HashLog`;
  - `Compared`, a closed form of the partition, and `CompareLog`. The loop is
    tied to it through the fold `ComparedUpTo`/`CompareStep` and the lemmas
    `ComparedUpToClosed` and `ComparedUpToEnd`.
- `CompareAsync` is proved equal to the value `Pipeline.Run` and to the
  notification sequence `Pipeline.RunLog`.
- The .NET `Dictionary<string, FileInfo>` is the class
  `Dictionaries.FileDictionary`. It holds the keys in enumeration order (a
  `seq`) and the entries (a `map`); its value is the datatype `Table`.
- Everything the source promises about the result is proved about the
  functions, as lemmas. Examples: the key set of a hashed side is the set of
  its fingerprints; each value is the first file with that fingerprint; the
  three compared dictionaries partition the keys; on each side, common items
  + side-only items + duplicate records = the number of listed files.

The fingerprint (MD5 of the content, as Base64 text) is a function parameter
`fingerprint: seq<byte> -> string`. Matching a regular expression is a
function parameter `isMatch: (pattern, text) -> bool`. A directory is the
datatype `Comparator.Directory`, which carries the listing that a recursive
`GetFiles` returns.

Behaviour of the code that the model keeps:

- A common item keeps only the left file of the shared fingerprint. The
  right file with that fingerprint is in neither Common nor Right, because
  Compare removes only its dictionary key (`DirComparator.cs:104-106`). It
  still appears as the canonical file of any right duplicate record
  (`Pipeline.RunRightRepeat`).
- Compare edits both input dictionaries in place while it walks a copy of
  the left one (`DirComparator.cs:100-107`).
  `Comparator.DirComparator.Compare`'s ensures give both edited states.
- `Pipeline.RunIntraSideDuplicate` states the outcome for two equal left
  files and one equal right file: one common item (the first left file) and
  one left duplicate record.

## Model

| member | source | states |
|---|---|---|
| Comparator.DirComparator.constructor | DirComparator.cs:22-28 | stores both directories; a pattern is compiled (`ignore` is present) exactly when the pattern text is not empty; no notification or result has been raised yet |
| Comparator.DirComparator.Filter | DirComparator.cs:63-75 | returns `Kept(input)`, the files whose full path the pattern does not match, in listing order; appends one Filtering notification per examined file, numbered 0..n-1 out of n; raises no result |
| Comparator.DirComparator.Hash | DirComparator.cs:77-94 | returns a fresh, well-formed dictionary equal to `Hashed(input).table` and the duplicate list `Hashed(input).duplicates`; appends one Hashing notification per file, numbered 1..n out of n |
| Comparator.DirComparator.Compare | DirComparator.cs:96-114 | returns the two input dictionaries (the same objects) and a fresh common dictionary; afterwards common, left and right equal the three tables of `Compared(old left, old right)`, and all three are well formed; appends one Comparing notification per original left entry |
| Comparator.CompareTurn | DirComparator.cs:103-107 | one turn of Compare's loop for snapshot entry i takes the three dictionaries from fold step `ComparedUpTo(i)` to `ComparedUpTo(i + 1)` |
| Comparator.DirComparator.CompareAsync | DirComparator.cs:30-61 | the result is `Run(left listing, right listing, ignore)`; the notifications raised are `RunLog(...)`: two Listing markers, the Filtering notifications of both sides only when a pattern is set, the Hashing notifications of left then right, then the Comparing notifications; the result is delivered to `Completed` once |
| Pipeline.Run | DirComparator.cs:30-61 | specification of the result: the (optionally filtered) listings are hashed, compared and assembled; what it contains is stated by the lemmas `RunParts`, `RunCommon`, `RunLeftOnly`, `RunRightOnly`, `RunDuplicates`, `RunDisjoint`, `RunAccounting`, `RunFromListings` and `RunFilterExcludes` |
| Pipeline.RunLog | DirComparator.cs:30-61 | specification of the notifications, in order: two Listing markers, the Filtering notifications of both sides when a pattern is set, the Hashing notifications of left then right, then the Comparing notifications; `CompareAsync`'s ensures tie the raised log to it |
| Pipeline.Assemble | DirComparator.cs:51-57 | the result's five collections: each compared dictionary's values in enumeration order tagged Common (common) or Unique (left, right), and the two duplicate lists unchanged; `ItemsInOrder` and `SideItems` state what the items are |
| Pipeline.Listed | DirComparator.cs:37-40 | without a pattern the listing passes through unchanged; with one, a file stays exactly when it was listed and the pattern does not match its full path |
| Pipeline.RunParts | DirComparator.cs:43-57 | the result is assembled from `Compared` of the two hashed sides; the three dictionaries are well formed and hold exactly the fingerprints of both sides, of the left only and of the right only, with the values of the hashed sides |
| Pipeline.RunCommon | DirComparator.cs:52 | every common item is a plain item tagged Common holding the left side's first file with its fingerprint; the fingerprints of the common items are exactly those found on both sides; no two common items share a fingerprint |
| Pipeline.RunLeftOnly | DirComparator.cs:53 | every left item is a plain item tagged Unique holding the left side's first file with its fingerprint; their fingerprints are exactly those of the left side that the right lacks; no two share a fingerprint |
| Pipeline.RunRightOnly | DirComparator.cs:55 | the same for the right items, with the roles of the sides swapped |
| Pipeline.RunDuplicates | DirComparator.cs:54-56 | each side's duplicate list holds, in listing order, one record per file whose fingerprint an earlier file of that side had, pairing the first such file with the repeat; every repeated file has its record |
| Pipeline.RunDisjoint | DirComparator.cs:96-114 | no fingerprint appears in more than one of the common, left-only and right-only collections |
| Pipeline.RunAccounting | DirComparator.cs:30-61 | on each side, common items + side-only items + duplicate records = number of files in the filtered listing |
| Pipeline.RunFromListings | DirComparator.cs:37-56 | every file named by an item of a side (including both files of a duplicate record) belongs to that side's filtered listing |
| Pipeline.RunFilterExcludes | DirComparator.cs:69 | with a pattern set, a file whose full path it matches appears in none of the five collections |
| Pipeline.RunEmpty | DirComparator.cs:30-61 | two empty directories give five empty collections and only the two Listing notifications |
| Pipeline.RunSameContent | DirComparator.cs:100-106 | with no ignore pattern, one file on each side with the same content but any names gives one common item holding the left file, and nothing else |
| Pipeline.RunIntraSideDuplicate | DirComparator.cs:86-106 | with no ignore pattern, two equal files on the left and an equal one on the right give one common item (the first left file), one left duplicate record (first, second) and no side-only items |
| Pipeline.RunRightRepeat | DirComparator.cs:86-106 | with no ignore pattern, one file on the left and two equal ones on the right give one common item (the left file), no side-only items, and one right duplicate record whose canonical file is the first right file, although that file is reported nowhere else |
| Pipeline.ItemsInOrder | DirComparator.cs:52-56 | item i made from a dictionary is a plain item holding the dictionary's entry i in enumeration order, with the given type |
| Pipeline.SideItems | DirComparator.cs:52-56 | the items made from a sub-dictionary of a hashed side have the given type, hold the canonical files, have exactly the sub-dictionary's keys as fingerprints, and no two share one |
| Files.ConvertAllToArray | DirComparator.cs:149-151 | as many items as files, in the same order; item i is a plain item holding file i with the given type |
| Files.ComparedFile.TypeAbbr | DirComparator.cs:145 | one character, the first letter of the type's name |
| Files.TypeAbbrDistinguishes | DirComparator.cs:140-145 | items of different types show different abbreviations |
| Files.ComparedFile.FileName | DirComparator.cs:158 | a plain item shows its file's name (line 146); a duplicate record shows the canonical name, " <=> ", then the duplicate's name |
| Files.ComparedFile.FullName | DirComparator.cs:159 | a plain item shows its file's full path (line 147); a duplicate record shows both full paths around " <=> " |
| Filtering.Kept | DirComparator.cs:63-75 | the filtered listing is no longer than the input |
| Filtering.KeptMembers | DirComparator.cs:67-71 | a file is kept exactly when it is in the input and the pattern does not match its full path |
| Filtering.KeptAppend | DirComparator.cs:67-73 | filtering a concatenation filters each part and keeps them in order |
| Filtering.KeptSingle | DirComparator.cs:69-71 | a single file is kept exactly when its full path does not match |
| Filtering.KeptAllWhenNothingMatches | DirComparator.cs:69-71 | when the pattern matches no file, the listing passes through unchanged |
| Hashing.Hashed | DirComparator.cs:83-92 | specification of Hash: a fold of `HashStep` over the listing, where a new fingerprint adds the file as its dictionary entry and a repeat adds a duplicate record; `Hash`'s ensures equal it, and `HashedTable`, `HashedKeyOrder`, `HashedDuplicateOrder` and `HashedInvariant` state its meaning |
| Hashing.HashedSnoc | DirComparator.cs:83-92 | hashing one more file is one more `HashStep` |
| Hashing.HashedInvariant | DirComparator.cs:83-93 | the dictionary is well formed, every file it holds is stored under its own fingerprint, and dictionary size + duplicate records = number of input files |
| Hashing.HashedTable | DirComparator.cs:83-92 | the dictionary's key set is the set of fingerprints of the input, and the value under each key is the first file of the input with that fingerprint |
| Hashing.HashedKeyOrder | DirComparator.cs:87-91 | the dictionary enumerates its keys in the order in which their fingerprints first occur in the input |
| Hashing.HashedCanonical | DirComparator.cs:87-90 | the value under a key has that key as fingerprint and is the canonical (first) file for it |
| Hashing.HashedDuplicateOrder | DirComparator.cs:87-88 | the duplicate records correspond, in order, to the input positions at which a fingerprint is seen again |
| Hashing.HashedDuplicateRecords | DirComparator.cs:86-91 | each record is a duplicate pair whose `file` is the dictionary entry for the duplicate's fingerprint and is an earlier input file |
| Hashing.HashedRepeatsRecorded | DirComparator.cs:87-88 | every file seen again after an earlier file with its fingerprint has a duplicate record |
| Hashing.DuplicateNeverCanonical | DirComparator.cs:86-91 | when the listing names every file once, no duplicate file is a dictionary value |
| Hashing.PositionsCount | DirComparator.cs:83-92 | every input file is either seen first or seen again, never both |
| Hashing.PositionsMembers | DirComparator.cs:87 | the recorded positions are exactly those at which a fingerprint is seen first (or again) |
| Hashing.PositionsIncreasing | DirComparator.cs:83 | the recorded positions are increasing indices of the input |
| Hashing.FirstIndex | DirComparator.cs:87-90 | the index found holds a file with the fingerprint, and no earlier file has it |
| Comparing.Compared | DirComparator.cs:96-114 | closed form of Compare's outcome: common is the left dictionary restricted to the right's keys, and each side-only dictionary is that side without the other's keys, each in the left's or the right's enumeration order; `ComparedPartition` and `ComparedCounts` state its meaning, and `ComparedUpToEnd` ties the loop to it |
| Comparing.ComparedValid | DirComparator.cs:109-113 | the three dictionaries Compare hands back are well formed |
| Comparing.ComparedPartition | DirComparator.cs:99-113 | common keys = keys of both sides; left keys = left keys the right lacks; right keys = right keys the left lacks; the three key sets are pairwise disjoint; common + left covers the left and common + right covers the right; every value is the left (for common and left) or right (for right) value |
| Comparing.ComparedCounts | DirComparator.cs:96-113 | common size + left-only size = original left size, and likewise for the right |
| Comparing.ComparedUpToClosed | DirComparator.cs:100-108 | after i turns the loop state equals the closed form for the shared keys among the first i left keys |
| Comparing.ComparedUpToNext | DirComparator.cs:100-106 | the key of turn i is not yet common (so Add applies), and turn i is one `CompareStep` |
| Comparing.ComparedUpToValid | DirComparator.cs:100-108 | before every turn the three dictionaries are well formed |
| Comparing.ComparedUpToEnd | DirComparator.cs:100-113 | after a turn for every left entry, the loop has computed `Compared` |
| Comparing.CompareLogPerEntry | DirComparator.cs:97-102 | exactly one Comparing notification per original left entry, in enumeration order, carrying that entry's file and numbered 1..n out of n |
| Progress.ProgressLog | DirComparator.cs:67-68 | one notification per examined file |
| Progress.ProgressLogEntries | DirComparator.cs:83-85 | notification i carries the stage's action and side, file i, and count first + i out of total; Hash uses first = 1 and Filter first = 0 (lines 64-72) |
| Progress.ProgressLogSnoc | DirComparator.cs:83-85 | one more file adds its notification at the end |
| Dictionaries.Table.Values | DirComparator.cs:52-56 | one value per listed key |
| Dictionaries.ValuesInOrder | DirComparator.cs:52-56 | value i is the entry of key i: Values follows enumeration order |
| Dictionaries.TableCount | DirComparator.cs:97 | a well-formed dictionary has as many entries as listed keys |
| Dictionaries.FileDictionary.constructor | DirComparator.cs:81 | a new dictionary is empty and well formed |
| Dictionaries.FileDictionary.Count | DirComparator.cs:97 | the number of listed keys |
| Dictionaries.FileDictionary.ContainsKey | DirComparator.cs:87 | true exactly when the key has an entry |
| Dictionaries.FileDictionary.Get | DirComparator.cs:88 | the entry under a present key |
| Dictionaries.FileDictionary.Add | DirComparator.cs:90 | the key is appended to the enumeration order and the entry is stored; well-formedness is kept |
| Dictionaries.FileDictionary.Remove | DirComparator.cs:105-106 | says whether the key was present; the key leaves both the enumeration order and the entries; well-formedness is kept |

## Left out

- `MainWindow.xaml.cs` (folder dialogs, message boxes, list binding, launching Explorer) is not part of this model. It is user interface code. Its root-folder checks before a comparison starts are not modelled.
- `GetFiles` (`DirComparator.cs:32`, `:34`) is file-system I/O. A `Directory` carries its recursive listing as a given sequence, and its order is that listing's order.
- `FileEntry.name` and `FileEntry.fullName` are taken as given. The model does not state that the name is the last segment of the full path, as .NET's `FileInfo` guarantees, and nothing in the model depends on it.
- MD5 and Base64 (`DirComparator.cs:78`, `:86`) are the parameter `fingerprint`. Reading the file (`OpenRead`, and the stream that is never closed) becomes the file's `content` bytes.
- The `Regex` engine (`DirComparator.cs:26`, `:69`) is the parameter `isMatch`. A pattern that fails to compile throws in the constructor; that exception is not modelled.
- The exceptions from I/O failures (unreadable folders or files) are not modelled.
- `Task.Run`, `Task.WhenAll` and async/await (`DirComparator.cs:32-49`) are concurrency. The stages run in sequence, and the left side is hashed before the right. In the source the two Hashing streams can interleave; `RunLog` fixes one order.
- The `?.Invoke` calls raise an event only when someone subscribed. The model always records the notification, as if a subscriber were attached.
- `DirComparatorStatus.ToString` (`DirComparator.cs:173-178`) formats a floating-point percentage for display and is not modelled.
- Dictionaries.FileDictionary.Add: requires the key to be absent. The source calls it only for absent keys, and .NET's `Add` would throw otherwise.
- Dictionaries.FileDictionary.Get: requires the key to be present. The source indexes only a key it has just found.
- Dictionaries.FileDictionary: enumeration follows insertion order with removed keys dropped. .NET does this when no `Add` follows a `Remove` on the same dictionary, which holds for every dictionary in this code.
- Comparator.DirComparator.Compare: requires two different dictionary objects, which `CompareAsync` always passes. It does not model what .NET would do if the same dictionary were passed twice.
- Hashing.DuplicateNeverCanonical: requires a listing that names every file once, which a directory listing does.

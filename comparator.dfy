/** The comparator object: its three stages and the pipeline that chains them (DirComparator). */
module Comparator {
  import opened Options
  import opened Files
  import opened Dictionaries
  import opened Progress
  import opened Filtering
  import opened Hashing
  import opened Comparing
  import opened Pipeline

  /**
   * A directory to compare, with the files a recursive listing of it yields.
   * Its path identifies it only; the comparison reads nothing but the listing.
   */
  datatype Directory = Directory(fullName: string, allFiles: seq<FileEntry>)

  /** What Hash returns for one side: the canonical dictionary and the duplicate records. */
  datatype HashResult = HashResult(files: FileDictionary, duplicates: seq<ComparedFile>)

  /** What Compare returns: the common dictionary and the two edited input dictionaries. */
  datatype CompareResult = CompareResult(common: FileDictionary, left: FileDictionary, right: FileDictionary)

  class DirComparator {
    const leftDir: Directory
    const rightDir: Directory
    /** The ignore pattern; absent when the pattern text is empty. */
    const ignore: Option<Regex>
    /** The regular-expression engine: does the pattern match the text? */
    const isMatch: (string, string) -> bool
    /** The content fingerprint (the Base64 text of the MD5 digest). */
    const fingerprint: seq<byte> -> Fingerprint
    /** Every StatusChanged notification raised so far. */
    var log: seq<Status>
    /** Every Completed notification raised so far. */
    var completions: seq<DirComparatorResult>

    constructor (leftDir: Directory, rightDir: Directory, ignorePattern: string,
                 isMatch: (string, string) -> bool, fingerprint: seq<byte> -> Fingerprint)
      ensures this.leftDir == leftDir && this.rightDir == rightDir
      ensures ignore.Some? <==> ignorePattern != ""
      ensures ignore.Some? ==> ignore.value == Regex(ignorePattern)
      ensures this.isMatch == isMatch && this.fingerprint == fingerprint
      ensures log == [] && completions == []
    {
      this.leftDir := leftDir;
      this.rightDir := rightDir;
      if ignorePattern != "" {
        ignore := Some(Regex(ignorePattern));
      } else {
        ignore := None;
      }
      this.isMatch := isMatch;
      this.fingerprint := fingerprint;
      log, completions := [], [];
    }

    /** Drops the files whose full path matches the ignore pattern, raising one notification per file. */
    method Filter(input: seq<FileEntry>, side: Side) returns (files: seq<FileEntry>)
      requires ignore.Some?
      modifies this
      ensures files == Kept(input, ignore.value.pattern, isMatch)
      ensures log == old(log) + FilterLog(input, side)
      ensures completions == old(completions)
    {
      var totalops := |input|;
      var currentop := 0;
      files := [];
      var i := 0;
      while i < |input|
        invariant 0 <= i <= |input| && currentop == i
        invariant files == Kept(input[..i], ignore.value.pattern, isMatch)
        invariant log == old(log) + ProgressLog(Filtering, side, input[..i], 0, totalops)
        invariant completions == old(completions)
      {
        var file := input[i];
        ProgressLogSnoc(Filtering, side, input, i, 0, totalops);
        AppendBatch(old(log), ProgressLog(Filtering, side, input[..i], 0, totalops), [Status(Filtering, side, Some(file), currentop, totalops)]);
        log := log + [Status(Filtering, side, Some(file), currentop, totalops)];
        if !isMatch(ignore.value.pattern, file.fullName) {
          files := files + [file];
        }
        currentop := currentop + 1;
        assert input[..i + 1][..i] == input[..i];
        i := i + 1;
      }
      assert input[..i] == input;
    }

    /** Builds one side's canonical dictionary and duplicate records, raising one notification per file. */
    method Hash(input: seq<FileEntry>, side: Side) returns (result: HashResult)
      modifies this
      ensures fresh(result.files) && result.files.Valid()
      ensures result.files.Contents() == Hashed(input, fingerprint).table
      ensures result.duplicates == Hashed(input, fingerprint).duplicates
      ensures log == old(log) + HashLog(input, side)
      ensures completions == old(completions)
    {
      var totalops := |input|;
      var currentop := 0;
      var files := new FileDictionary();
      var duplicates: seq<ComparedFile> := [];
      ghost var state := Hashed([], fingerprint);
      var i := 0;
      assert input[..0] == [];
      while i < |input|
        invariant 0 <= i <= |input| && currentop == i
        invariant fresh(files)
        invariant state == Hashed(input[..i], fingerprint)
        invariant files.keys == state.table.keys && files.entries == state.table.entries
        invariant duplicates == state.duplicates
        invariant log == old(log) + ProgressLog(Hashing, side, input[..i], 1, totalops)
        invariant completions == old(completions)
      {
        var file := input[i];
        HashedSnoc(input, i, fingerprint);
        ProgressLogSnoc(Hashing, side, input, i, 1, totalops);
        currentop := currentop + 1;
        AppendBatch(old(log), ProgressLog(Hashing, side, input[..i], 1, totalops), [Status(Hashing, side, Some(file), currentop, totalops)]);
        log := log + [Status(Hashing, side, Some(file), currentop, totalops)];
        var hash := fingerprint(file.content);
        var present := files.ContainsKey(hash);
        if present {
          var canonical := files.Get(hash);
          duplicates := duplicates + [DuplicatePair(canonical, Duplicate, file)];
        } else {
          files.Add(hash, file);
        }
        state := HashStep(state, file, fingerprint);
        assert log == old(log) + ProgressLog(Hashing, side, input[..i + 1], 1, totalops);
        i := i + 1;
      }
      assert input[..i] == input;
      HashedInvariant(input, fingerprint);
      result := HashResult(files, duplicates);
    }

    /**
     * Moves every left entry whose key the right also has into a new common
     * dictionary, removing that key from both inputs; what stays in the inputs
     * is left-only and right-only. Walks a snapshot of the left entries.
     */
    method Compare(leftFiles: FileDictionary, rightFiles: FileDictionary) returns (result: CompareResult)
      requires leftFiles != rightFiles && leftFiles.Valid() && rightFiles.Valid()
      modifies this, leftFiles, rightFiles
      ensures result.left == leftFiles && result.right == rightFiles && fresh(result.common)
      ensures result.common.Valid() && leftFiles.Valid() && rightFiles.Valid()
      ensures var p := Compared(old(leftFiles.Contents()), old(rightFiles.Contents()));
        && result.common.Contents() == p.common
        && leftFiles.Contents() == p.left
        && rightFiles.Contents() == p.right
      ensures log == old(log) + CompareLog(old(leftFiles.Contents()))
      ensures completions == old(completions)
    {
      var totalops := leftFiles.Count();
      var currentop := 0;
      var commonFiles := new FileDictionary();
      var snapshot := leftFiles.Contents();
      ghost var right0 := rightFiles.Contents();
      ghost var values := snapshot.Values();
      TableCount(snapshot);
      var i := 0;
      while i < |snapshot.keys|
        invariant 0 <= i <= |snapshot.keys| && currentop == i
        invariant fresh(commonFiles)
        invariant var p := ComparedUpTo(snapshot, right0, i);
          commonFiles.Contents() == p.common && leftFiles.Contents() == p.left && rightFiles.Contents() == p.right
        invariant log == old(log) + ProgressLog(Comparing, BothFolders, values[..i], 1, totalops)
        invariant completions == old(completions)
      {
        ValueAt(snapshot, i);
        ProgressLogExtend(old(log), Comparing, BothFolders, values, i, 1, totalops);
        var value := snapshot.entries[snapshot.keys[i]];
        currentop := currentop + 1;
        log := log + [Status(Comparing, BothFolders, Some(value), currentop, totalops)];
        CompareTurn(commonFiles, leftFiles, rightFiles, snapshot, right0, i);
        i := i + 1;
      }
      assert values[..i] == values;
      ComparedUpToEnd(snapshot, right0);
      ComparedValid(snapshot, right0);
      result := CompareResult(commonFiles, leftFiles, rightFiles);
    }

    /** Lists, optionally filters, hashes and compares both sides, and assembles the result. */
    method CompareAsync() returns (result: DirComparatorResult)
      modifies this
      ensures result == Run(leftDir.allFiles, rightDir.allFiles, ignore, isMatch, fingerprint)
      ensures log == old(log) + RunLog(leftDir.allFiles, rightDir.allFiles, ignore, isMatch, fingerprint)
      ensures completions == old(completions) + [result]
    {
      ghost var raised: seq<Status> := [];
      AppendBatch(old(log), [], [Status(Listing, LeftFolder, None, 0, 0)]);
      log := log + [Status(Listing, LeftFolder, None, 0, 0)];
      var left := leftDir.allFiles;
      log := log + [Status(Listing, RightFolder, None, 0, 0)];
      var right := rightDir.allFiles;
      raised := [Status(Listing, LeftFolder, None, 0, 0), Status(Listing, RightFolder, None, 0, 0)];
      assert log == old(log) + raised;
      if ignore.Some? {
        left := Filter(left, LeftFolder);
        right := Filter(right, RightFolder);
        AppendBatch(old(log), raised, FilterLog(leftDir.allFiles, LeftFolder));
        AppendBatch(old(log), raised + FilterLog(leftDir.allFiles, LeftFolder), FilterLog(rightDir.allFiles, RightFolder));
        assert raised + FilterLog(leftDir.allFiles, LeftFolder) + FilterLog(rightDir.allFiles, RightFolder)
            == raised + (FilterLog(leftDir.allFiles, LeftFolder) + FilterLog(rightDir.allFiles, RightFolder));
        raised := raised + (FilterLog(leftDir.allFiles, LeftFolder) + FilterLog(rightDir.allFiles, RightFolder));
      } else {
        // No Filtering notifications: the empty middle part of RunLog.
        raised := raised + [];
      }
      assert left == Listed(leftDir.allFiles, ignore, isMatch);
      assert right == Listed(rightDir.allFiles, ignore, isMatch);
      assert log == old(log) + raised;
      var lefthash := Hash(left, LeftFolder);
      AppendBatch(old(log), raised, HashLog(left, LeftFolder));
      raised := raised + HashLog(left, LeftFolder);
      var righthash := Hash(right, RightFolder);
      AppendBatch(old(log), raised, HashLog(right, RightFolder));
      raised := raised + HashLog(right, RightFolder);
      ghost var l, r := Hashed(left, fingerprint), Hashed(right, fingerprint);
      HashedInvariant(left, fingerprint);
      HashedInvariant(right, fingerprint);
      assert lefthash.files.Contents() == l.table;
      var compared := Compare(lefthash.files, righthash.files);
      AppendBatch(old(log), raised, CompareLog(l.table));
      raised := raised + CompareLog(l.table);
      assert raised == RunLog(leftDir.allFiles, rightDir.allFiles, ignore, isMatch, fingerprint);
      ghost var p := Compared(l.table, r.table);
      ComparedValid(l.table, r.table);
      result := Assemble(Partition(compared.common.Contents(), compared.left.Contents(), compared.right.Contents()),
                         lefthash.duplicates, righthash.duplicates);
      assert result == Assemble(p, l.duplicates, r.duplicates);
      completions := completions + [result];
    }
  }

  /**
   * The dictionary work of turn `i` of Compare's loop, for entry `i` of the
   * snapshot of the left dictionary: when the right has its key, the entry is
   * added to the common dictionary and the key is removed from both inputs, so
   * the three dictionaries move from the fold's step `i` to step `i + 1`.
   */
  method CompareTurn(commonFiles: FileDictionary, leftFiles: FileDictionary, rightFiles: FileDictionary,
                     snapshot: Table, ghost right0: Table, i: nat)
    requires commonFiles != leftFiles && commonFiles != rightFiles && leftFiles != rightFiles
    requires snapshot.Valid() && i < |snapshot.keys|
    requires var p := ComparedUpTo(snapshot, right0, i);
      commonFiles.Contents() == p.common && leftFiles.Contents() == p.left && rightFiles.Contents() == p.right
    modifies commonFiles, leftFiles, rightFiles
    ensures var p := ComparedUpTo(snapshot, right0, i + 1);
      commonFiles.Contents() == p.common && leftFiles.Contents() == p.left && rightFiles.Contents() == p.right
  {
    ComparedUpToNext(snapshot, right0, i);
    var key := snapshot.keys[i];
    var value := snapshot.entries[key];
    var present := rightFiles.ContainsKey(key);
    if present {
      commonFiles.Add(key, value);
      var removedLeft := leftFiles.Remove(key);
      var removedRight := rightFiles.Remove(key);
    }
  }
}

/**
 * What the Hash stage builds from one side's listing: the canonical dictionary
 * (first file seen per fingerprint) and the duplicate records, in listing order.
 */
module Hashing {
  import opened Files
  import opened Dictionaries
  import opened Progress

  /** The dictionary key of a file: the fingerprint of its content. */
  function Key(f: FileEntry, fingerprint: seq<byte> -> Fingerprint): (r: Fingerprint)
  {
    fingerprint(f.content)
  }

  /** The two results of hashing one side (HashResult, as values). */
  datatype HashState = HashState(table: Table, duplicates: seq<ComparedFile>)

  /**
   * One file's turn: a file whose fingerprint is already a key becomes a
   * duplicate record beside the canonical file; otherwise it is added under it.
   */
  function HashStep(s: HashState, file: FileEntry, fingerprint: seq<byte> -> Fingerprint): (r: HashState)
  {
    var k := Key(file, fingerprint);
    if k in s.table.entries then
      HashState(s.table, s.duplicates + [DuplicatePair(s.table.entries[k], Duplicate, file)])
    else
      HashState(Table(s.table.keys + [k], s.table.entries[k := file]), s.duplicates)
  }

  /** The result of hashing `input` file by file in order. */
  function Hashed(input: seq<FileEntry>, fingerprint: seq<byte> -> Fingerprint): (r: HashState)
    decreases |input|
  {
    if input == [] then HashState(Table([], map[]), [])
    else HashStep(Hashed(input[..|input| - 1], fingerprint), input[|input| - 1], fingerprint)
  }

  /** Hashing one more file of a listing is one more step. */
  lemma HashedSnoc(input: seq<FileEntry>, i: int, fingerprint: seq<byte> -> Fingerprint)
    requires 0 <= i < |input|
    ensures Hashed(input[..i + 1], fingerprint) == HashStep(Hashed(input[..i], fingerprint), input[i], fingerprint)
  {
    assert input[..i + 1][..i] == input[..i];
  }

  /**
   * Hashing keeps the dictionary well formed, stores every file it holds under
   * its own fingerprint, and dictionary entries plus duplicate records number
   * the input files.
   */
  lemma {:induction false} HashedInvariant(input: seq<FileEntry>, fingerprint: seq<byte> -> Fingerprint)
    ensures var s := Hashed(input, fingerprint);
      && s.table.Valid()
      && (forall k :: k in s.table.entries ==> Key(s.table.entries[k], fingerprint) == k)
      && |s.table.entries| == |s.table.keys|
      && |s.table.entries| + |s.duplicates| == |input|
    decreases |input|
  {
    if input != [] {
      var p := input[..|input| - 1];
      HashedInvariant(p, fingerprint);
      var prev := Hashed(p, fingerprint).table;
      var k := Key(input[|input| - 1], fingerprint);
      if k !in prev.entries {
        DistinctAppend(prev.keys, k);
      }
    }
  }

  /** The fingerprints of the files of `input`. */
  ghost function Fingerprints(input: seq<FileEntry>, fingerprint: seq<byte> -> Fingerprint): (r: set<Fingerprint>)
  {
    set f | f in input :: Key(f, fingerprint)
  }

  /** No earlier file of `input` has the fingerprint of file `i`. */
  ghost predicate IsFirst(input: seq<FileEntry>, i: int, fingerprint: seq<byte> -> Fingerprint)
    requires 0 <= i < |input|
  {
    forall j :: 0 <= j < i ==> Key(input[j], fingerprint) != Key(input[i], fingerprint)
  }

  /** The index of the first file of `input` with fingerprint `k`. */
  ghost function FirstIndex(input: seq<FileEntry>, k: Fingerprint, fingerprint: seq<byte> -> Fingerprint): (i: nat)
    requires k in Fingerprints(input, fingerprint)
    ensures i < |input| && Key(input[i], fingerprint) == k && IsFirst(input, i, fingerprint)
    decreases |input|
  {
    assert input != [];
    if Key(input[0], fingerprint) == k then 0
    else
      assert k in Fingerprints(input[1..], fingerprint) by {
        var f :| f in input && Key(f, fingerprint) == k;
        assert input == [input[0]] + input[1..];
        assert f in input[1..];
      }
      1 + FirstIndex(input[1..], k, fingerprint)
  }

  /** A file that is the first with its fingerprint is the one FirstIndex finds. */
  lemma FirstIndexUnique(input: seq<FileEntry>, i: int, fingerprint: seq<byte> -> Fingerprint)
    requires 0 <= i < |input| && IsFirst(input, i, fingerprint)
    ensures Key(input[i], fingerprint) in Fingerprints(input, fingerprint)
    ensures FirstIndex(input, Key(input[i], fingerprint), fingerprint) == i
  {
    assert input[i] in input;
  }

  lemma IsFirstPrefix(input: seq<FileEntry>, n: int, fingerprint: seq<byte> -> Fingerprint)
    requires 0 <= n <= |input|
    ensures forall j :: 0 <= j < n ==> (IsFirst(input, j, fingerprint) <==> IsFirst(input[..n], j, fingerprint))
  {
  }

  ghost predicate Increasing(s: seq<nat>)
  {
    forall i, j :: 0 <= i < j < |s| ==> s[i] < s[j]
  }

  /**
   * The indices of `input`, in increasing order, at which a fingerprint is seen
   * for the first time (`first`) or seen again (`!first`).
   */
  ghost function Positions(input: seq<FileEntry>, fingerprint: seq<byte> -> Fingerprint, first: bool): (r: seq<nat>)
    decreases |input|
  {
    if input == [] then []
    else
      var n := |input| - 1;
      Positions(input[..n], fingerprint, first) + (if IsFirst(input, n, fingerprint) == first then [n] else [])
  }

  /** Positions lists indices of the input, in increasing order. */
  lemma {:induction false} PositionsIncreasing(input: seq<FileEntry>, fingerprint: seq<byte> -> Fingerprint, first: bool)
    ensures var r := Positions(input, fingerprint, first);
      Increasing(r) && forall m :: 0 <= m < |r| ==> r[m] < |input|
    decreases |input|
  {
    if input != [] {
      PositionsIncreasing(input[..|input| - 1], fingerprint, first);
    }
  }

  /**
   * Positions lists exactly the indices at which a fingerprint is seen for the
   * first time (or, for `!first`, again).
   */
  lemma {:induction false} PositionsMembers(input: seq<FileEntry>, fingerprint: seq<byte> -> Fingerprint, first: bool)
    ensures var r := Positions(input, fingerprint, first);
      forall j :: 0 <= j < |input| ==> (j in r <==> IsFirst(input, j, fingerprint) == first)
    decreases |input|
  {
    if input != [] {
      var n := |input| - 1;
      PositionsIncreasing(input[..n], fingerprint, first);
      PositionsMembers(input[..n], fingerprint, first);
      IsFirstPrefix(input, n, fingerprint);
    }
  }

  lemma PositionsFacts(input: seq<FileEntry>, fingerprint: seq<byte> -> Fingerprint, first: bool)
    ensures var r := Positions(input, fingerprint, first);
      && Increasing(r)
      && (forall m :: 0 <= m < |r| ==> r[m] < |input|)
      && (forall j :: 0 <= j < |input| ==> (j in r <==> IsFirst(input, j, fingerprint) == first))
  {
    PositionsIncreasing(input, fingerprint, first);
    PositionsMembers(input, fingerprint, first);
  }

  /** The fingerprints of a prefix followed by one file. */
  lemma FingerprintsSnoc(input: seq<FileEntry>, fingerprint: seq<byte> -> Fingerprint)
    requires input != []
    ensures Fingerprints(input, fingerprint)
         == Fingerprints(input[..|input| - 1], fingerprint) + {Key(input[|input| - 1], fingerprint)}
  {
    assert input == input[..|input| - 1] + [input[|input| - 1]];
  }

  /** Extending a listing does not move the first occurrence of a fingerprint it already had. */
  lemma FirstIndexExtend(input: seq<FileEntry>, n: int, k: Fingerprint, fingerprint: seq<byte> -> Fingerprint)
    requires 0 <= n <= |input| && k in Fingerprints(input[..n], fingerprint)
    ensures k in Fingerprints(input, fingerprint)
    ensures FirstIndex(input, k, fingerprint) == FirstIndex(input[..n], k, fingerprint)
  {
    var i := FirstIndex(input[..n], k, fingerprint);
    IsFirstPrefix(input, n, fingerprint);
    FirstIndexUnique(input, i, fingerprint);
  }

  /** The last file of a listing is seen for the first time exactly when its fingerprint is new. */
  lemma LastIsFirst(input: seq<FileEntry>, fingerprint: seq<byte> -> Fingerprint)
    requires input != []
    ensures IsFirst(input, |input| - 1, fingerprint)
       <==> Key(input[|input| - 1], fingerprint) !in Fingerprints(input[..|input| - 1], fingerprint)
  {
    var n := |input| - 1;
    var p := input[..n];
    if Key(input[n], fingerprint) in Fingerprints(p, fingerprint) {
      var g :| g in p && Key(g, fingerprint) == Key(input[n], fingerprint);
      var j :| 0 <= j < n && p[j] == g;
      assert input[j] == g;
    } else {
      forall j | 0 <= j < n ensures Key(input[j], fingerprint) != Key(input[n], fingerprint) {
        assert input[j] == p[j] && p[j] in p;
      }
    }
  }

  /**
   * The canonical dictionary has exactly the fingerprints of the input as keys,
   * and the value of each is the first file in input order with that fingerprint.
   */
  lemma {:induction false} HashedTable(input: seq<FileEntry>, fingerprint: seq<byte> -> Fingerprint)
    ensures Hashed(input, fingerprint).table.entries.Keys == Fingerprints(input, fingerprint)
    ensures forall k :: k in Hashed(input, fingerprint).table.entries ==>
      Hashed(input, fingerprint).table.entries[k] == input[FirstIndex(input, k, fingerprint)]
    decreases |input|
  {
    if input != [] {
      var n := |input| - 1;
      var p := input[..n];
      var prev, s := Hashed(p, fingerprint).table.entries, Hashed(input, fingerprint).table.entries;
      var k := Key(input[n], fingerprint);
      HashedTable(p, fingerprint);
      FingerprintsSnoc(input, fingerprint);
      assert s == if k in prev then prev else prev[k := input[n]];
      forall key | key in s
        ensures s[key] == input[FirstIndex(input, key, fingerprint)]
      {
        if key in prev {
          FirstIndexExtend(input, n, key, fingerprint);
          assert s[key] == prev[key] == p[FirstIndex(p, key, fingerprint)];
        } else {
          LastIsFirst(input, fingerprint);
          FirstIndexUnique(input, n, fingerprint);
        }
      }
    } else {
      assert forall x :: x !in Fingerprints(input, fingerprint);
    }
  }

  /** Hashing one more file appends its fingerprint to the keys exactly when it is seen for the first time. */
  lemma HashedKeysSnoc(input: seq<FileEntry>, fingerprint: seq<byte> -> Fingerprint)
    requires input != []
    ensures var n := |input| - 1;
      Hashed(input, fingerprint).table.keys
        == Hashed(input[..n], fingerprint).table.keys
          + (if IsFirst(input, n, fingerprint) then [Key(input[n], fingerprint)] else [])
  {
    var n := |input| - 1;
    var p := input[..n];
    assert Hashed(input, fingerprint) == HashStep(Hashed(p, fingerprint), input[n], fingerprint);
    HashedTable(p, fingerprint);
    LastIsFirst(input, fingerprint);
  }

  /** The dictionary lists its keys in the order in which their fingerprints first occur. */
  lemma {:induction false} HashedKeyOrder(input: seq<FileEntry>, fingerprint: seq<byte> -> Fingerprint)
    ensures var keys, firsts := Hashed(input, fingerprint).table.keys, Positions(input, fingerprint, true);
      |keys| == |firsts| &&
      forall m :: 0 <= m < |firsts| ==> firsts[m] < |input| && keys[m] == Key(input[firsts[m]], fingerprint)
    decreases |input|
  {
    if input != [] {
      var n := |input| - 1;
      var p := input[..n];
      HashedKeyOrder(p, fingerprint);
      HashedKeysSnoc(input, fingerprint);
      var prevKeys, prevFirsts := Hashed(p, fingerprint).table.keys, Positions(p, fingerprint, true);
      var keys, firsts := Hashed(input, fingerprint).table.keys, Positions(input, fingerprint, true);
      assert firsts == prevFirsts + (if IsFirst(input, n, fingerprint) then [n] else []);
      forall m | 0 <= m < |firsts| ensures firsts[m] < |input| && keys[m] == Key(input[firsts[m]], fingerprint) {
        if m < |prevFirsts| {
          assert firsts[m] == prevFirsts[m] && keys[m] == prevKeys[m];
          assert input[prevFirsts[m]] == p[prevFirsts[m]];
        }
      }
    }
  }

  /** `d` is the duplicate record for file `j`: the first file with its fingerprint, paired with it. */
  ghost predicate RecordOf(input: seq<FileEntry>, j: int, d: ComparedFile, fingerprint: seq<byte> -> Fingerprint)
    requires 0 <= j < |input|
  {
    var g := input[j];
    assert g in input;
    d == DuplicatePair(input[FirstIndex(input, Key(g, fingerprint), fingerprint)], Duplicate, g)
  }

  lemma RecordOfExtend(input: seq<FileEntry>, n: int, j: int, d: ComparedFile, fingerprint: seq<byte> -> Fingerprint)
    requires 0 <= j < n <= |input| && RecordOf(input[..n], j, d, fingerprint)
    ensures RecordOf(input, j, d, fingerprint)
  {
    var g := input[j];
    assert input[..n][j] == g && g in input[..n];
    FirstIndexExtend(input, n, Key(g, fingerprint), fingerprint);
  }

  /** `dups` are the duplicate records, in order, for the files at the indices `repeats`. */
  ghost predicate RecordsOf(input: seq<FileEntry>, repeats: seq<nat>, dups: seq<ComparedFile>,
                            fingerprint: seq<byte> -> Fingerprint)
  {
    |dups| == |repeats| &&
    forall m :: 0 <= m < |repeats| ==> repeats[m] < |input| && RecordOf(input, repeats[m], dups[m], fingerprint)
  }

  lemma RecordsOfExtend(input: seq<FileEntry>, n: int, repeats: seq<nat>, dups: seq<ComparedFile>,
                        fingerprint: seq<byte> -> Fingerprint)
    requires 0 <= n <= |input| && RecordsOf(input[..n], repeats, dups, fingerprint)
    ensures RecordsOf(input, repeats, dups, fingerprint)
  {
    forall m | 0 <= m < |repeats| ensures RecordOf(input, repeats[m], dups[m], fingerprint) {
      RecordOfExtend(input, n, repeats[m], dups[m], fingerprint);
    }
  }

  lemma RecordsOfAppend(input: seq<FileEntry>, repeats: seq<nat>, dups: seq<ComparedFile>, j: nat, d: ComparedFile,
                        fingerprint: seq<byte> -> Fingerprint)
    requires RecordsOf(input, repeats, dups, fingerprint) && j < |input| && RecordOf(input, j, d, fingerprint)
    ensures RecordsOf(input, repeats + [j], dups + [d], fingerprint)
  {
    forall m | 0 <= m < |repeats| + 1
      ensures (repeats + [j])[m] < |input| && RecordOf(input, (repeats + [j])[m], (dups + [d])[m], fingerprint)
    {
      if m < |repeats| {
        assert (repeats + [j])[m] == repeats[m] && (dups + [d])[m] == dups[m];
      }
    }
  }

  /**
   * The duplicate records follow the repeated files in input order, each pairing
   * the first file with that fingerprint with the repeat.
   */
  lemma {:induction false} HashedDuplicateOrder(input: seq<FileEntry>, fingerprint: seq<byte> -> Fingerprint)
    ensures RecordsOf(input, Positions(input, fingerprint, false), Hashed(input, fingerprint).duplicates, fingerprint)
    decreases |input|
  {
    if input != [] {
      var n := |input| - 1;
      var p := input[..n];
      HashedDuplicateOrder(p, fingerprint);
      assert Hashed(input, fingerprint) == HashStep(Hashed(p, fingerprint), input[n], fingerprint);
      var prevDups, prevRepeats := Hashed(p, fingerprint).duplicates, Positions(p, fingerprint, false);
      var dups, repeats := Hashed(input, fingerprint).duplicates, Positions(input, fingerprint, false);
      RecordsOfExtend(input, n, prevRepeats, prevDups, fingerprint);
      LastIsFirst(input, fingerprint);
      var k := Key(input[n], fingerprint);
      HashedTable(p, fingerprint);
      if k in Fingerprints(p, fingerprint) {
        FirstIndexExtend(input, n, k, fingerprint);
        var last := DuplicatePair(input[FirstIndex(input, k, fingerprint)], Duplicate, input[n]);
        assert dups == prevDups + [last];
        assert repeats == prevRepeats + [n];
        assert RecordOf(input, n, last, fingerprint);
        RecordsOfAppend(input, prevRepeats, prevDups, n, last, fingerprint);
      } else {
        assert dups == prevDups && repeats == prevRepeats;
      }
    }
  }

  /**
   * Each duplicate record pairs a repeated file with the dictionary entry for its
   * fingerprint, which is an earlier file of the input; the records follow the
   * repeated files in input order (Positions is increasing).
   */
  lemma HashedDuplicateRecords(input: seq<FileEntry>, fingerprint: seq<byte> -> Fingerprint)
    ensures var s, repeats := Hashed(input, fingerprint), Positions(input, fingerprint, false);
      |s.duplicates| == |repeats| &&
      forall m :: 0 <= m < |s.duplicates| ==>
        var d := s.duplicates[m];
        && repeats[m] < |input|
        && d.DuplicatePair? && d.kind == Duplicate
        && d.duplicate == input[repeats[m]]
        && Key(d.duplicate, fingerprint) in s.table.entries
        && d.file == s.table.entries[Key(d.duplicate, fingerprint)]
        && exists i :: 0 <= i < repeats[m] && input[i] == d.file
  {
    HashedTable(input, fingerprint);
    HashedDuplicateOrder(input, fingerprint);
    PositionsFacts(input, fingerprint, false);
    var s, repeats := Hashed(input, fingerprint), Positions(input, fingerprint, false);
    assert |s.duplicates| == |repeats|;
    forall m | 0 <= m < |s.duplicates|
      ensures var d := s.duplicates[m];
        && repeats[m] < |input|
        && d.DuplicatePair? && d.kind == Duplicate
        && d.duplicate == input[repeats[m]]
        && Key(d.duplicate, fingerprint) in s.table.entries
        && d.file == s.table.entries[Key(d.duplicate, fingerprint)]
        && exists i :: 0 <= i < repeats[m] && input[i] == d.file
    {
      var g := input[repeats[m]];
      assert RecordOf(input, repeats[m], s.duplicates[m], fingerprint);
      assert g in input;
      var i := FirstIndex(input, Key(g, fingerprint), fingerprint);
      assert i != repeats[m];
    }
  }

  /** When the listing names every file once, no duplicate file is a dictionary value. */
  lemma DuplicateNeverCanonical(input: seq<FileEntry>, fingerprint: seq<byte> -> Fingerprint)
    requires Distinct(input)
    ensures var s := Hashed(input, fingerprint);
      forall m :: 0 <= m < |s.duplicates| ==>
        s.duplicates[m].DuplicatePair? && s.duplicates[m].duplicate !in s.table.entries.Values
  {
    HashedTable(input, fingerprint);
    HashedDuplicateRecords(input, fingerprint);
    PositionsFacts(input, fingerprint, false);
    var s, repeats := Hashed(input, fingerprint), Positions(input, fingerprint, false);
    forall m | 0 <= m < |s.duplicates|
      ensures s.duplicates[m].duplicate !in s.table.entries.Values
    {
      var j := repeats[m];
      forall k | k in s.table.entries ensures s.table.entries[k] != input[j] {
        var i := FirstIndex(input, k, fingerprint);
        assert i != j;
      }
    }
  }

  /** Every file is either seen for the first time or seen again, never both. */
  lemma {:induction false} PositionsCount(input: seq<FileEntry>, fingerprint: seq<byte> -> Fingerprint)
    ensures |Positions(input, fingerprint, true)| + |Positions(input, fingerprint, false)| == |input|
    decreases |input|
  {
    if input != [] {
      PositionsCount(input[..|input| - 1], fingerprint);
    }
  }

  /** `f` is the first file of `input` with its fingerprint: the file the dictionary keeps. */
  ghost predicate Canonical(input: seq<FileEntry>, f: FileEntry, fingerprint: seq<byte> -> Fingerprint)
  {
    Key(f, fingerprint) in Fingerprints(input, fingerprint) && f == input[FirstIndex(input, Key(f, fingerprint), fingerprint)]
  }

  /** The dictionary value under `k` is stored under its own fingerprint and is the canonical file for it. */
  lemma HashedCanonical(input: seq<FileEntry>, fingerprint: seq<byte> -> Fingerprint, k: Fingerprint)
    requires k in Hashed(input, fingerprint).table.entries
    ensures Key(Hashed(input, fingerprint).table.entries[k], fingerprint) == k
    ensures Canonical(input, Hashed(input, fingerprint).table.entries[k], fingerprint)
  {
    HashedTable(input, fingerprint);
    HashedInvariant(input, fingerprint);
  }

  /** Every file seen again after an earlier file with the same fingerprint has its duplicate record. */
  lemma HashedRepeatsRecorded(input: seq<FileEntry>, fingerprint: seq<byte> -> Fingerprint)
    ensures var dups := Hashed(input, fingerprint).duplicates;
      forall j :: 0 <= j < |input| && !IsFirst(input, j, fingerprint) ==>
        exists d :: d in dups && RecordOf(input, j, d, fingerprint)
  {
    HashedDuplicateOrder(input, fingerprint);
    PositionsMembers(input, fingerprint, false);
    var dups, repeats := Hashed(input, fingerprint).duplicates, Positions(input, fingerprint, false);
    forall j | 0 <= j < |input| && !IsFirst(input, j, fingerprint)
      ensures exists d :: d in dups && RecordOf(input, j, d, fingerprint)
    {
      assert j in repeats;
      var m :| 0 <= m < |repeats| && repeats[m] == j;
      assert RecordOf(input, j, dups[m], fingerprint);
    }
  }

  /** The Hashing notifications for one side: one per file, numbered 1 to n out of n. */
  function HashLog(input: seq<FileEntry>, side: Side): (r: seq<Status>)
  {
    ProgressLog(Hashing, side, input, 1, |input|)
  }
}

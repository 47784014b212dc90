/**
 * The whole comparison as a value: what CompareAsync returns and which
 * notifications it raises, and the properties of that result.
 */
module Pipeline {
  import opened Options
  import opened Files
  import opened Dictionaries
  import opened Progress
  import opened Filtering
  import opened Hashing
  import opened Comparing

  /** The five collections of DirComparatorResult. */
  datatype DirComparatorResult = DirComparatorResult(
    common: seq<ComparedFile>,
    left: seq<ComparedFile>,
    duplicateLeft: seq<ComparedFile>,
    right: seq<ComparedFile>,
    duplicateRight: seq<ComparedFile>)

  /** A listing after the optional Filter stage: filtered when a pattern is set, unchanged otherwise. */
  function Listed(files: seq<FileEntry>, ignore: Option<Regex>, isMatch: (string, string) -> bool): (r: seq<FileEntry>)
    ensures ignore.None? ==> r == files
    ensures forall f :: f in r <==> f in files && !(ignore.Some? && isMatch(ignore.value.pattern, f.fullName))
  {
    match ignore
    case None => files
    case Some(rx) =>
      KeptMembers(files, rx.pattern, isMatch);
      Kept(files, rx.pattern, isMatch)
  }

  /**
   * The result assembled from the three compared dictionaries and the two
   * duplicate lists: each dictionary's values in enumeration order, tagged
   * Common or Unique.
   */
  function Assemble(p: Partition, duplicateLeft: seq<ComparedFile>, duplicateRight: seq<ComparedFile>): (r: DirComparatorResult)
    requires p.common.Valid() && p.left.Valid() && p.right.Valid()
  {
    DirComparatorResult(
      ConvertAllToArray(p.common.Values(), Common),
      ConvertAllToArray(p.left.Values(), Unique),
      duplicateLeft,
      ConvertAllToArray(p.right.Values(), Unique),
      duplicateRight)
  }

  /** The result of comparing two listings. */
  function Run(left: seq<FileEntry>, right: seq<FileEntry>, ignore: Option<Regex>,
               isMatch: (string, string) -> bool, fingerprint: seq<byte> -> Fingerprint): (result: DirComparatorResult)
  {
    var l := Hashed(Listed(left, ignore, isMatch), fingerprint);
    var r := Hashed(Listed(right, ignore, isMatch), fingerprint);
    HashedInvariant(Listed(left, ignore, isMatch), fingerprint);
    HashedInvariant(Listed(right, ignore, isMatch), fingerprint);
    ComparedValid(l.table, r.table);
    Assemble(Compared(l.table, r.table), l.duplicates, r.duplicates)
  }

  /** The notifications raised while comparing two listings, in order. */
  function RunLog(left: seq<FileEntry>, right: seq<FileEntry>, ignore: Option<Regex>,
                  isMatch: (string, string) -> bool, fingerprint: seq<byte> -> Fingerprint): (result: seq<Status>)
  {
    var l, r := Listed(left, ignore, isMatch), Listed(right, ignore, isMatch);
    HashedInvariant(l, fingerprint);
    [Status(Listing, LeftFolder, None, 0, 0), Status(Listing, RightFolder, None, 0, 0)]
      + (if ignore.Some? then FilterLog(left, LeftFolder) + FilterLog(right, RightFolder) else [])
      + HashLog(l, LeftFolder) + HashLog(r, RightFolder)
      + CompareLog(Hashed(l, fingerprint).table)
  }

  /** Item `i` made from a dictionary is its entry `i` in enumeration order. */
  lemma ItemsInOrder(t: Table, kind: FileType)
    requires forall k :: k in t.keys ==> k in t.entries
    ensures var items := ConvertAllToArray(t.Values(), kind);
      |items| == |t.keys| && forall i :: 0 <= i < |items| ==> items[i] == Plain(t.entries[t.keys[i]], kind)
  {
    ValuesInOrder(t);
  }

  /** Every item made from a dictionary is a plain item of the given type holding the entry under its fingerprint. */
  lemma ItemsFromEntries(t: Table, kind: FileType, fingerprint: seq<byte> -> Fingerprint)
    requires forall k :: k in t.keys ==> k in t.entries
    requires forall k :: k in t.entries ==> Key(t.entries[k], fingerprint) == k
    ensures forall c :: c in ConvertAllToArray(t.Values(), kind) ==>
      c.Plain? && c.kind == kind && Key(c.file, fingerprint) in t.entries && t.entries[Key(c.file, fingerprint)] == c.file
  {
    ItemsInOrder(t, kind);
    var items := ConvertAllToArray(t.Values(), kind);
    forall c | c in items
      ensures c.Plain? && c.kind == kind && Key(c.file, fingerprint) in t.entries && t.entries[Key(c.file, fingerprint)] == c.file
    {
      var i :| 0 <= i < |items| && items[i] == c;
      assert c == Plain(t.entries[t.keys[i]], kind);
    }
  }

  /** Every entry of a well-formed dictionary becomes an item. */
  lemma ItemsCoverEntries(t: Table, kind: FileType)
    requires t.Valid()
    ensures forall k :: k in t.entries ==> Plain(t.entries[k], kind) in ConvertAllToArray(t.Values(), kind)
  {
    ItemsInOrder(t, kind);
    var items := ConvertAllToArray(t.Values(), kind);
    forall k | k in t.entries ensures Plain(t.entries[k], kind) in items {
      var i :| 0 <= i < |t.keys| && t.keys[i] == k;
      assert items[i] == Plain(t.entries[k], kind);
    }
  }

  /** No two items made from a well-formed dictionary share a fingerprint. */
  lemma ItemsDistinct(t: Table, kind: FileType, fingerprint: seq<byte> -> Fingerprint)
    requires t.Valid()
    requires forall k :: k in t.entries ==> Key(t.entries[k], fingerprint) == k
    ensures var items := ConvertAllToArray(t.Values(), kind);
      forall i, j :: 0 <= i < j < |items| ==> Key(items[i].file, fingerprint) != Key(items[j].file, fingerprint)
  {
    ItemsInOrder(t, kind);
    var items := ConvertAllToArray(t.Values(), kind);
    forall i, j | 0 <= i < j < |items| ensures Key(items[i].file, fingerprint) != Key(items[j].file, fingerprint) {
      assert items[i].file == t.entries[t.keys[i]] && items[j].file == t.entries[t.keys[j]];
      assert t.keys[i] in t.entries && t.keys[j] in t.entries;
    }
  }

  /** The fingerprints of the files of reported items. */
  ghost function ItemFingerprints(items: seq<ComparedFile>, fingerprint: seq<byte> -> Fingerprint): (r: set<Fingerprint>)
  {
    set c | c in items :: Key(c.file, fingerprint)
  }

  /**
   * The items made from a sub-dictionary of a hashed side: plain items of the
   * given type, each holding the canonical file of its fingerprint, no two with
   * the same fingerprint, and their fingerprints are the sub-dictionary's keys.
   */
  lemma SideItems(input: seq<FileEntry>, t: Table, kind: FileType, fingerprint: seq<byte> -> Fingerprint)
    requires t.Valid()
    requires forall k :: k in t.entries ==>
      k in Hashed(input, fingerprint).table.entries && t.entries[k] == Hashed(input, fingerprint).table.entries[k]
    ensures var items := ConvertAllToArray(t.Values(), kind);
      && (forall c :: c in items ==> c.Plain? && c.kind == kind && Canonical(input, c.file, fingerprint))
      && ItemFingerprints(items, fingerprint) == t.entries.Keys
      && (forall i, j :: 0 <= i < j < |items| ==> Key(items[i].file, fingerprint) != Key(items[j].file, fingerprint))
  {
    var items := ConvertAllToArray(t.Values(), kind);
    var whole := Hashed(input, fingerprint).table;
    forall k | k in t.entries ensures Key(t.entries[k], fingerprint) == k && Canonical(input, t.entries[k], fingerprint) {
      assert k in whole.entries && t.entries[k] == whole.entries[k];
      HashedCanonical(input, fingerprint, k);
    }
    ItemsFromEntries(t, kind, fingerprint);
    ItemsCoverEntries(t, kind);
    ItemsDistinct(t, kind, fingerprint);
    forall k | k in t.entries ensures k in ItemFingerprints(items, fingerprint) {
      assert Plain(t.entries[k], kind) in items;
    }
    forall k | k in ItemFingerprints(items, fingerprint) ensures k in t.entries {
      var c :| c in items && Key(c.file, fingerprint) == k;
    }
    assert ItemFingerprints(items, fingerprint) == t.entries.Keys;
    forall c | c in items ensures c.Plain? && c.kind == kind && Canonical(input, c.file, fingerprint) {
      assert c.file == t.entries[Key(c.file, fingerprint)];
    }
  }

  /**
   * Run, taken apart: the three compared dictionaries are well formed, hold
   * the fingerprints found on both sides, on the left only and on the right
   * only, and keep the values the hashed sides had.
   */
  lemma RunParts(left: seq<FileEntry>, right: seq<FileEntry>, ignore: Option<Regex>,
                 isMatch: (string, string) -> bool, fingerprint: seq<byte> -> Fingerprint)
    ensures var L, R := Listed(left, ignore, isMatch), Listed(right, ignore, isMatch);
      var l, rt := Hashed(L, fingerprint).table, Hashed(R, fingerprint).table;
      var p := Compared(l, rt);
      && p.common.Valid() && p.left.Valid() && p.right.Valid()
      && Run(left, right, ignore, isMatch, fingerprint) == Assemble(p, Hashed(L, fingerprint).duplicates, Hashed(R, fingerprint).duplicates)
      && p.common.entries.Keys == Fingerprints(L, fingerprint) * Fingerprints(R, fingerprint)
      && p.left.entries.Keys == Fingerprints(L, fingerprint) - Fingerprints(R, fingerprint)
      && p.right.entries.Keys == Fingerprints(R, fingerprint) - Fingerprints(L, fingerprint)
      && (forall k :: k in p.common.entries ==> k in l.entries && p.common.entries[k] == l.entries[k])
      && (forall k :: k in p.left.entries ==> k in l.entries && p.left.entries[k] == l.entries[k])
      && (forall k :: k in p.right.entries ==> k in rt.entries && p.right.entries[k] == rt.entries[k])
  {
    var L, R := Listed(left, ignore, isMatch), Listed(right, ignore, isMatch);
    var l, rt := Hashed(L, fingerprint).table, Hashed(R, fingerprint).table;
    HashedInvariant(L, fingerprint);
    HashedInvariant(R, fingerprint);
    HashedTable(L, fingerprint);
    HashedTable(R, fingerprint);
    ComparedValid(l, rt);
    ComparedPartition(l, rt);
    var p := Compared(l, rt);
  }

  /**
   * The common items: one per fingerprint found on both sides, each holding
   * the left side's first file with that fingerprint, tagged Common.
   */
  lemma RunCommon(left: seq<FileEntry>, right: seq<FileEntry>, ignore: Option<Regex>,
                  isMatch: (string, string) -> bool, fingerprint: seq<byte> -> Fingerprint)
    ensures var r := Run(left, right, ignore, isMatch, fingerprint);
      var L, R := Listed(left, ignore, isMatch), Listed(right, ignore, isMatch);
      && (forall c :: c in r.common ==> c.Plain? && c.kind == Common && Canonical(L, c.file, fingerprint))
      && ItemFingerprints(r.common, fingerprint) == Fingerprints(L, fingerprint) * Fingerprints(R, fingerprint)
      && (forall i, j :: 0 <= i < j < |r.common| ==> Key(r.common[i].file, fingerprint) != Key(r.common[j].file, fingerprint))
  {
    var L, R := Listed(left, ignore, isMatch), Listed(right, ignore, isMatch);
    var l, rt := Hashed(L, fingerprint).table, Hashed(R, fingerprint).table;
    RunParts(left, right, ignore, isMatch, fingerprint);
    var p := Compared(l, rt);
    assert Run(left, right, ignore, isMatch, fingerprint).common == ConvertAllToArray(p.common.Values(), Common);
    SideItems(L, p.common, Common, fingerprint);
  }

  /**
   * The left-only items: one per fingerprint of the left side that the right
   * side lacks, each holding the left side's first file with it, tagged Unique.
   */
  lemma RunLeftOnly(left: seq<FileEntry>, right: seq<FileEntry>, ignore: Option<Regex>,
                    isMatch: (string, string) -> bool, fingerprint: seq<byte> -> Fingerprint)
    ensures var r := Run(left, right, ignore, isMatch, fingerprint);
      var L, R := Listed(left, ignore, isMatch), Listed(right, ignore, isMatch);
      && (forall c :: c in r.left ==> c.Plain? && c.kind == Unique && Canonical(L, c.file, fingerprint))
      && ItemFingerprints(r.left, fingerprint) == Fingerprints(L, fingerprint) - Fingerprints(R, fingerprint)
      && (forall i, j :: 0 <= i < j < |r.left| ==> Key(r.left[i].file, fingerprint) != Key(r.left[j].file, fingerprint))
  {
    var L, R := Listed(left, ignore, isMatch), Listed(right, ignore, isMatch);
    var l, rt := Hashed(L, fingerprint).table, Hashed(R, fingerprint).table;
    RunParts(left, right, ignore, isMatch, fingerprint);
    var p := Compared(l, rt);
    assert Run(left, right, ignore, isMatch, fingerprint).left == ConvertAllToArray(p.left.Values(), Unique);
    SideItems(L, p.left, Unique, fingerprint);
  }

  /**
   * The right-only items: one per fingerprint of the right side that the left
   * side lacks, each holding the right side's first file with it, tagged Unique.
   */
  lemma RunRightOnly(left: seq<FileEntry>, right: seq<FileEntry>, ignore: Option<Regex>,
                     isMatch: (string, string) -> bool, fingerprint: seq<byte> -> Fingerprint)
    ensures var r := Run(left, right, ignore, isMatch, fingerprint);
      var L, R := Listed(left, ignore, isMatch), Listed(right, ignore, isMatch);
      && (forall c :: c in r.right ==> c.Plain? && c.kind == Unique && Canonical(R, c.file, fingerprint))
      && ItemFingerprints(r.right, fingerprint) == Fingerprints(R, fingerprint) - Fingerprints(L, fingerprint)
      && (forall i, j :: 0 <= i < j < |r.right| ==> Key(r.right[i].file, fingerprint) != Key(r.right[j].file, fingerprint))
  {
    var L, R := Listed(left, ignore, isMatch), Listed(right, ignore, isMatch);
    var l, rt := Hashed(L, fingerprint).table, Hashed(R, fingerprint).table;
    RunParts(left, right, ignore, isMatch, fingerprint);
    var p := Compared(l, rt);
    assert Run(left, right, ignore, isMatch, fingerprint).right == ConvertAllToArray(p.right.Values(), Unique);
    SideItems(R, p.right, Unique, fingerprint);
  }

  /**
   * The duplicate lists: one record per file whose fingerprint an earlier file
   * of the same side already had, in listing order, pairing the first file
   * with that fingerprint with the repeat.
   */
  lemma RunDuplicates(left: seq<FileEntry>, right: seq<FileEntry>, ignore: Option<Regex>,
                      isMatch: (string, string) -> bool, fingerprint: seq<byte> -> Fingerprint)
    ensures var r := Run(left, right, ignore, isMatch, fingerprint);
      var L, R := Listed(left, ignore, isMatch), Listed(right, ignore, isMatch);
      && RecordsOf(L, Positions(L, fingerprint, false), r.duplicateLeft, fingerprint)
      && RecordsOf(R, Positions(R, fingerprint, false), r.duplicateRight, fingerprint)
      && (forall j :: 0 <= j < |L| && !IsFirst(L, j, fingerprint) ==>
            exists d :: d in r.duplicateLeft && RecordOf(L, j, d, fingerprint))
      && (forall j :: 0 <= j < |R| && !IsFirst(R, j, fingerprint) ==>
            exists d :: d in r.duplicateRight && RecordOf(R, j, d, fingerprint))
  {
    var L, R := Listed(left, ignore, isMatch), Listed(right, ignore, isMatch);
    RunParts(left, right, ignore, isMatch, fingerprint);
    HashedDuplicateOrder(L, fingerprint);
    HashedDuplicateOrder(R, fingerprint);
    HashedRepeatsRecorded(L, fingerprint);
    HashedRepeatsRecorded(R, fingerprint);
  }

  /**
   * On each side, the common items, that side's own items and its duplicate
   * records together number the files of its filtered listing. This is a
   * count: a right file whose fingerprint is common is not itself reported
   * (RunSameContent), and a canonical file with repeats appears both as an
   * item and in its records (RunIntraSideDuplicate).
   */
  lemma RunAccounting(left: seq<FileEntry>, right: seq<FileEntry>, ignore: Option<Regex>,
                      isMatch: (string, string) -> bool, fingerprint: seq<byte> -> Fingerprint)
    ensures var r := Run(left, right, ignore, isMatch, fingerprint);
      && |r.common| + |r.left| + |r.duplicateLeft| == |Listed(left, ignore, isMatch)|
      && |r.common| + |r.right| + |r.duplicateRight| == |Listed(right, ignore, isMatch)|
  {
    var L, R := Listed(left, ignore, isMatch), Listed(right, ignore, isMatch);
    var l, rt := Hashed(L, fingerprint).table, Hashed(R, fingerprint).table;
    RunParts(left, right, ignore, isMatch, fingerprint);
    HashedInvariant(L, fingerprint);
    HashedInvariant(R, fingerprint);
    var p := Compared(l, rt);
    ComparedCounts(l, rt);
    TableCount(p.common);
    TableCount(p.left);
    TableCount(p.right);
  }

  /** Every file named by the items is a file of the given listing. */
  ghost predicate FromListing(items: seq<ComparedFile>, files: seq<FileEntry>)
  {
    forall c :: c in items ==> c.file in files && (c.DuplicatePair? ==> c.duplicate in files)
  }

  /** A side's items name only files of that side's filtered listing. */
  lemma RunFromListings(left: seq<FileEntry>, right: seq<FileEntry>, ignore: Option<Regex>,
                        isMatch: (string, string) -> bool, fingerprint: seq<byte> -> Fingerprint)
    ensures var r := Run(left, right, ignore, isMatch, fingerprint);
      var L, R := Listed(left, ignore, isMatch), Listed(right, ignore, isMatch);
      && FromListing(r.common, L) && FromListing(r.left, L) && FromListing(r.duplicateLeft, L)
      && FromListing(r.right, R) && FromListing(r.duplicateRight, R)
  {
    var r := Run(left, right, ignore, isMatch, fingerprint);
    var L, R := Listed(left, ignore, isMatch), Listed(right, ignore, isMatch);
    RunCommon(left, right, ignore, isMatch, fingerprint);
    RunLeftOnly(left, right, ignore, isMatch, fingerprint);
    RunRightOnly(left, right, ignore, isMatch, fingerprint);
    RunDuplicates(left, right, ignore, isMatch, fingerprint);
    RecordsFromListing(L, Positions(L, fingerprint, false), r.duplicateLeft, fingerprint);
    RecordsFromListing(R, Positions(R, fingerprint, false), r.duplicateRight, fingerprint);
  }

  /** Duplicate records name files of the listing they were made from. */
  lemma RecordsFromListing(input: seq<FileEntry>, repeats: seq<nat>, dups: seq<ComparedFile>,
                           fingerprint: seq<byte> -> Fingerprint)
    requires RecordsOf(input, repeats, dups, fingerprint)
    ensures FromListing(dups, input)
  {
    forall d | d in dups ensures d.file in input && (d.DuplicatePair? ==> d.duplicate in input) {
      var m :| 0 <= m < |dups| && dups[m] == d;
      assert RecordOf(input, repeats[m], d, fingerprint);
    }
  }

  /** With an ignore pattern set, a file whose full path it matches appears in none of the five collections. */
  lemma RunFilterExcludes(left: seq<FileEntry>, right: seq<FileEntry>, ignore: Option<Regex>,
                          isMatch: (string, string) -> bool, fingerprint: seq<byte> -> Fingerprint, f: FileEntry)
    requires ignore.Some? && isMatch(ignore.value.pattern, f.fullName)
    ensures var r := Run(left, right, ignore, isMatch, fingerprint);
      forall c :: c in r.common || c in r.left || c in r.duplicateLeft || c in r.right || c in r.duplicateRight ==>
        c.file != f && (c.DuplicatePair? ==> c.duplicate != f)
  {
    RunFromListings(left, right, ignore, isMatch, fingerprint);
  }

  /** Two empty directories give five empty collections and only the two Listing notifications. */
  lemma RunEmpty(ignore: Option<Regex>, isMatch: (string, string) -> bool, fingerprint: seq<byte> -> Fingerprint)
    ensures Run([], [], ignore, isMatch, fingerprint) == DirComparatorResult([], [], [], [], [])
    ensures RunLog([], [], ignore, isMatch, fingerprint)
         == [Status(Listing, LeftFolder, None, 0, 0), Status(Listing, RightFolder, None, 0, 0)]
  {
    KeptMembers([], if ignore.Some? then ignore.value.pattern else "", isMatch);
    assert Listed([], ignore, isMatch) == [];
    assert Table([], map[]).Values() == [];
  }

  /** A file on each side with the same content but different names is one common item holding the left file. */
  lemma RunSameContent(a: FileEntry, b: FileEntry, isMatch: (string, string) -> bool, fingerprint: seq<byte> -> Fingerprint)
    requires a.content == b.content
    ensures Run([a], [b], None, isMatch, fingerprint) == DirComparatorResult([Plain(a, Common)], [], [], [], [])
  {
    var k := Key(a, fingerprint);
    assert [a][..0] == [] && [b][..0] == [];
    assert Hashed([a], fingerprint).table == Table([k], map[k := a]);
    assert Hashed([b], fingerprint).table == Table([k], map[k := b]);
    var p := Compared(Table([k], map[k := a]), Table([k], map[k := b]));
    assert p.common == Table([k], map[k := a]);
    assert p.left == Table([], map[]) && p.right == Table([], map[]);
    assert p.common.Values() == [a];
  }

  /**
   * Two files with the same content on the left and a third with that content
   * on the right: the first left file is the one common item, the second is
   * recorded as its duplicate, and nothing is side-only.
   */
  lemma RunIntraSideDuplicate(a: FileEntry, a2: FileEntry, b: FileEntry, isMatch: (string, string) -> bool,
                              fingerprint: seq<byte> -> Fingerprint)
    requires a.content == a2.content == b.content
    ensures Run([a, a2], [b], None, isMatch, fingerprint)
         == DirComparatorResult([Plain(a, Common)], [], [DuplicatePair(a, Duplicate, a2)], [], [])
  {
    var k := Key(a, fingerprint);
    var l := Table([k], map[k := a]);
    HashedSnoc([a, a2], 0, fingerprint);
    HashedSnoc([a, a2], 1, fingerprint);
    assert [a, a2][..0] == [] && [a, a2][..1] == [a] && [a, a2][..2] == [a, a2] && [b][..0] == [];
    assert Hashed([a], fingerprint) == HashState(l, []);
    assert Hashed([a, a2], fingerprint) == HashState(l, [DuplicatePair(a, Duplicate, a2)]);
    assert Hashed([b], fingerprint).table == Table([k], map[k := b]);
    var p := Compared(l, Table([k], map[k := b]));
    assert p.common == l;
    assert p.left == Table([], map[]) && p.right == Table([], map[]);
    assert l.Values() == [a];
  }

  /**
   * One left file and two right files of the same content, with no ignore pattern: the right
   * file loses its key to Common, yet it stays the canonical file of the right duplicate record.
   */
  lemma RunRightRepeat(b: FileEntry, e: FileEntry, e2: FileEntry, isMatch: (string, string) -> bool,
                       fingerprint: seq<byte> -> Fingerprint)
    requires b.content == e.content == e2.content
    ensures Run([b], [e, e2], None, isMatch, fingerprint)
         == DirComparatorResult([Plain(b, Common)], [], [], [], [DuplicatePair(e, Duplicate, e2)])
  {
    var k := Key(e, fingerprint);
    var l := Table([k], map[k := b]);
    var r := Table([k], map[k := e]);
    HashedSnoc([e, e2], 0, fingerprint);
    HashedSnoc([e, e2], 1, fingerprint);
    assert [e, e2][..0] == [] && [e, e2][..1] == [e] && [e, e2][..2] == [e, e2] && [b][..0] == [];
    assert Hashed([e], fingerprint) == HashState(r, []);
    assert Hashed([e, e2], fingerprint) == HashState(r, [DuplicatePair(e, Duplicate, e2)]);
    assert Hashed([b], fingerprint) == HashState(l, []);
    var p := Compared(l, r);
    assert p.common == l;
    assert p.left == Table([], map[]) && p.right == Table([], map[]);
    assert l.Values() == [b];
  }

  /** No fingerprint is reported in more than one of the common, left-only and right-only collections. */
  lemma RunDisjoint(left: seq<FileEntry>, right: seq<FileEntry>, ignore: Option<Regex>,
                    isMatch: (string, string) -> bool, fingerprint: seq<byte> -> Fingerprint)
    ensures var r := Run(left, right, ignore, isMatch, fingerprint);
      && ItemFingerprints(r.common, fingerprint) !! ItemFingerprints(r.left, fingerprint)
      && ItemFingerprints(r.common, fingerprint) !! ItemFingerprints(r.right, fingerprint)
      && ItemFingerprints(r.left, fingerprint) !! ItemFingerprints(r.right, fingerprint)
  {
    RunCommon(left, right, ignore, isMatch, fingerprint);
    RunLeftOnly(left, right, ignore, isMatch, fingerprint);
    RunRightOnly(left, right, ignore, isMatch, fingerprint);
  }
}

/**
 * Files as the comparison sees them, and the items it reports:
 * DirComparatorFileInfo, with its duplicate variant as a second constructor.
 */
module Files {

  newtype byte = x: int | 0 <= x < 256

  /**
   * One file of a listing: its full path, its name and the bytes it holds when it is read.
   * The name and the full path are taken as given, independently of each other.
   */
  datatype FileEntry = FileEntry(fullName: string, name: string, content: seq<byte>)

  /** The classification tag of a reported file (FileType). */
  datatype FileType = Common | Unique | Duplicate

  /** The text an enum value prints as. */
  function TypeName(t: FileType): (r: string)
  {
    match t
    case Common => "Common"
    case Unique => "Unique"
    case Duplicate => "Duplicate"
  }

  /** The text placed between the two names of a duplicate pair. */
  const PairSeparator: string := " <=> "

  /**
   * A reported file. `Plain` is a DirComparatorFileInfo; `DuplicatePair` is a
   * DirComparatorDuplicateFileInfo, whose `file` is the canonical file and whose
   * `duplicate` is the later file with the same content.
   */
  datatype ComparedFile =
    | Plain(file: FileEntry, kind: FileType)
    | DuplicatePair(file: FileEntry, kind: FileType, duplicate: FileEntry)
  {
    /** The one-letter abbreviation of the type shown in the list. */
    function TypeAbbr(): (r: string)
      ensures |r| == 1 && r[0] == TypeName(kind)[0]
    {
      TypeName(kind)[..1]
    }

    /** The name shown for the item; a pair shows both names around the separator. */
    function FileName(): (r: string)
      ensures Plain? ==> r == file.name
      ensures DuplicatePair? ==>
        && |r| == |file.name| + |PairSeparator| + |duplicate.name|
        && r[..|file.name|] == file.name
        && r[|file.name|..|file.name| + |PairSeparator|] == PairSeparator
        && r[|r| - |duplicate.name|..] == duplicate.name
    {
      match this
      case Plain(f, _) => f.name
      case DuplicatePair(f, _, d) => f.name + PairSeparator + d.name
    }

    /** The full path shown for the item; a pair shows both paths around the separator. */
    function FullName(): (r: string)
      ensures Plain? ==> r == file.fullName
      ensures DuplicatePair? ==>
        && |r| == |file.fullName| + |PairSeparator| + |duplicate.fullName|
        && r[..|file.fullName|] == file.fullName
        && r[|file.fullName|..|file.fullName| + |PairSeparator|] == PairSeparator
        && r[|r| - |duplicate.fullName|..] == duplicate.fullName
    {
      match this
      case Plain(f, _) => f.fullName
      case DuplicatePair(f, _, d) => f.fullName + PairSeparator + d.fullName
    }
  }

  /** The three type abbreviations are pairwise different, so the list column tells the types apart. */
  lemma TypeAbbrDistinguishes(x: ComparedFile, y: ComparedFile)
    requires x.kind != y.kind
    ensures x.TypeAbbr() != y.TypeAbbr()
  {
    assert x.TypeAbbr()[0] == TypeName(x.kind)[0];
    assert y.TypeAbbr()[0] == TypeName(y.kind)[0];
  }

  /** Wraps each file, in order, as a plain item of the given type. */
  function ConvertAllToArray(files: seq<FileEntry>, t: FileType): (r: seq<ComparedFile>)
    ensures |r| == |files|
    ensures forall i :: 0 <= i < |r| ==> r[i].Plain? && r[i].file == files[i] && r[i].kind == t
  {
    if files == [] then []
    else [Plain(files[0], t)] + ConvertAllToArray(files[1..], t)
  }
}

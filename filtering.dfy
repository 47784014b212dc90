/** What the Filter stage keeps of a listing. */
module Filtering {
  import opened Files
  import opened Progress

  /**
   * The ignore pattern as the DirComparator constructor compiles it; matching
   * a text against it is left to the regular-expression engine.
   */
  datatype Regex = Regex(pattern: string)

  /** The files of `input` whose full path the pattern does not match, in their order. */
  function Kept(input: seq<FileEntry>, pattern: string, isMatch: (string, string) -> bool): (r: seq<FileEntry>)
    ensures |r| <= |input|
    decreases |input|
  {
    if input == [] then []
    else
      var last := input[|input| - 1];
      Kept(input[..|input| - 1], pattern, isMatch) + (if isMatch(pattern, last.fullName) then [] else [last])
  }

  /** A file is kept exactly when it is listed and its full path does not match. */
  lemma {:induction false} KeptMembers(input: seq<FileEntry>, pattern: string, isMatch: (string, string) -> bool)
    ensures forall f :: f in Kept(input, pattern, isMatch) <==> f in input && !isMatch(pattern, f.fullName)
    decreases |input|
  {
    if input != [] {
      var init := input[..|input| - 1];
      KeptMembers(init, pattern, isMatch);
      assert input == init + [input[|input| - 1]];
    }
  }

  /** Filtering a concatenation filters each part and keeps them in order. */
  lemma {:induction false} KeptAppend(a: seq<FileEntry>, b: seq<FileEntry>, pattern: string, isMatch: (string, string) -> bool)
    ensures Kept(a + b, pattern, isMatch) == Kept(a, pattern, isMatch) + Kept(b, pattern, isMatch)
    decreases |b|
  {
    if b != [] {
      var init := b[..|b| - 1];
      KeptAppend(a, init, pattern, isMatch);
      assert (a + b)[..|a + b| - 1] == a + init;
    } else {
      assert a + b == a;
    }
  }

  /** A file alone is kept exactly when its full path does not match. */
  lemma KeptSingle(f: FileEntry, pattern: string, isMatch: (string, string) -> bool)
    ensures Kept([f], pattern, isMatch) == if isMatch(pattern, f.fullName) then [] else [f]
  {
    assert [f][..0] == [];
  }

  /** When nothing matches, the listing passes through unchanged. */
  lemma {:induction false} KeptAllWhenNothingMatches(input: seq<FileEntry>, pattern: string, isMatch: (string, string) -> bool)
    requires forall f :: f in input ==> !isMatch(pattern, f.fullName)
    ensures Kept(input, pattern, isMatch) == input
    decreases |input|
  {
    if input != [] {
      var init := input[..|input| - 1];
      KeptAllWhenNothingMatches(init, pattern, isMatch);
      assert input == init + [input[|input| - 1]];
    }
  }

  /** The Filtering notifications for one side: one per examined file, numbered 0 to n-1 out of n. */
  function FilterLog(input: seq<FileEntry>, side: Side): (r: seq<Status>)
  {
    ProgressLog(Filtering, side, input, 0, |input|)
  }
}

/**
 * What the Compare stage makes of the two canonical dictionaries: the common
 * entries, the entries only on the left and the entries only on the right.
 */
module Comparing {
  import opened Options
  import opened Files
  import opened Dictionaries
  import opened Progress

  /** The three dictionaries Compare hands back (CompareResult, as values). */
  datatype Partition = Partition(common: Table, left: Table, right: Table)

  /**
   * The outcome of comparing `left` with `right`: the left entries whose key the
   * right also has, with the left file as value; the left entries the right lacks;
   * and the right entries the left lacks, each in its own enumeration order.
   */
  function Compared(left: Table, right: Table): (r: Partition)
  {
    Partition(
      Table(Restrict(left.keys, right.entries.Keys), Only(left.entries, right.entries.Keys)),
      Table(Exclude(left.keys, right.entries.Keys), left.entries - right.entries.Keys),
      Table(Exclude(right.keys, left.entries.Keys), right.entries - left.entries.Keys))
  }

  /** The three dictionaries Compare hands back are well formed. */
  lemma ComparedValid(left: Table, right: Table)
    requires left.Valid() && right.Valid()
    ensures var p := Compared(left, right);
      p.common.Valid() && p.left.Valid() && p.right.Valid()
  {
    RestrictDistinct(left.keys, right.entries.Keys);
    ExcludeDistinct(left.keys, right.entries.Keys);
    ExcludeDistinct(right.keys, left.entries.Keys);
  }

  /**
   * Comparing partitions the keys: the common keys are those of both sides, each
   * side-only dictionary keeps exactly the keys the other side lacks, the three
   * are pairwise disjoint and together cover each side; every value stays the
   * one the left (for common and left) or the right (for right) had.
   */
  lemma ComparedPartition(left: Table, right: Table)
    ensures var p := Compared(left, right);
      && p.common.entries.Keys == left.entries.Keys * right.entries.Keys
      && p.left.entries.Keys == left.entries.Keys - right.entries.Keys
      && p.right.entries.Keys == right.entries.Keys - left.entries.Keys
      && p.common.entries.Keys !! p.left.entries.Keys
      && p.common.entries.Keys !! p.right.entries.Keys
      && p.left.entries.Keys !! p.right.entries.Keys
      && p.common.entries.Keys + p.left.entries.Keys == left.entries.Keys
      && p.common.entries.Keys + p.right.entries.Keys == right.entries.Keys
      && (forall k :: k in p.common.entries ==> p.common.entries[k] == left.entries[k])
      && (forall k :: k in p.left.entries ==> p.left.entries[k] == left.entries[k])
      && (forall k :: k in p.right.entries ==> p.right.entries[k] == right.entries[k])
  {
  }

  /** Each side's entries are split between the common and that side's own dictionary. */
  lemma ComparedCounts(left: Table, right: Table)
    requires left.Valid() && right.Valid()
    ensures var p := Compared(left, right);
      && |p.common.entries| + |p.left.entries| == |left.entries|
      && |p.common.entries| + |p.right.entries| == |right.entries|
  {
    var p := Compared(left, right);
    ComparedValid(left, right);
    TableCount(left);
    TableCount(right);
    TableCount(p.common);
    TableCount(p.left);
    TableCount(p.right);
    RestrictExcludeCount(left.keys, right.entries.Keys);
    var rk := Restrict(right.keys, left.entries.Keys);
    RestrictExcludeCount(right.keys, left.entries.Keys);
    RestrictDistinct(right.keys, left.entries.Keys);
    TableCount(Table(rk, Only(right.entries, left.entries.Keys)));
  }

  /** The keys among the first `i` left keys that the right also has. */
  ghost function SharedPrefix(left: Table, right: Table, i: nat): (r: set<Fingerprint>)
    requires i <= |left.keys|
  {
    set k | k in left.keys[..i] && k in right.entries
  }

  /** The three dictionaries once Compare has handled the first `i` left keys. */
  ghost function ComparedPrefix(left: Table, right: Table, i: nat): (r: Partition)
    requires i <= |left.keys|
  {
    var shared := SharedPrefix(left, right, i);
    Partition(
      Table(Restrict(left.keys[..i], right.entries.Keys), Only(left.entries, shared)),
      Table(Exclude(left.keys, shared), left.entries - shared),
      Table(Exclude(right.keys, shared), right.entries - shared))
  }

  lemma ComparedPrefixValid(left: Table, right: Table, i: nat)
    requires left.Valid() && right.Valid() && i <= |left.keys|
    ensures var p := ComparedPrefix(left, right, i);
      p.common.Valid() && p.left.Valid() && p.right.Valid()
  {
    var shared := SharedPrefix(left, right, i);
    assert Distinct(left.keys[..i]);
    RestrictDistinct(left.keys[..i], right.entries.Keys);
    ExcludeDistinct(left.keys, shared);
    ExcludeDistinct(right.keys, shared);
  }

  /** Handling left key `i` adds it to the shared keys exactly when the right has it. */
  lemma SharedPrefixStep(left: Table, right: Table, i: nat)
    requires left.Valid() && i < |left.keys|
    ensures left.keys[i] !in SharedPrefix(left, right, i)
    ensures SharedPrefix(left, right, i + 1)
      == SharedPrefix(left, right, i) + (if left.keys[i] in right.entries then {left.keys[i]} else {})
  {
    assert left.keys[..i + 1] == left.keys[..i] + [left.keys[i]];
  }

  lemma RestrictSnoc(ks: seq<Fingerprint>, k: Fingerprint, keep: set<Fingerprint>)
    ensures Restrict(ks + [k], keep) == Restrict(ks, keep) + (if k in keep then [k] else [])
  {
    assert (ks + [k])[..|ks|] == ks;
  }

  /** Before any left key is handled, nothing is common and both sides are as given. */
  lemma ComparedPrefixStart(left: Table, right: Table)
    ensures ComparedPrefix(left, right, 0) == Partition(Table([], map[]), left, right)
  {
    assert left.keys[..0] == [];
    assert SharedPrefix(left, right, 0) == {};
    ExcludeNone(left.keys);
    ExcludeNone(right.keys);
    assert left.entries - {} == left.entries;
    assert right.entries - {} == right.entries;
    assert Only(left.entries, {}) == map[];
  }

  lemma OnlyAdd(m: map<Fingerprint, FileEntry>, s: set<Fingerprint>, k: Fingerprint)
    requires k in m
    ensures Only(m, s + {k}) == Only(m, s)[k := m[k]]
  {
  }

  lemma MinusAdd(m: map<Fingerprint, FileEntry>, s: set<Fingerprint>, k: Fingerprint)
    ensures m - (s + {k}) == (m - s) - {k}
  {
  }

  lemma MinusSameOnKeys(m: map<Fingerprint, FileEntry>, a: set<Fingerprint>, b: set<Fingerprint>)
    requires forall k :: k in m ==> (k in a <==> k in b)
    ensures m - a == m - b
  {
    assert (m - a).Keys == (m - b).Keys;
  }

  lemma OnlySameOnKeys(m: map<Fingerprint, FileEntry>, a: set<Fingerprint>, b: set<Fingerprint>)
    requires forall k :: k in m ==> (k in a <==> k in b)
    ensures Only(m, a) == Only(m, b)
  {
    assert Only(m, a).Keys == Only(m, b).Keys;
  }

  /**
   * Handling left key `i` when the right has it: the key joins the common
   * dictionary with the left file and leaves both sides.
   */
  lemma ComparedPrefixShared(left: Table, right: Table, i: nat)
    requires left.Valid() && i < |left.keys| && left.keys[i] in right.entries
    ensures var k, p, q := left.keys[i], ComparedPrefix(left, right, i), ComparedPrefix(left, right, i + 1);
      && k in left.entries
      && k !in p.common.entries
      && k in p.right.entries
      && q.common == Table(p.common.keys + [k], p.common.entries[k := left.entries[k]])
      && q.left == Table(Exclude(p.left.keys, {k}), p.left.entries - {k})
      && q.right == Table(Exclude(p.right.keys, {k}), p.right.entries - {k})
  {
    var k := left.keys[i];
    var shared := SharedPrefix(left, right, i);
    SharedPrefixStep(left, right, i);
    assert left.keys[..i + 1] == left.keys[..i] + [k];
    RestrictSnoc(left.keys[..i], k, right.entries.Keys);
    ExcludeTwice(left.keys, shared, {k});
    ExcludeTwice(right.keys, shared, {k});
    OnlyAdd(left.entries, shared, k);
    MinusAdd(left.entries, shared, k);
    MinusAdd(right.entries, shared, k);
  }

  /** Handling left key `i` when the right lacks it changes nothing. */
  lemma ComparedPrefixUnshared(left: Table, right: Table, i: nat)
    requires left.Valid() && i < |left.keys| && left.keys[i] !in right.entries
    ensures var k := left.keys[i];
      k in left.entries && k !in ComparedPrefix(left, right, i).right.entries
    ensures ComparedPrefix(left, right, i + 1) == ComparedPrefix(left, right, i)
  {
    SharedPrefixStep(left, right, i);
    assert SharedPrefix(left, right, i + 1) == SharedPrefix(left, right, i);
    assert left.keys[..i + 1] == left.keys[..i] + [left.keys[i]];
    RestrictSnoc(left.keys[..i], left.keys[i], right.entries.Keys);
  }

  /** Once every left key is handled, the dictionaries are the comparison's outcome. */
  lemma ComparedPrefixEnd(left: Table, right: Table)
    requires left.Valid() && right.Valid()
    ensures ComparedPrefix(left, right, |left.keys|) == Compared(left, right)
  {
    var shared := SharedPrefix(left, right, |left.keys|);
    assert left.keys[..|left.keys|] == left.keys;
    assert shared == left.entries.Keys * right.entries.Keys;
    ExcludeSameOnKeys(left.keys, shared, right.entries.Keys);
    ExcludeSameOnKeys(right.keys, shared, left.entries.Keys);
    MinusSameOnKeys(left.entries, shared, right.entries.Keys);
    MinusSameOnKeys(right.entries, shared, left.entries.Keys);
    OnlySameOnKeys(left.entries, shared, right.entries.Keys);
    var p, c := ComparedPrefix(left, right, |left.keys|), Compared(left, right);
    assert p.common == c.common;
    assert p.left == c.left;
    assert p.right == c.right;
  }

  /**
   * One turn of Compare's loop over the left snapshot with entry (key, value):
   * when the right still has the key, the entry joins the common dictionary
   * and the key leaves both sides.
   */
  function CompareStep(p: Partition, key: Fingerprint, value: FileEntry): (r: Partition)
  {
    if key in p.right.entries then
      Partition(
        Table(p.common.keys + [key], p.common.entries[key := value]),
        Table(Exclude(p.left.keys, {key}), p.left.entries - {key}),
        Table(Exclude(p.right.keys, {key}), p.right.entries - {key}))
    else p
  }

  /** The dictionaries after Compare's loop has handled the first `i` left entries. */
  function ComparedUpTo(left: Table, right: Table, i: nat): (r: Partition)
    requires i <= |left.keys| && forall k :: k in left.keys ==> k in left.entries
  {
    if i == 0 then Partition(Table([], map[]), left, right)
    else CompareStep(ComparedUpTo(left, right, i - 1), left.keys[i - 1], left.entries[left.keys[i - 1]])
  }

  /** A turn of the loop takes the closed form for `i - 1` to the closed form for `i`. */
  lemma ComparedPrefixStep(left: Table, right: Table, i: nat)
    requires left.Valid() && 0 < i <= |left.keys|
    ensures ComparedPrefix(left, right, i)
      == CompareStep(ComparedPrefix(left, right, i - 1), left.keys[i - 1], left.entries[left.keys[i - 1]])
  {
    if left.keys[i - 1] in right.entries {
      ComparedPrefixShared(left, right, i - 1);
    } else {
      ComparedPrefixUnshared(left, right, i - 1);
    }
  }

  /** The loop's state agrees with the closed form before the first turn. */
  lemma ComparedUpToStart(left: Table, right: Table)
    requires left.Valid()
    ensures ComparedUpTo(left, right, 0) == ComparedPrefix(left, right, 0)
  {
    ComparedPrefixStart(left, right);
  }

  /** If the loop's state agrees with the closed form before turn `i`, it does after it. */
  lemma ComparedUpToTurn(left: Table, right: Table, i: nat)
    requires left.Valid() && 0 < i <= |left.keys|
    requires ComparedUpTo(left, right, i - 1) == ComparedPrefix(left, right, i - 1)
    ensures ComparedUpTo(left, right, i) == ComparedPrefix(left, right, i)
  {
    ComparedPrefixStep(left, right, i);
  }

  /** The loop's state after `i` turns is the closed form ComparedPrefix. */
  lemma {:induction false} ComparedUpToClosed(left: Table, right: Table, i: nat)
    requires left.Valid() && i <= |left.keys|
    ensures ComparedUpTo(left, right, i) == ComparedPrefix(left, right, i)
    decreases i
  {
    if i == 0 {
      ComparedUpToStart(left, right);
    } else {
      ComparedUpToClosed(left, right, i - 1);
      ComparedUpToTurn(left, right, i);
    }
  }

  /** Before each turn the three dictionaries are well formed. */
  lemma ComparedUpToValid(left: Table, right: Table, i: nat)
    requires left.Valid() && right.Valid() && i <= |left.keys|
    ensures var p := ComparedUpTo(left, right, i);
      p.common.Valid() && p.left.Valid() && p.right.Valid()
  {
    ComparedUpToClosed(left, right, i);
    ComparedPrefixValid(left, right, i);
  }

  /** The entry a turn handles is not yet in the common dictionary, so Add applies. */
  lemma ComparedUpToNotCommon(left: Table, right: Table, i: nat)
    requires left.Valid() && i < |left.keys|
    ensures left.keys[i] !in ComparedUpTo(left, right, i).common.entries
  {
    ComparedUpToClosed(left, right, i);
    SharedPrefixStep(left, right, i);
  }

  /** One more turn of the loop: the next left entry is not yet common and the fold takes one step. */
  lemma ComparedUpToNext(left: Table, right: Table, i: nat)
    requires left.Valid() && i < |left.keys|
    ensures left.keys[i] !in ComparedUpTo(left, right, i).common.entries
    ensures ComparedUpTo(left, right, i + 1)
         == CompareStep(ComparedUpTo(left, right, i), left.keys[i], left.entries[left.keys[i]])
  {
    ComparedUpToNotCommon(left, right, i);
  }

  /** After a turn for every left entry, the loop has computed Compared. */
  lemma ComparedUpToEnd(left: Table, right: Table)
    requires left.Valid() && right.Valid()
    ensures ComparedUpTo(left, right, |left.keys|) == Compared(left, right)
  {
    ComparedUpToClosed(left, right, |left.keys|);
    ComparedPrefixEnd(left, right);
  }

  /** The Comparing notifications: one per left entry, in enumeration order, numbered 1 to n out of n. */
  function CompareLog(left: Table): (r: seq<Status>)
    requires forall k :: k in left.keys ==> k in left.entries
  {
    ProgressLog(Comparing, BothFolders, left.Values(), 1, |left.entries|)
  }

  /** Exactly one Comparing notification is raised per left entry, carrying that entry's file. */
  lemma CompareLogPerEntry(left: Table)
    requires left.Valid()
    ensures var log := CompareLog(left);
      && |log| == |left.entries|
      && forall i :: 0 <= i < |log| ==>
        && log[i] == Status(Comparing, BothFolders, Some(left.entries[left.keys[i]]), i + 1, |left.entries|)
  {
    TableCount(left);
    ProgressLogEntries(Comparing, BothFolders, left.Values(), 1, |left.entries|);
    ValuesInOrder(left);
  }
}

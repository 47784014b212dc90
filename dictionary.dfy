/**
 * The fingerprint-keyed dictionary the comparator builds and edits
 * (Dictionary<string, FileInfo>). Its enumeration order is the order in which
 * keys were added, with removed keys left out.
 */
module Dictionaries {
  import opened Files

  /** A content fingerprint as the source keys it: the Base64 text of a digest. */
  type Fingerprint = string

  predicate Distinct<T(==)>(s: seq<T>)
  {
    forall i, j :: 0 <= i < j < |s| ==> s[i] != s[j]
  }

  lemma DistinctAppend<T>(s: seq<T>, x: T)
    requires Distinct(s) && x !in s
    ensures Distinct(s + [x])
  {
  }

  /** The keys of `ks` that are in `keep`, in their order. */
  function Restrict(ks: seq<Fingerprint>, keep: set<Fingerprint>): (r: seq<Fingerprint>)
    ensures |r| <= |ks|
    ensures forall k :: k in r <==> k in ks && k in keep
    decreases |ks|
  {
    if ks == [] then []
    else
      var last := ks[|ks| - 1];
      assert ks == ks[..|ks| - 1] + [last];
      Restrict(ks[..|ks| - 1], keep) + (if last in keep then [last] else [])
  }

  /** The keys of `ks` that are not in `drop`, in their order. */
  function Exclude(ks: seq<Fingerprint>, drop: set<Fingerprint>): (r: seq<Fingerprint>)
    ensures |r| <= |ks|
    ensures forall k :: k in r <==> k in ks && k !in drop
    decreases |ks|
  {
    if ks == [] then []
    else
      var last := ks[|ks| - 1];
      assert ks == ks[..|ks| - 1] + [last];
      Exclude(ks[..|ks| - 1], drop) + (if last in drop then [] else [last])
  }

  lemma {:induction false} RestrictDistinct(ks: seq<Fingerprint>, keep: set<Fingerprint>)
    requires Distinct(ks)
    ensures Distinct(Restrict(ks, keep))
    decreases |ks|
  {
    if ks != [] {
      var init := ks[..|ks| - 1];
      RestrictDistinct(init, keep);
      assert ks[|ks| - 1] !in init;
    }
  }

  lemma {:induction false} ExcludeDistinct(ks: seq<Fingerprint>, drop: set<Fingerprint>)
    requires Distinct(ks)
    ensures Distinct(Exclude(ks, drop))
    decreases |ks|
  {
    if ks != [] {
      var init := ks[..|ks| - 1];
      ExcludeDistinct(init, drop);
      assert ks[|ks| - 1] !in init;
    }
  }

  /** Excluding one set and then another is excluding their union. */
  lemma {:induction false} ExcludeTwice(ks: seq<Fingerprint>, a: set<Fingerprint>, b: set<Fingerprint>)
    ensures Exclude(Exclude(ks, a), b) == Exclude(ks, a + b)
    decreases |ks|
  {
    if ks != [] {
      var init, last := ks[..|ks| - 1], ks[|ks| - 1];
      ExcludeTwice(init, a, b);
      var e := Exclude(init, a);
      if last !in a {
        assert Exclude(ks, a) == e + [last];
        assert (e + [last])[..|e + [last]| - 1] == e;
      } else {
        assert Exclude(ks, a) == e;
      }
    }
  }

  /** Excluding nothing keeps every key. */
  lemma {:induction false} ExcludeNone(ks: seq<Fingerprint>)
    ensures Exclude(ks, {}) == ks
    decreases |ks|
  {
    if ks != [] {
      ExcludeNone(ks[..|ks| - 1]);
      assert ks == ks[..|ks| - 1] + [ks[|ks| - 1]];
    }
  }

  /** Only the members of `ks` decide what Exclude keeps. */
  lemma {:induction false} ExcludeSameOnKeys(ks: seq<Fingerprint>, a: set<Fingerprint>, b: set<Fingerprint>)
    requires forall k :: k in ks ==> (k in a <==> k in b)
    ensures Exclude(ks, a) == Exclude(ks, b)
    decreases |ks|
  {
    if ks != [] {
      ExcludeSameOnKeys(ks[..|ks| - 1], a, b);
    }
  }

  /** A key sequence splits into the part inside a set and the part outside it. */
  lemma {:induction false} RestrictExcludeCount(ks: seq<Fingerprint>, s: set<Fingerprint>)
    ensures |Restrict(ks, s)| + |Exclude(ks, s)| == |ks|
    decreases |ks|
  {
    if ks != [] {
      RestrictExcludeCount(ks[..|ks| - 1], s);
    }
  }

  /** The entries of `m` whose keys are in `s`. */
  function Only(m: map<Fingerprint, FileEntry>, s: set<Fingerprint>): (r: map<Fingerprint, FileEntry>)
    ensures r.Keys == m.Keys * s
    ensures forall k :: k in r ==> r[k] == m[k]
  {
    map k | k in m && k in s :: m[k]
  }

  /** The value of a dictionary: its keys in enumeration order and its entries. */
  datatype Table = Table(keys: seq<Fingerprint>, entries: map<Fingerprint, FileEntry>)
  {
    /** Every key is listed once, and the listed keys are exactly the entries' keys. */
    ghost predicate Valid()
    {
      Distinct(keys) && forall k :: k in entries <==> k in keys
    }

    /** The values in enumeration order (Dictionary.Values). */
    function Values(): (vs: seq<FileEntry>)
      requires forall k :: k in keys ==> k in entries
      ensures |vs| == |keys|
      decreases |keys|
    {
      if keys == [] then []
      else
        var init := keys[..|keys| - 1];
        assert forall k :: k in init ==> k in keys;
        Table(init, entries).Values() + [entries[keys[|keys| - 1]]]
    }
  }

  /** Value `i` is the entry of key `i`. */
  lemma {:induction false} ValuesInOrder(t: Table)
    requires forall k :: k in t.keys ==> k in t.entries
    ensures forall i :: 0 <= i < |t.keys| ==> t.Values()[i] == t.entries[t.keys[i]]
    decreases |t.keys|
  {
    if t.keys != [] {
      var init := Table(t.keys[..|t.keys| - 1], t.entries);
      assert forall k :: k in init.keys ==> k in t.keys;
      ValuesInOrder(init);
    }
  }

  lemma ValueAt(t: Table, i: nat)
    requires forall k :: k in t.keys ==> k in t.entries
    requires i < |t.keys|
    ensures t.Values()[i] == t.entries[t.keys[i]]
  {
    ValuesInOrder(t);
  }

  /** A dictionary has as many entries as it lists keys. */
  lemma {:induction false} TableCount(t: Table)
    requires t.Valid()
    ensures |t.entries| == |t.keys|
    decreases |t.keys|
  {
    if t.keys == [] {
      assert t.entries.Keys == {};
    } else {
      var last := t.keys[|t.keys| - 1];
      var rest := Table(t.keys[..|t.keys| - 1], t.entries - {last});
      assert t.keys == rest.keys + [last];
      assert rest.Valid();
      TableCount(rest);
      assert t.entries.Keys == rest.entries.Keys + {last};
    }
  }

  /** A Dictionary<string, FileInfo> object that methods edit in place. */
  class FileDictionary {
    var keys: seq<Fingerprint>
    var entries: map<Fingerprint, FileEntry>

    function Contents(): (t: Table)
      reads this
    {
      Table(keys, entries)
    }

    ghost predicate Valid()
      reads this
    {
      Contents().Valid()
    }

    constructor ()
      ensures Valid() && keys == [] && entries == map[]
    {
      keys, entries := [], map[];
    }

    /** Dictionary.Count. */
    function Count(): (n: nat)
      reads this
      requires Valid()
      ensures n == |keys|
    {
      TableCount(Contents());
      |entries|
    }

    method ContainsKey(key: Fingerprint) returns (present: bool)
      ensures present <==> key in entries
    {
      present := key in entries;
    }

    /** The indexer; the source reads it only for a key it has just found. */
    method Get(key: Fingerprint) returns (file: FileEntry)
      requires key in entries
      ensures file == entries[key]
    {
      file := entries[key];
    }

    /** Dictionary.Add; the source adds only keys that are absent. */
    method Add(key: Fingerprint, file: FileEntry)
      requires key !in entries
      modifies this
      ensures old(Valid()) ==> Valid()
      ensures keys == old(keys) + [key] && entries == old(entries)[key := file]
    {
      if Valid() {
        DistinctAppend(keys, key);
      }
      keys, entries := keys + [key], entries[key := file];
    }

    /** Dictionary.Remove: drops the key if present and says whether it was. */
    method Remove(key: Fingerprint) returns (removed: bool)
      modifies this
      ensures old(Valid()) ==> Valid()
      ensures removed <==> key in old(entries)
      ensures keys == Exclude(old(keys), {key}) && entries == old(entries) - {key}
    {
      removed := key in entries;
      if Valid() {
        ExcludeDistinct(keys, {key});
      }
      keys, entries := Exclude(keys, {key}), entries - {key};
    }
  }
}

/** `copyStateDict` (test_craft.py, lines 29-38): the weights saved from a model wrapped for
    multi-GPU training carry keys such as "module.conv1.weight"; the function copies the
    ordered dictionary, dropping the first dot-separated segment of every key when the first
    key starts with "module".

    An ordered dictionary is a sequence of entries in insertion order.  Assigning to a key
    already present replaces its value where it stands; a new key goes to the end. */
module StateDict {
  import opened Text

  datatype Entry<V> = Entry(key: string, value: V)

  /** The keys, in order. */
  function Keys<V>(d: seq<Entry<V>>): (ks: seq<string>)
    ensures |ks| == |d| && forall i :: 0 <= i < |d| ==> ks[i] == d[i].key
  {
    if d == [] then [] else [d[0].key] + Keys(d[1..])
  }

  /** No key occurs twice: what an ordered dictionary guarantees. */
  predicate DistinctKeys<V>(d: seq<Entry<V>>) {
    forall i, j :: 0 <= i < j < |d| ==> d[i].key != d[j].key
  }

  /** `d.get(k)`. */
  function Get<V>(d: seq<Entry<V>>, k: string): (r: Option<V>)
    ensures r.None? <==> k !in Keys(d)
  {
    if d == [] then None
    else if d[0].key == k then Some(d[0].value)
    else
      assert Keys(d) == [d[0].key] + Keys(d[1..]);
      Get(d[1..], k)
  }

  /** `d[k] = v` on an ordered dictionary: an existing key keeps its place, a new key goes
      to the end. */
  function Assign<V>(d: seq<Entry<V>>, k: string, v: V): (r: seq<Entry<V>>)
    ensures Keys(r) == if k in Keys(d) then Keys(d) else Keys(d) + [k]
  {
    if d == [] then [Entry(k, v)]
    else if d[0].key == k then
      assert Keys(d) == [d[0].key] + Keys(d[1..]);
      assert Keys([Entry(k, v)] + d[1..]) == [k] + Keys(d[1..]);
      [Entry(k, v)] + d[1..]
    else
      var rest := Assign(d[1..], k, v);
      assert Keys(d) == [d[0].key] + Keys(d[1..]);
      assert Keys([d[0]] + rest) == [d[0].key] + Keys(rest);
      [d[0]] + rest
  }

  /** After `d[k] = v`, key `k` holds `v` and every other key what it held before. */
  lemma {:induction false} AssignGet<V>(d: seq<Entry<V>>, k: string, v: V, k': string)
    ensures Get(Assign(d, k, v), k') == if k' == k then Some(v) else Get(d, k')
    decreases |d|
  {
    if d != [] && d[0].key != k {
      AssignGet(d[1..], k, v, k');
      assert ([d[0]] + Assign(d[1..], k, v))[1..] == Assign(d[1..], k, v);
    } else if d != [] {
      assert ([Entry(k, v)] + d[1..])[1..] == d[1..];
    }
  }

  /** Keys with no repeats stay so: the key list is the old one or it with a new key
      appended. */
  lemma AssignDistinct<V>(d: seq<Entry<V>>, k: string, v: V)
    requires DistinctKeys(d)
    ensures DistinctKeys(Assign(d, k, v))
  {
    var r := Assign(d, k, v);
    assert Keys(r) == if k in Keys(d) then Keys(d) else Keys(d) + [k];
    forall i, j | 0 <= i < j < |r| ensures r[i].key != r[j].key {
      assert Keys(r)[i] == r[i].key && Keys(r)[j] == r[j].key;
      if j == |d| {
        assert Keys(d)[i] == d[i].key;
      } else {
        assert Keys(d)[i] == d[i].key && Keys(d)[j] == d[j].key;
      }
    }
  }

  /** A key not yet present is appended. */
  lemma {:induction false} AssignNew<V>(d: seq<Entry<V>>, k: string, v: V)
    requires k !in Keys(d)
    ensures Assign(d, k, v) == d + [Entry(k, v)]
    decreases |d|
  {
    if d != [] {
      assert Keys(d)[0] == d[0].key && d[0].key != k;
      assert k !in Keys(d[1..]) by {
        forall i | 0 <= i < |d| - 1 ensures Keys(d[1..])[i] != k {
          assert Keys(d[1..])[i] == d[i + 1].key == Keys(d)[i + 1];
        }
      }
      AssignNew(d[1..], k, v);
      assert Assign(d, k, v) == [d[0]] + Assign(d[1..], k, v);
      assert [d[0]] + (d[1..] + [Entry(k, v)]) == d + [Entry(k, v)];
    }
  }

  /** The dictionary that assigning the entries one after the other builds. */
  function BuildDict<V>(entries: seq<Entry<V>>): seq<Entry<V>>
    decreases |entries|
  {
    if entries == [] then []
    else
      var n := |entries| - 1;
      Assign(BuildDict(entries[..n]), entries[n].key, entries[n].value)
  }

  /** The position of the last entry with key `k`, or -1 when there is none. */
  function LastIndex<V>(entries: seq<Entry<V>>, k: string): (i: int)
    ensures -1 <= i < |entries|
    ensures i >= 0 ==> entries[i].key == k
    ensures forall j :: i < j < |entries| ==> entries[j].key != k
    decreases |entries|
  {
    if entries == [] then -1
    else if entries[|entries| - 1].key == k then |entries| - 1
    else LastIndex(entries[..|entries| - 1], k)
  }

  /** The value the last entry with key `k` carries, if any. */
  function LastValue<V>(entries: seq<Entry<V>>, k: string): Option<V> {
    var i := LastIndex(entries, k);
    if i == -1 then None else Some(entries[i].value)
  }

  /** Looking up a key in the built dictionary gives the value of the last entry with that
      key: a later assignment overwrites an earlier one. */
  lemma {:induction false} BuildDictLookup<V>(entries: seq<Entry<V>>, k: string)
    ensures Get(BuildDict(entries), k) == LastValue(entries, k)
    decreases |entries|
  {
    if entries != [] {
      var n := |entries| - 1;
      BuildDictLookup(entries[..n], k);
      AssignGet(BuildDict(entries[..n]), entries[n].key, entries[n].value, k);
    }
  }

  /** A key has a last entry exactly when some entry carries it. */
  lemma LastIndexFound<V>(entries: seq<Entry<V>>, k: string)
    ensures LastIndex(entries, k) == -1 <==> k !in Keys(entries)
  {
    var ks := Keys(entries);
    var i := LastIndex(entries, k);
    if i >= 0 {
      assert ks[i] == k;
    } else {
      forall j | 0 <= j < |ks| ensures ks[j] != k {
        assert ks[j] == entries[j].key;
      }
    }
  }

  /** The built dictionary has exactly the keys of the entries. */
  lemma BuildDictKeySet<V>(entries: seq<Entry<V>>)
    ensures forall k :: k in Keys(BuildDict(entries)) <==> k in Keys(entries)
  {
    forall k ensures k in Keys(BuildDict(entries)) <==> k in Keys(entries) {
      BuildDictLookup(entries, k);
      LastIndexFound(entries, k);
    }
  }

  /** The built dictionary has distinct keys, exactly those of the entries. */
  lemma {:induction false} BuildDictKeys<V>(entries: seq<Entry<V>>)
    ensures DistinctKeys(BuildDict(entries))
    ensures forall k :: k in Keys(BuildDict(entries)) <==> k in Keys(entries)
    decreases |entries|
  {
    if entries != [] {
      var n := |entries| - 1;
      BuildDictKeys(entries[..n]);
      AssignDistinct(BuildDict(entries[..n]), entries[n].key, entries[n].value);
    }
    BuildDictKeySet(entries);
  }

  /** Entries with distinct keys build themselves, in their own order. */
  lemma {:induction false} BuildDictOfDistinct<V>(entries: seq<Entry<V>>)
    requires DistinctKeys(entries)
    ensures BuildDict(entries) == entries
    decreases |entries|
  {
    if entries != [] {
      var n := |entries| - 1;
      assert DistinctKeys(entries[..n]);
      BuildDictOfDistinct(entries[..n]);
      assert entries[n].key !in Keys(entries[..n]);
      AssignNew(entries[..n], entries[n].key, entries[n].value);
      assert entries[..n] + [entries[n]] == entries;
    }
  }

  /** Line 36: the new name of key `k`, its dot-separated segments from `startIdx` on,
      joined again with dots. */
  function NewName(k: string, startIdx: nat): string
    requires startIdx <= 1
  {
    Join(Split(k, '.')[startIdx..], '.')
  }

  /** Every entry under its new name, with its value untouched. */
  function Renamed<V>(d: seq<Entry<V>>, startIdx: nat): (r: seq<Entry<V>>)
    requires startIdx <= 1
    ensures |r| == |d|
    ensures forall i :: 0 <= i < |d| ==> r[i] == Entry(NewName(d[i].key, startIdx), d[i].value)
  {
    seq(|d|, i requires 0 <= i < |d| => Entry(NewName(d[i].key, startIdx), d[i].value))
  }

  /** Lines 30-33: segments to drop, 1 when the first key starts with "module". */
  function StartIdx<V>(d: seq<Entry<V>>): nat
    requires d != []
  {
    if StartsWith(d[0].key, "module") then 1 else 0
  }

  /** What `copyStateDict` returns for a non-empty dictionary. */
  function Copied<V>(d: seq<Entry<V>>): seq<Entry<V>>
    requires d != []
  {
    BuildDict(Renamed(d, StartIdx(d)))
  }

  /** Lines 29-38.  An empty dictionary makes line 30 raise IndexError, modelled as `None`. */
  method CopyStateDict<V>(stateDict: seq<Entry<V>>) returns (r: Option<seq<Entry<V>>>)
    ensures r.None? <==> stateDict == []
    ensures r.Some? ==> r.value == Copied(stateDict) && DistinctKeys(r.value)
  {
    if |stateDict| == 0 {
      return None;
    }
    var startIdx := if StartsWith(stateDict[0].key, "module") then 1 else 0;
    var newStateDict := [];
    for i := 0 to |stateDict|
      invariant newStateDict == BuildDict(Renamed(stateDict[..i], startIdx))
    {
      var name := Join(Split(stateDict[i].key, '.')[startIdx..], '.');
      assert Renamed(stateDict[..i + 1], startIdx)[..i] == Renamed(stateDict[..i], startIdx);
      newStateDict := Assign(newStateDict, name, stateDict[i].value);
    }
    assert stateDict[..|stateDict|] == stateDict;
    BuildDictKeys(Renamed(stateDict, startIdx));
    return Some(newStateDict);
  }

  /** When the first key does not start with "module", the copy is the dictionary itself:
      same keys, same values, same order. */
  lemma CopyWithoutModulePrefix<V>(d: seq<Entry<V>>)
    requires d != [] && !StartsWith(d[0].key, "module")
    requires DistinctKeys(d)
    ensures Copied(d) == d
  {
    forall i | 0 <= i < |d| ensures NewName(d[i].key, 0) == d[i].key {
      JoinSplit(d[i].key, '.');
      assert Split(d[i].key, '.')[0..] == Split(d[i].key, '.');
    }
    assert Renamed(d, 0) == d;
    BuildDictOfDistinct(d);
  }

  /** A key without what lies up to and including its first dot; empty when it has no dot. */
  function DropFirstSegment(k: string): string {
    if '.' in k then k[IndexOf(k, '.') + 1..] else ""
  }

  /** Renaming with one segment dropped is `DropFirstSegment`. */
  lemma NewNameDropsFirst(k: string)
    ensures NewName(k, 1) == DropFirstSegment(k)
  {
    JoinDropFirst(k, '.');
  }

  /** When the first key starts with "module", every key, not only the first, loses its
      first segment (a key without a dot becomes empty); values and order are kept as long
      as the new names stay distinct. */
  lemma CopyWithModulePrefix<V>(d: seq<Entry<V>>)
    requires d != [] && StartsWith(d[0].key, "module")
    requires DistinctKeys(Renamed(d, 1))
    ensures |Copied(d)| == |d|
    ensures forall i :: 0 <= i < |d| ==> Copied(d)[i] == Entry(DropFirstSegment(d[i].key), d[i].value)
  {
    var r := Renamed(d, 1);
    BuildDictOfDistinct(r);
    assert Copied(d) == r;
    forall i | 0 <= i < |d| ensures r[i] == Entry(DropFirstSegment(d[i].key), d[i].value) {
      NewNameDropsFirst(d[i].key);
    }
  }

  /** Whatever the keys, each key of the copy holds the value of the last entry renamed to
      it: the copy never invents a value. */
  lemma CopyLookup<V>(d: seq<Entry<V>>, k: string)
    requires d != []
    ensures Get(Copied(d), k) == LastValue(Renamed(d, StartIdx(d)), k)
  {
    BuildDictLookup(Renamed(d, StartIdx(d)), k);
  }
}

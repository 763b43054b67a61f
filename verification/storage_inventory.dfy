/** `fetch_filenames_from_s3(prefix)`: the sorted names of the objects stored
    under a prefix. The bucket listing itself (and its pagination) happens
    outside this model: the complete list of object keys is a parameter. */
module StorageInventory {
  import opened Wrappers
  import opened RubyStrings
  import opened Sorting

  const Slash := '/'

  /** `key.split('/').last`. */
  function KeyName(key: string): (r: Option<string>)
    ensures r.Some? <==> HasSegment(key)
    ensures r.Some? ==> r.value != "" && Slash !in r.value
  {
    var r := LastField(key, [Slash]);
    if HasSegment(key) then
      var j :| 0 <= j < |key| && key[j] != Slash;
      LastFieldPresent(key, [Slash], j);
      ContainsChar(r.value, Slash);
      r
    else
      SeparatorsOnlyEmptyFields(key, Slash);
      r
  }

  /** The key has a character other than `/`, so `split('/')` is not empty. */
  predicate HasSegment(key: string)
  {
    exists j | 0 <= j < |key| :: key[j] != Slash
  }

  /** A listing under `prefix` only holds keys that begin with it. */
  predicate ListedUnder(keys: seq<string>, prefix: string)
  {
    forall k | k in keys :: StartsWith(k, prefix)
  }

  /** The name of a key is its last non-empty `/`-separated segment. */
  lemma KeyNameIsFinalSegment(key: string)
    requires HasSegment(key)
    ensures KeyName(key).Some?
    ensures IsFinalSegment(key, KeyName(key).value, Slash)
  {
    var j :| 0 <= j < |key| && key[j] != Slash;
    LastFieldPresent(key, [Slash], j);
    LastFieldIsFinalSegment(key, Slash);
  }

  /** The name of `dir/name` is `name`: `"item1/downloads/p1.jpg"` gives
      `"p1.jpg"`. */
  lemma KeyNameOfPath(dir: string, name: string)
    requires |name| > 0 && Slash !in name
    ensures KeyName(dir + [Slash] + name) == Some(name)
  {
    var key := dir + [Slash] + name;
    var i := |dir| + 1;
    assert key[i..i + |name|] == name;
    assert key[i - 1] == Slash;
    assert |key| == i + |name| && OccursAt(key, name, i);
    assert IsFinalSegment(key, name, Slash);
    assert key[i] == name[0];
    KeyNameIsFinalSegment(key);
    FinalSegmentUnique(key, name, KeyName(key).value, Slash);
  }

  /** A key that begins with a prefix holding a segment holds one too. */
  lemma ListedKeyHasSegment(key: string, prefix: string)
    requires HasSegment(prefix) && StartsWith(key, prefix)
    ensures HasSegment(key)
  {
    var j :| 0 <= j < |prefix| && prefix[j] != Slash;
    assert key[j] == key[..|prefix|][j];
  }

  /** The name of every key, in listing order. */
  function KeyNames(keys: seq<string>): (r: seq<string>)
    requires forall k | k in keys :: HasSegment(k)
    ensures |r| == |keys|
    ensures forall i | 0 <= i < |keys| :: IsFinalSegment(keys[i], r[i], Slash)
    decreases |keys|
  {
    if |keys| == 0 then []
    else
      KeyNameIsFinalSegment(keys[0]);
      [KeyName(keys[0]).value] + KeyNames(keys[1..])
  }

  /** Lines 54-60: the names of the objects listed under `prefix`, sorted. */
  function FetchFilenamesFromS3(prefix: string, keys: seq<string>): (r: seq<string>)
    requires HasSegment(prefix) && ListedUnder(keys, prefix)
    ensures |r| == |keys|
    ensures Sorted(r)
    ensures multiset(r) == multiset(KeyNames(keys))
    ensures forall n | n in r :: exists i | 0 <= i < |keys| :: IsFinalSegment(keys[i], n, Slash)
  {
    forall k | k in keys
      ensures HasSegment(k)
    {
      ListedKeyHasSegment(k, prefix);
    }
    var names := KeyNames(keys);
    var r := Sort(names);
    assert forall n | n in r :: n in multiset(names);
    r
  }

  /** The result is THE sorted order of the names: any sorted arrangement of
      the same names is this one, so the choice of sorting algorithm does not
      matter. */
  lemma FetchFilenamesFromS3Determined(prefix: string, keys: seq<string>, other: seq<string>)
    requires HasSegment(prefix) && ListedUnder(keys, prefix)
    requires Sorted(other)
    requires multiset(other) == multiset(KeyNames(keys))
    ensures other == FetchFilenamesFromS3(prefix, keys)
  {
    SortedUnique(other, FetchFilenamesFromS3(prefix, keys));
  }
}

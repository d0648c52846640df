/** The decoded form of the YAML documents embedded in a module's source, and the
    ordered-mapping operations the migration applies to them.

    A round-trip loader yields an insertion-ordered mapping whose keys are unique
    (it rejects a document with a repeated key); the model keeps a mapping as its
    list of entries in order. The loader and dumper themselves are a `Codec`
    supplied by the caller, and nothing is assumed about them, so a loaded
    `Mapping` may list a key twice. Such a list stands for no document the loader
    yields, and on it `Get` answers with the first entry and `RemoveKey` drops
    every entry, where a dict would hold one; the contracts that depend on the
    keys being unique require `UniqueKeys`. */
module Yaml {
  import opened Wrappers

  datatype Node =
    | Null                              // an empty document, or `~`
    | Str(s: string)                    // a string scalar
    | Scalar(text: string)              // any other scalar: a number, a boolean, a date
    | Seq(items: seq<Node>)
    | Mapping(entries: seq<(string, Node)>)

  type Entries = seq<(string, Node)>

  /** The YAML library: `load` is `None` where it would raise. */
  datatype Codec = Codec(load: string -> Option<Node>, dump: Node -> string)

  /** `ruamel.yaml.load(text, RoundTripLoader)`, raising where the loader rejects the text. */
  function Load(text: string, codec: Codec): (r: Result<Node>)
    ensures r.Ok? <==> codec.load(text).Some?
    ensures r.Ok? ==> Some(r.value) == codec.load(text)
  {
    match codec.load(text)
    case None => Err(YamlError)
    case Some(node) => Ok(node)
  }

  function Keys(m: Entries): (ks: seq<string>)
    ensures |ks| == |m| && forall i :: 0 <= i < |m| ==> ks[i] == m[i].0
  {
    seq(|m|, i requires 0 <= i < |m| => m[i].0)
  }

  /** `k in m` */
  predicate HasKey(m: Entries, k: string) {
    k in Keys(m)
  }

  predicate UniqueKeys(m: Entries) {
    forall i, j :: 0 <= i < j < |m| ==> m[i].0 != m[j].0
  }

  /** The position of the first entry with key `k`. */
  function IndexOf(m: Entries, k: string): (r: Option<nat>)
    ensures r.None? <==> !HasKey(m, k)
    ensures r.Some? ==> r.value < |m| && m[r.value].0 == k
    ensures r.Some? ==> forall j :: 0 <= j < r.value ==> m[j].0 != k
    decreases |m|
  {
    if m == [] then None
    else if m[0].0 == k then Some(0)
    else match IndexOf(m[1..], k)
      case None => None
      case Some(i) => Some(i + 1)
  }

  /** The position of the first entry with key `k` is the position `IndexOf` finds. */
  lemma IndexOfFirst(m: Entries, k: string, i: nat)
    requires i < |m| && m[i].0 == k
    requires forall j :: 0 <= j < i ==> m[j].0 != k
    ensures IndexOf(m, k) == Some(i)
  {
    assert Keys(m)[i] == k;
  }

  /** `m[k]`, `None` where Python raises `KeyError`. */
  function Get(m: Entries, k: string): (r: Option<Node>)
    ensures r.Some? <==> HasKey(m, k)
    ensures r.Some? ==> r.value == m[IndexOf(m, k).value].1
  {
    match IndexOf(m, k)
    case None => None
    case Some(i) => Some(m[i].1)
  }

  /** `m.pop(k, None)`, with the popped value discarded. */
  function RemoveKey(m: Entries, k: string): (r: Entries)
    decreases |m|
  {
    if m == [] then []
    else (if m[0].0 == k then [] else [m[0]]) + RemoveKey(m[1..], k)
  }

  lemma RemoveKeyCons(e: (string, Node), m: Entries, k: string)
    ensures RemoveKey([e] + m, k) == (if e.0 == k then [] else [e]) + RemoveKey(m, k)
  {
    assert ([e] + m)[1..] == m;
  }

  /** Removal is a filter: removing from two concatenated lists concatenates the results. */
  lemma {:induction false} RemoveKeyAppend(a: Entries, b: Entries, k: string)
    ensures RemoveKey(a + b, k) == RemoveKey(a, k) + RemoveKey(b, k)
    decreases |a|
  {
    if a == [] {
      assert a + b == b;
    } else {
      var e, rest := a[0], a[1..];
      RemoveKeyAppend(rest, b, k);
      assert a == [e] + rest;
      assert a + b == [e] + (rest + b);
      RemoveKeyCons(e, rest + b, k);
      RemoveKeyCons(e, rest, k);
    }
  }

  /** A key of two concatenated lists of entries is a key of one of them. */
  lemma HasKeyAppend(a: Entries, b: Entries, key: string)
    ensures HasKey(a + b, key) <==> HasKey(a, key) || HasKey(b, key)
  {
    assert Keys(a + b) == Keys(a) + Keys(b);
  }

  /** Removing `k` keeps exactly the other keys. */
  lemma {:induction false} RemoveKeyHas(m: Entries, k: string, other: string)
    ensures HasKey(RemoveKey(m, k), other) <==> HasKey(m, other) && other != k
    decreases |m|
  {
    if m != [] {
      var head := if m[0].0 == k then [] else [m[0]];
      RemoveKeyHas(m[1..], k, other);
      assert m == [m[0]] + m[1..];
      HasKeyAppend([m[0]], m[1..], other);
      HasKeyAppend(head, RemoveKey(m[1..], k), other);
      assert HasKey([m[0]], other) <==> m[0].0 == other by {
        assert Keys([m[0]]) == [m[0].0];
      }
      assert HasKey(head, other) <==> m[0].0 != k && m[0].0 == other by {
        assert Keys(head) == if m[0].0 == k then [] else [m[0].0];
      }
    }
  }

  /** Removing a key that does not occur changes nothing. */
  lemma {:induction false} RemoveAbsentKey(m: Entries, k: string)
    requires !HasKey(m, k)
    ensures RemoveKey(m, k) == m
    decreases |m|
  {
    if m != [] {
      var e, rest := m[0], m[1..];
      assert m == [e] + rest;
      HasKeyAppend([e], rest, k);
      assert Keys([e]) == [e.0];
      RemoveAbsentKey(rest, k);
      RemoveKeyCons(e, rest, k);
    }
  }

  /** Removing a key keeps the keys unique. */
  lemma {:induction false} RemoveKeyUnique(m: Entries, k: string)
    requires UniqueKeys(m)
    ensures UniqueKeys(RemoveKey(m, k))
    decreases |m|
  {
    if m != [] {
      RemoveKeyUnique(m[1..], k);
      if m[0].0 != k {
        assert !HasKey(m[1..], m[0].0) by {
          assert forall j :: 0 <= j < |m[1..]| ==> m[1..][j].0 == m[j + 1].0;
        }
        RemoveKeyHas(m[1..], k, m[0].0);
        var rest := RemoveKey(m[1..], k);
        assert RemoveKey(m, k) == [m[0]] + rest;
        assert forall j :: 0 <= j < |rest| ==> rest[j].0 != m[0].0 by {
          forall j | 0 <= j < |rest| ensures rest[j].0 != m[0].0 {
            assert Keys(rest)[j] == rest[j].0;
          }
        }
      }
    }
  }

  /** `m[k] = v`: an existing key keeps its position and takes the new value,
      a new key is appended. */
  function Put(m: Entries, k: string, v: Node): (r: Entries)
    ensures Get(r, k) == Some(v)
    ensures HasKey(m, k) ==> |r| == |m| && r[IndexOf(m, k).value] == (k, v)
    ensures !HasKey(m, k) ==> r == m + [(k, v)]
    ensures forall j :: 0 <= j < |m| && m[j].0 != k ==> r[j] == m[j]
  {
    match IndexOf(m, k)
    case None =>
      IndexOfFirst(m + [(k, v)], k, |m|);
      m + [(k, v)]
    case Some(i) =>
      IndexOfFirst(m[i := (k, v)], k, i);
      m[i := (k, v)]
  }

  /** A mapping built from a list of pairs, as `dict(pairs)` builds it: each pair
      is stored in turn, so a repeated key keeps its first position and takes its
      last value. */
  function FromPairs(pairs: Entries): (r: Entries)
    decreases |pairs|
  {
    if pairs == [] then []
    else
      var last := pairs[|pairs| - 1];
      Put(FromPairs(pairs[..|pairs| - 1]), last.0, last.1)
  }

  /** A list of pairs without repeated keys becomes a mapping with the same entries
      in the same order. */
  lemma {:induction false} FromUniquePairs(pairs: Entries)
    requires UniqueKeys(pairs)
    ensures FromPairs(pairs) == pairs
    decreases |pairs|
  {
    if pairs != [] {
      UniqueInit(pairs);
      FromUniquePairs(pairs[..|pairs| - 1]);
      FromPairsSnoc(pairs);
    }
  }

  /** Storing the last pair, with a new key, after pairs that are their own mapping
      appends it. */
  lemma FromPairsSnoc(pairs: Entries)
    requires pairs != []
    requires FromPairs(pairs[..|pairs| - 1]) == pairs[..|pairs| - 1]
    requires !HasKey(pairs[..|pairs| - 1], pairs[|pairs| - 1].0)
    ensures FromPairs(pairs) == pairs
  {
    var init, last := pairs[..|pairs| - 1], pairs[|pairs| - 1];
    SplitLast(pairs);
    assert FromPairs(pairs) == Put(init, last.0, last.1);
  }

  lemma SplitLast(pairs: Entries)
    requires pairs != []
    ensures pairs[..|pairs| - 1] + [(pairs[|pairs| - 1].0, pairs[|pairs| - 1].1)] == pairs
  {
  }

  /** Without its last pair, a list of unique keys still has unique keys, none of
      them the last key. */
  lemma UniqueInit(pairs: Entries)
    requires UniqueKeys(pairs) && pairs != []
    ensures UniqueKeys(pairs[..|pairs| - 1])
    ensures !HasKey(pairs[..|pairs| - 1], pairs[|pairs| - 1].0)
  {
    var init, last := pairs[..|pairs| - 1], pairs[|pairs| - 1];
    forall i, j | 0 <= i < j < |init| ensures init[i].0 != init[j].0 {
      assert init[i] == pairs[i] && init[j] == pairs[j];
    }
    forall j | 0 <= j < |init| ensures Keys(init)[j] != last.0 {
      assert init[j] == pairs[j];
    }
  }

  /** Storing a pair keeps the keys unique and adds only its key. */
  lemma PutUnique(m: Entries, k: string, v: Node)
    requires UniqueKeys(m)
    ensures UniqueKeys(Put(m, k, v))
    ensures forall key :: HasKey(Put(m, k, v), key) <==> HasKey(m, key) || key == k
  {
    var r := Put(m, k, v);
    if HasKey(m, k) {
      var i := IndexOf(m, k).value;
      assert r == m[i := (k, v)];
      assert Keys(r) == Keys(m);
    } else {
      assert Keys(r) == Keys(m) + [k];
    }
  }

  /** The mapping built from pairs holds each key once, and exactly the keys of the pairs. */
  lemma {:induction false} FromPairsKeys(pairs: Entries)
    ensures UniqueKeys(FromPairs(pairs))
    ensures forall key :: HasKey(FromPairs(pairs), key) <==> HasKey(pairs, key)
    decreases |pairs|
  {
    if pairs != [] {
      var init := pairs[..|pairs| - 1];
      var last := pairs[|pairs| - 1];
      FromPairsKeys(init);
      PutUnique(FromPairs(init), last.0, last.1);
      assert Keys(pairs) == Keys(init) + [last.0];
    }
  }
}

/**
 * Python dictionary semantics used by the parser: a dictionary built by
 * inserting key/value pairs left to right, where a later insertion of a key
 * overwrites an earlier one, and `dict.get` with and without a default.
 */
module Dict {

  datatype Option<+T> = None | Some(value: T)

  /** The dictionary obtained by inserting `entries` in order into an empty one. */
  function BuildMap<K, V>(entries: seq<(K, V)>): (m: map<K, V>)
    ensures m.Keys == set e | e in entries :: e.0
    decreases |entries|
  {
    if |entries| == 0 then map[]
    else
      var last := entries[|entries| - 1];
      var prefix := entries[..|entries| - 1];
      assert entries == prefix + [last];
      BuildMap(prefix)[last.0 := last.1]
  }

  /** `d.get(k)`: the value stored under `k`, or None. */
  function Get<K, V>(m: map<K, V>, k: K): (r: Option<V>)
    ensures r.Some? <==> k in m
    ensures r.Some? ==> r.value == m[k]
  {
    if k in m then Some(m[k]) else None
  }

  /** `d.get(k, default)`. */
  function GetOr<K, V>(m: map<K, V>, k: K, default: V): (r: V)
    ensures k !in m ==> r == default
    ensures k in m ==> r == m[k]
  {
    if k in m then m[k] else default
  }

  /** The index of the last entry whose key is `k`, or -1 when there is none. */
  function LastIndexOf<K(==), V>(entries: seq<(K, V)>, k: K): (i: int)
    ensures -1 <= i < |entries|
    ensures i >= 0 ==> entries[i].0 == k && forall j :: i < j < |entries| ==> entries[j].0 != k
    ensures i == -1 ==> forall j :: 0 <= j < |entries| ==> entries[j].0 != k
    decreases |entries|
  {
    if |entries| == 0 then -1
    else if entries[|entries| - 1].0 == k then |entries| - 1
    else LastIndexOf(entries[..|entries| - 1], k)
  }

  /**
   * Last write wins: a key is present exactly when some entry has it, and its
   * value is that of the last such entry.
   */
  lemma {:induction false} BuildMapLastWins<K, V>(entries: seq<(K, V)>, k: K)
    ensures k in BuildMap(entries) <==> LastIndexOf(entries, k) >= 0
    ensures k in BuildMap(entries) ==> BuildMap(entries)[k] == entries[LastIndexOf(entries, k)].1
    decreases |entries|
  {
    if |entries| > 0 {
      var prefix := entries[..|entries| - 1];
      BuildMapLastWins(prefix, k);
    }
  }

  /** A prefix one element longer is the shorter prefix and that element. */
  lemma PrefixSnoc<T>(s: seq<T>, i: nat)
    requires i < |s|
    ensures s[..i + 1] == s[..i] + [s[i]]
  {
  }

  /** A sequence that agrees with `left` and then holds `x` is `left + [x]`. */
  lemma SnocByIndex<T>(whole: seq<T>, left: seq<T>, x: T)
    requires |whole| == |left| + 1 && whole[|left|] == x
    requires forall i :: 0 <= i < |left| ==> whole[i] == left[i]
    ensures whole == left + [x]
  {
  }

  lemma ConcatAssoc<T>(a: seq<T>, b: seq<T>, c: seq<T>)
    ensures a + (b + c) == (a + b) + c
  {
  }

  /** Appending one entry is one more insertion. */
  lemma BuildMapSnoc<K, V>(entries: seq<(K, V)>, e: (K, V))
    ensures BuildMap(entries + [e]) == BuildMap(entries)[e.0 := e.1]
  {
    assert (entries + [e])[..|entries|] == entries;
  }
}

/**
 * A plain JavaScript object used as a dictionary (`Record<string, V>`): its
 * own keys in insertion order, each with one value. Assigning to a key that
 * is already present overwrites the value and keeps the key's position;
 * assigning to a new key appends it. `Object.keys` and `Object.entries`
 * enumerate in that order (for keys that are not array indices, which is all
 * keys this pipeline uses).
 */
module JsRecord {
  import opened Options
  import opened JsArray

  type Record<V> = seq<(string, V)>

  /** `Object.keys(m)`. */
  function Keys<V>(m: Record<V>): (ks: seq<string>)
    ensures |ks| == |m|
    ensures forall i :: 0 <= i < |m| ==> ks[i] == m[i].0
  {
    seq(|m|, i requires 0 <= i < |m| => m[i].0)
  }

  predicate HasKey<V>(m: Record<V>, k: string) {
    k in Keys(m)
  }

  predicate Distinct(s: seq<string>) {
    forall i, j :: 0 <= i < j < |s| ==> s[i] != s[j]
  }

  /** A real object never holds the same key twice. */
  predicate WellFormed<V>(m: Record<V>) {
    Distinct(Keys(m))
  }

  function IndexOf<V>(m: Record<V>, k: string): (r: Option<nat>)
    ensures r.None? <==> !HasKey(m, k)
    ensures r.Some? ==> r.value < |m| && m[r.value].0 == k
    ensures r.Some? ==> forall j :: 0 <= j < r.value ==> m[j].0 != k
  {
    FindFirst(Keys(m), x => x == k)
  }

  /** `m[k]`, with `None` for `undefined`. */
  function Get<V>(m: Record<V>, k: string): (r: Option<V>)
    ensures r.None? <==> !HasKey(m, k)
    ensures r.Some? ==> exists i :: 0 <= i < |m| && m[i] == (k, r.value)
  {
    match IndexOf(m, k)
    case None => None
    case Some(i) => Some(m[i].1)
  }

  /** `m[k] = v`. */
  function Put<V>(m: Record<V>, k: string, v: V): (r: Record<V>)
    ensures Keys(r) == if HasKey(m, k) then Keys(m) else Keys(m) + [k]
    ensures !HasKey(m, k) ==> r == m + [(k, v)]
    ensures HasKey(m, k) ==> r == m[IndexOf(m, k).value := (k, v)]
    ensures Get(r, k) == Some(v)
    ensures forall k' :: k' != k ==> Get(r, k') == Get(m, k')
    ensures WellFormed(m) ==> WellFormed(r)
  {
    match IndexOf(m, k)
    case None =>
      var r := m + [(k, v)];
      assert Keys(r) == Keys(m) + [k];
      assert forall k' :: k' != k ==> IndexOf(r, k') == IndexOf(m, k') by {
        forall k' | k' != k ensures IndexOf(r, k') == IndexOf(m, k') {
          if HasKey(m, k') {
            var j := IndexOf(m, k').value;
            assert r[j].0 == k';
            assert HasKey(r, k') by { assert Keys(r)[j] == k'; }
            var j' := IndexOf(r, k').value;
            assert j' <= j;
            assert m[j'].0 == k';
          }
        }
      }
      r
    case Some(i) =>
      var r := m[i := (k, v)];
      assert Keys(r) == Keys(m);
      r
  }

  /** Writing a key twice leaves the second value, at the position of the first write. */
  lemma PutPut<V>(m: Record<V>, k: string, v: V, w: V)
    ensures Put(Put(m, k, v), k, w) == Put(m, k, w)
  {
    var m1 := Put(m, k, v);
    assert HasKey(m1, k) by { assert Get(m1, k).Some?; }
    var i := IndexOf(m1, k).value;
    if HasKey(m, k) {
      assert IndexOf(m, k) == IndexOf(m1, k);
    } else {
      FirstIsUnique(Keys(m1), x => x == k, |m|);
      assert i == |m|;
    }
  }

  /** The distinct elements of `s` in order of first occurrence. */
  function FirstOccurrences(s: seq<string>): (r: seq<string>)
    ensures Distinct(r)
    ensures forall x :: x in r <==> x in s
    ensures forall i, j, b :: 0 <= i < j < |r| && 0 <= b < |s| && s[b] == r[j] ==> r[i] in s[..b]
  {
    if s == [] then []
    else
      var s' := s[..|s| - 1];
      var c := s[|s| - 1];
      var p := FirstOccurrences(s');
      assert forall x :: x in s <==> x in s' || x == c;
      assert forall b :: 0 <= b < |s'| ==> s[..b] == s'[..b];
      assert s[..|s| - 1] == s';
      if c in p then p else p + [c]
  }
}

/** `Array.prototype.find` and `findIndex`: the first element satisfying a test. */
module JsArray {
  import opened Options

  /** Index of the first element of `s` that satisfies `p`, if there is one. */
  function FindFirst<T>(s: seq<T>, p: T -> bool): (r: Option<nat>)
    ensures r.Some? ==> r.value < |s| && p(s[r.value])
    ensures r.Some? ==> forall j :: 0 <= j < r.value ==> !p(s[j])
    ensures r.None? <==> forall j :: 0 <= j < |s| ==> !p(s[j])
  {
    if s == [] then None
    else if p(s[0]) then Some(0)
    else match FindFirst(s[1..], p)
      case None => None
      case Some(i) => Some(i + 1)
  }

  /** Two first-match indices of the same test on the same sequence agree. */
  lemma {:induction false} FirstIsUnique<T>(s: seq<T>, p: T -> bool, i: nat)
    requires i < |s| && p(s[i])
    requires forall j :: 0 <= j < i ==> !p(s[j])
    ensures FindFirst(s, p) == Some(i)
  {
    assert FindFirst(s, p).Some? by { assert !(forall j :: 0 <= j < |s| ==> !p(s[j])); }
  }

  /** Any index that satisfies the test and has no earlier one that does is the first. */
  lemma FirstIsUniqueAll<T>(s: seq<T>, p: T -> bool)
    ensures forall i :: (0 <= i < |s| && p(s[i]) && (forall j :: 0 <= j < i ==> !p(s[j]))) ==>
      FindFirst(s, p) == Some(i)
  {
    forall i | 0 <= i < |s| && p(s[i]) && (forall j :: 0 <= j < i ==> !p(s[j]))
      ensures FindFirst(s, p) == Some(i)
    {
      FirstIsUnique(s, p, i);
    }
  }

  /** `s.map(f).filter(Boolean)`, for a callback that yields an object or `null`. */
  function MapNonNull<A, B>(s: seq<A>, f: A -> Option<B>): (r: seq<B>)
    ensures |r| <= |s|
  {
    if s == [] then []
    else MapNonNull(s[..|s| - 1], f) + (match f(s[|s| - 1]) case None => [] case Some(b) => [b])
  }

  /** The results keep the order of the elements that produced them. */
  lemma {:induction false} MapNonNullAppend<A, B>(s: seq<A>, t: seq<A>, f: A -> Option<B>)
    ensures MapNonNull(s + t, f) == MapNonNull(s, f) + MapNonNull(t, f)
    decreases |t|
  {
    if t == [] {
      assert s + t == s;
    } else {
      var t' := t[..|t| - 1];
      assert (s + t)[..|s + t| - 1] == s + t';
      MapNonNullAppend(s, t', f);
    }
  }

  /** A value is in the result exactly when some element yields it. */
  lemma {:induction false} MapNonNullMembers<A, B>(s: seq<A>, f: A -> Option<B>, y: B)
    ensures y in MapNonNull(s, f) <==> exists i :: 0 <= i < |s| && f(s[i]) == Some(y)
  {
    if s != [] {
      var p := s[..|s| - 1];
      MapNonNullMembers(p, f, y);
      if y in MapNonNull(p, f) {
        var i :| 0 <= i < |p| && f(p[i]) == Some(y);
        assert p[i] == s[i];
      } else if f(s[|s| - 1]) != Some(y) {
        forall i | 0 <= i < |s|
          ensures f(s[i]) != Some(y)
        {
          if i < |p| {
            assert p[i] == s[i];
          }
        }
      }
    }
  }
}

/** Generic building blocks used by the data-preparation model: an Option
    type for nullable cells and failing conversions, the row-wise
    operations a dataframe pipeline is made of (filter, map, filter-and-map,
    and a map that fails as a whole when one element fails), occurrence
    counting, and substring containment. */
module Collections {

  /** A cell that may be null, or a conversion that may fail. */
  datatype Option<+T> = None | Some(value: T)

  // ---------------------------------------------------------------------
  // Row-wise operations
  // ---------------------------------------------------------------------

  /** Keeps, in order, the elements that satisfy `p` (a boolean mask). */
  function Filter<T>(s: seq<T>, p: T -> bool): (r: seq<T>)
    ensures |r| <= |s|
    ensures forall i :: 0 <= i < |r| ==> r[i] in s && p(r[i])
    ensures forall i :: 0 <= i < |s| && p(s[i]) ==> s[i] in r
  {
    if s == [] then [] else (if p(s[0]) then [s[0]] else []) + Filter(s[1..], p)
  }

  /** Applies `f` to every element, keeping order and length. */
  function Map<T, U>(s: seq<T>, f: T -> U): (r: seq<U>)
    ensures |r| == |s|
    ensures forall i :: 0 <= i < |s| ==> r[i] == f(s[i])
  {
    if s == [] then [] else [f(s[0])] + Map(s[1..], f)
  }

  /** Keeps, in order, the images of the elements on which `f` succeeds. */
  function FilterMap<T, U>(s: seq<T>, f: T -> Option<U>): (r: seq<U>)
    ensures |r| <= |s|
    ensures forall i :: 0 <= i < |s| && f(s[i]).Some? ==> f(s[i]).value in r
  {
    if s == [] then []
    else (if f(s[0]).Some? then [f(s[0]).value] else []) + FilterMap(s[1..], f)
  }

  /** Applies `f` to every element; fails as a whole as soon as one
      element fails, as a column `apply` does when the function raises. */
  function MapAll<T, U>(s: seq<T>, f: T -> Option<U>): (r: Option<seq<U>>)
    ensures r.Some? <==> forall i :: 0 <= i < |s| ==> f(s[i]).Some?
    ensures r.Some? ==> |r.value| == |s| && forall i :: 0 <= i < |s| ==> f(s[i]) == Some(r.value[i])
  {
    if s == [] then Some([])
    else
      match f(s[0])
      case None => None
      case Some(y) =>
        match MapAll(s[1..], f)
        case None => None
        case Some(ys) => Some([y] + ys)
  }

  /** The positions of `s` on which `f` succeeds, each shifted by `offset`,
      in increasing order. */
  function KeptIndices<T, U>(s: seq<T>, f: T -> Option<U>, offset: nat): (idx: seq<nat>)
    ensures |idx| == |FilterMap(s, f)|
    ensures forall k :: 0 <= k < |idx| ==> offset <= idx[k] < offset + |s|
  {
    if s == [] then []
    else if f(s[0]).Some? then [offset] + KeptIndices(s[1..], f, offset + 1)
    else KeptIndices(s[1..], f, offset + 1)
  }

  /** The k-th element of FilterMap(s, f) is the image of the element at
      the k-th kept position. */
  lemma {:induction false} KeptIndexSound<T, U>(s: seq<T>, f: T -> Option<U>, offset: nat, k: nat)
    requires k < |KeptIndices(s, f, offset)|
    ensures f(s[KeptIndices(s, f, offset)[k] - offset]) == Some(FilterMap(s, f)[k])
  {
    var rest := KeptIndices(s[1..], f, offset + 1);
    var tail := FilterMap(s[1..], f);
    if f(s[0]).Some? {
      assert KeptIndices(s, f, offset) == [offset] + rest;
      assert FilterMap(s, f) == [f(s[0]).value] + tail;
      if k > 0 {
        KeptIndexSound(s[1..], f, offset + 1, k - 1);
        assert s[rest[k - 1] - offset] == s[1..][rest[k - 1] - (offset + 1)];
      }
    } else {
      assert KeptIndices(s, f, offset) == rest;
      assert FilterMap(s, f) == tail;
      KeptIndexSound(s[1..], f, offset + 1, k);
      assert s[rest[k] - offset] == s[1..][rest[k] - (offset + 1)];
    }
  }

  /** Kept positions are bounded by the offset and increase strictly. */
  lemma {:induction false} KeptIndicesIncreasing<T, U>(s: seq<T>, f: T -> Option<U>, offset: nat)
    ensures forall k, l :: 0 <= k < l < |KeptIndices(s, f, offset)| ==>
      KeptIndices(s, f, offset)[k] < KeptIndices(s, f, offset)[l]
  {
    if s != [] {
      KeptIndicesIncreasing(s[1..], f, offset + 1);
      var rest := KeptIndices(s[1..], f, offset + 1);
      if f(s[0]).Some? {
        assert KeptIndices(s, f, offset) == [offset] + rest;
      } else {
        assert KeptIndices(s, f, offset) == rest;
      }
    }
  }

  /** Every position on which `f` succeeds is kept. */
  lemma {:induction false} KeptIndicesComplete<T, U>(s: seq<T>, f: T -> Option<U>, offset: nat)
    ensures forall i :: 0 <= i < |s| && f(s[i]).Some? ==> offset + i in KeptIndices(s, f, offset)
  {
    if s != [] {
      KeptIndicesComplete(s[1..], f, offset + 1);
      var rest := KeptIndices(s[1..], f, offset + 1);
      assert KeptIndices(s, f, offset) == if f(s[0]).Some? then [offset] + rest else rest;
      forall i | 0 <= i < |s| && f(s[i]).Some? ensures offset + i in KeptIndices(s, f, offset) {
        if i > 0 {
          assert s[1..][i - 1] == s[i];
          assert offset + 1 + (i - 1) in rest;
        }
      }
    }
  }

  /** A position on which `f` fails is not kept. */
  lemma KeptOnlyIfSome<T, U>(s: seq<T>, f: T -> Option<U>, offset: nat, i: int)
    requires 0 <= i < |s| && f(s[i]).None?
    ensures offset + i !in KeptIndices(s, f, offset)
  {
    var idx := KeptIndices(s, f, offset);
    if offset + i in idx {
      var k :| 0 <= k < |idx| && idx[k] == offset + i;
      KeptIndexSound(s, f, offset, k);
    }
  }

  /** Mapping with failure after a filter-and-map fails exactly when it
      fails on the image of some element on which the filter succeeds. */
  lemma {:induction false} MapAllAfterFilterMap<T, U, V>(s: seq<T>, f: T -> Option<U>, g: U -> Option<V>)
    ensures MapAll(FilterMap(s, f), g).None? <==>
      exists i :: 0 <= i < |s| && f(s[i]).Some? && g(f(s[i]).value).None?
  {
    if s != [] {
      MapAllAfterFilterMap(s[1..], f, g);
      var tail := FilterMap(s[1..], f);
      if f(s[0]).Some? {
        assert FilterMap(s, f) == [f(s[0]).value] + tail;
        assert ([f(s[0]).value] + tail)[1..] == tail;
      } else {
        assert FilterMap(s, f) == tail;
      }
      if exists i :: 0 <= i < |s| && f(s[i]).Some? && g(f(s[i]).value).None? {
        var i :| 0 <= i < |s| && f(s[i]).Some? && g(f(s[i]).value).None?;
        if i > 0 {
          assert s[1..][i - 1] == s[i];
        }
      }
      if exists i :: 0 <= i < |s[1..]| && f(s[1..][i]).Some? && g(f(s[1..][i]).value).None? {
        var i :| 0 <= i < |s[1..]| && f(s[1..][i]).Some? && g(f(s[1..][i]).value).None?;
        assert s[1..][i] == s[i + 1];
      }
    }
  }

  /** Filtering after a filter-and-map is one filter-and-map. */
  lemma {:induction false} FilterAfterFilterMap<T, U>(s: seq<T>, g: T -> Option<U>, p: U -> bool, h: T -> Option<U>)
    requires forall x :: h(x) == (if g(x).Some? && p(g(x).value) then g(x) else None)
    ensures Filter(FilterMap(s, g), p) == FilterMap(s, h)
  {
    if s != [] {
      FilterAfterFilterMap(s[1..], g, p, h);
      var tail := FilterMap(s[1..], g);
      if g(s[0]).Some? {
        var y := g(s[0]).value;
        assert FilterMap(s, g) == [y] + tail;
        assert Filter([y] + tail, p) == (if p(y) then [y] else []) + Filter(tail, p);
      } else {
        assert FilterMap(s, g) == tail;
      }
    }
  }

  // ---------------------------------------------------------------------
  // Counting
  // ---------------------------------------------------------------------

  /** Number of occurrences of `x` in `s`. */
  function Count<T(==)>(s: seq<T>, x: T): (n: nat)
    ensures n <= |s|
    ensures n > 0 <==> x in s
  {
    if s == [] then 0 else (if s[0] == x then 1 else 0) + Count(s[1..], x)
  }

  /** The distinct elements of `s`, each once, in order of first occurrence. */
  function Distinct<T(==)>(s: seq<T>): (d: seq<T>)
    ensures forall i :: 0 <= i < |d| ==> d[i] in s
    ensures forall i :: 0 <= i < |s| ==> s[i] in d
    ensures forall i, j :: 0 <= i < j < |d| ==> d[i] != d[j]
  {
    if s == [] then []
    else
      var d := Distinct(s[..|s| - 1]);
      assert s == s[..|s| - 1] + [s[|s| - 1]];
      if s[|s| - 1] in d then d else d + [s[|s| - 1]]
  }

  // ---------------------------------------------------------------------
  // Substrings
  // ---------------------------------------------------------------------

  /** `sub` occurs in `s` starting at position `i`. */
  predicate OccursAt(s: string, sub: string, i: int)
  {
    0 <= i && i + |sub| <= |s| && s[i..i + |sub|] == sub
  }

  /** Substring containment, as Python's `sub in s` on strings. */
  predicate Contains(s: string, sub: string)
  {
    exists i | 0 <= i <= |s| - |sub| :: OccursAt(s, sub, i)
  }

  /** A string cannot contain a phrase that has a character the string lacks. */
  lemma MissingCharNotContained(s: string, sub: string, c: char)
    requires c in sub && c !in s
    ensures !Contains(s, sub)
  {
  }

  /** A string does not contain a longer phrase. */
  lemma ShorterNotContained(s: string, sub: string)
    requires |s| < |sub|
    ensures !Contains(s, sub)
  {
  }

  /** A string contains every phrase it starts with. */
  lemma PrefixContained(s: string, sub: string)
    requires |sub| <= |s| && s[..|sub|] == sub
    ensures Contains(s, sub)
  {
    assert OccursAt(s, sub, 0);
  }
}

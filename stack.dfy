/** The `Stack` shim of src/kiddo.rs: one push/pop interface over a `Vec`, which pops its
  * last element, and a `BinaryHeap`, which pops an element of greatest key. Both are
  * sequences here; a heap's internal layout is not modelled, only which element leaves. */
module Stacks {
  import opened Floats

  datatype Discipline = Lifo | MaxFirst

  /** Keys that a heap can order: no NaN among them. */
  predicate Ordered<X>(s: seq<X>, key: X -> Float) {
    forall i :: 0 <= i < |s| ==> !key(s[i]).NaN?
  }

  /** The position of the first element whose key no other element exceeds. */
  function MaxIndex<X>(s: seq<X>, key: X -> Float): (m: nat)
    requires |s| > 0 && Ordered(s, key)
    ensures m < |s|
    ensures forall j :: 0 <= j < |s| ==> Le(key(s[j]), key(s[m]))
    decreases |s|
  {
    if |s| == 1 then 0
    else
      var m0 := MaxIndex(s[..|s| - 1], key);
      assert s[..|s| - 1][m0] == s[m0];
      LtIsStrictOrder(key(s[|s| - 1]), key(s[m0]), key(s[m0]));
      if Lt(key(s[m0]), key(s[|s| - 1])) then
        assert forall j :: 0 <= j < |s| - 1 ==> Le(key(s[j]), key(s[m0])) by {
          forall j | 0 <= j < |s| - 1 ensures Le(key(s[j]), key(s[m0])) {
            assert s[..|s| - 1][j] == s[j];
          }
        }
        forall j | 0 <= j < |s| ensures Le(key(s[j]), key(s[|s| - 1])) {
          LtIsStrictOrder(key(s[j]), key(s[m0]), key(s[|s| - 1]));
        }
        |s| - 1
      else
        forall j | 0 <= j < |s| - 1 ensures Le(key(s[j]), key(s[m0])) {
          assert s[..|s| - 1][j] == s[j];
        }
        m0
  }

  lemma OrderedTop<X>(s: seq<X>, key: X -> Float)
    requires Ordered(s, key)
    ensures |s| > 0 ==> !key(s[MaxIndex(s, key)]).NaN?
  {
  }

  function RemoveIndex<X>(s: seq<X>, i: nat): (r: seq<X>)
    requires i < |s|
    ensures |r| == |s| - 1
    ensures multiset(r) + multiset{s[i]} == multiset(s)
    ensures forall x :: x in r ==> x in s
  {
    assert s == s[..i] + [s[i]] + s[i + 1..];
    s[..i] + s[i + 1..]
  }

  /** `stack_push`: both containers gain the element. */
  function Push<X>(s: seq<X>, x: X): (r: seq<X>)
    ensures multiset(r) == multiset(s) + multiset{x}
    ensures |r| == |s| + 1 && r[|s|] == x && r[..|s|] == s
  {
    s + [x]
  }

  /** `stack_pop` of a non-empty container: a `Vec` gives back its last element, a
    * `BinaryHeap` one of greatest key; the rest stays. */
  function Pop<X>(s: seq<X>, d: Discipline, key: X -> Float): (r: (X, seq<X>))
    requires |s| > 0 && Ordered(s, key)
    ensures multiset(r.1) + multiset{r.0} == multiset(s)
    ensures |r.1| == |s| - 1 && r.0 in s
    ensures forall x :: x in r.1 ==> x in s
    ensures d == Lifo ==> r == (s[|s| - 1], s[..|s| - 1])
    ensures d == MaxFirst ==> forall j :: 0 <= j < |s| ==> Le(key(s[j]), key(r.0))
  {
    match d
    case Lifo =>
      assert s == s[..|s| - 1] + [s[|s| - 1]];
      (s[|s| - 1], s[..|s| - 1])
    case MaxFirst =>
      var m := MaxIndex(s, key);
      (s[m], RemoveIndex(s, m))
  }

  /** A push followed by a pop on a `Vec` gives back the pushed element; on a heap the
    * popped element outranks every remaining one. */
  lemma PushPopLifo<X>(s: seq<X>, x: X, key: X -> Float)
    requires Ordered(s + [x], key)
    ensures Pop(Push(s, x), Lifo, key) == (x, s)
  {
  }

  lemma PopMaxOutranksRest<X>(s: seq<X>, key: X -> Float)
    requires |s| > 0 && Ordered(s, key)
    ensures forall x :: x in Pop(s, MaxFirst, key).1 ==> Le(key(x), key(Pop(s, MaxFirst, key).0))
  {
    var r := Pop(s, MaxFirst, key);
    forall x | x in r.1
      ensures Le(key(x), key(r.0))
    {
      var j :| 0 <= j < |s| && s[j] == x;
    }
  }
}

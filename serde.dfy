/** src/custom_serde.rs: the encoding of fixed-length arrays. `arrays` writes an array
  * `[T; N]` as a tuple of its N elements and reads one back; `vec_arrays` writes a vector
  * of arrays flattened into one sequence of `len * N` elements and reads it back in
  * chunks of N. The serializer and the element source are small stateful objects here. */
module Serde {
  import opened Tree

  /** The error a visitor raises: `invalid_length(N)`. */
  datatype Decoded<X> = Decoded(value: X) | InvalidLength(expected: nat)

  /** The elements of a vector of arrays, array by array, each in index order. */
  function Flatten<T>(data: seq<seq<T>>): (s: seq<T>)
    decreases |data|
  {
    if |data| == 0 then [] else data[0] + Flatten(data[1..])
  }

  /** What `ArrayVisitor::visit_seq` reads from `items`: the first n elements, or
    * `invalid_length(n)` when fewer are left. */
  function ArrayDecode<T>(items: seq<T>, n: nat): (r: Decoded<seq<T>>)
    ensures r.Decoded? <==> n <= |items|
    ensures r.Decoded? ==> |r.value| == n && items == r.value + items[n..]
    ensures r.InvalidLength? ==> r.expected == n
  {
    if n <= |items| then Decoded(items[..n]) else InvalidLength(n)
  }

  /** Round trip of `arrays`: reading N elements back from what was written for an array
    * of length N gives the array, whatever follows it. */
  lemma ArrayRoundTrip<T>(data: seq<T>, tail: seq<T>)
    ensures ArrayDecode(data + tail, |data|) == Decoded(data)
  {
    assert (data + tail)[..|data|] == data;
  }

  /** What `VecArrayVisitor::visit_seq` reads from `items`: consecutive chunks of n; a
    * short last chunk is `invalid_length(n)`; with n = 0 any element ends in
    * `unreachable!()`. */
  function Chunks<T>(items: seq<T>, n: nat): Outcome<Decoded<seq<seq<T>>>>
    decreases |items|
  {
    if |items| == 0 then Returns(Decoded([]))
    else if n == 0 then Panics
    else if |items| < n then Returns(InvalidLength(n))
    else Prepend([items[..n]], Chunks(items[n..], n))
  }

  /** The chunks `acc` read before an outcome. */
  function Prepend<T>(acc: seq<seq<T>>, o: Outcome<Decoded<seq<seq<T>>>>): Outcome<Decoded<seq<seq<T>>>> {
    match o
    case Returns(Decoded(rest)) => Returns(Decoded(acc + rest))
    case _ => o
  }

  lemma PrependNothing<T>(o: Outcome<Decoded<seq<seq<T>>>>)
    ensures Prepend([], o) == o
  {
    if o.Returns? && o.value.Decoded? {
      assert [] + o.value.value == o.value.value;
    }
  }

  lemma PrependAssoc<T>(a: seq<seq<T>>, b: seq<seq<T>>, o: Outcome<Decoded<seq<seq<T>>>>)
    ensures Prepend(a, Prepend(b, o)) == Prepend(a + b, o)
  {
    if o.Returns? && o.value.Decoded? {
      assert a + (b + o.value.value) == (a + b) + o.value.value;
    }
  }

  lemma {:induction false} FlattenSnoc<T>(data: seq<seq<T>>, x: seq<T>)
    ensures Flatten(data + [x]) == Flatten(data) + x
    decreases |data|
  {
    if |data| == 0 {
      assert data + [x] == [x];
      assert Flatten([x]) == x + Flatten<T>([]);
    } else {
      assert (data + [x])[1..] == data[1..] + [x];
      FlattenSnoc(data[1..], x);
    }
  }

  /** Round trip of `vec_arrays`: chunking the flattened arrays gives them back. */
  lemma {:induction false} ChunksOfFlatten<T>(data: seq<seq<T>>, n: nat)
    requires n >= 1 && forall i :: 0 <= i < |data| ==> |data[i]| == n
    ensures Chunks(Flatten(data), n) == Returns(Decoded(data))
    decreases |data|
  {
    if |data| > 0 {
      var s := Flatten(data);
      assert s == data[0] + Flatten(data[1..]);
      assert s[..n] == data[0] && s[n..] == Flatten(data[1..]);
      ChunksOfFlatten(data[1..], n);
      assert [data[0]] + data[1..] == data;
    }
  }

  /** The other half of the round trip: whatever chunks are read flatten back to the
    * elements, each chunk holding n of them. */
  lemma {:induction false} FlattenOfChunks<T>(items: seq<T>, n: nat)
    requires Chunks(items, n).Returns? && Chunks(items, n).value.Decoded?
    ensures Flatten(Chunks(items, n).value.value) == items
    ensures forall c | c in Chunks(items, n).value.value :: |c| == n
    decreases |items|
  {
    if |items| > 0 {
      FlattenOfChunks(items[n..], n);
      var rest := Chunks(items[n..], n).value.value;
      assert Chunks(items, n).value.value == [items[..n]] + rest;
      assert ([items[..n]] + rest)[1..] == rest;
      assert items == items[..n] + items[n..];
    }
  }

  /** With n >= 1, reading fails exactly when the count is not a multiple of n, and an
    * empty sequence gives an empty vector. */
  lemma {:induction false} ChunksFailWhenRagged<T>(items: seq<T>, n: nat)
    requires n >= 1
    ensures Chunks(items, n).Returns?
    ensures Chunks(items, n).value.InvalidLength? <==> |items| % n != 0
    ensures Chunks(items, n).value.InvalidLength? ==> Chunks(items, n).value.expected == n
    ensures |items| == 0 ==> Chunks(items, n) == Returns(Decoded([]))
    decreases |items|
  {
    if |items| >= n {
      ChunksFailWhenRagged(items[n..], n);
      assert |items[n..]| == |items| - n;
      ModShift(|items|, n);
    }
  }

  lemma ModShift(m: nat, n: nat)
    requires n >= 1 && m >= n
    ensures (m - n) % n == m % n
  {
    var q, r := (m - n) / n, (m - n) % n;
    assert m - n == q * n + r;
    assert m == (q + 1) * n + r;
    ModUnique(m, n, q + 1, r);
  }

  lemma ModUnique(m: int, n: int, q: int, r: int)
    requires n >= 1 && 0 <= r < n && m == q * n + r
    ensures m % n == r
  {
    var q', r' := m / n, m % n;
    assert m == q' * n + r';
    assert (q - q') * n == r' - r;
    if q > q' {
      MulAtLeast(q - q', n);
    } else if q < q' {
      assert (q' - q) * n == r - r';
      MulAtLeast(q' - q, n);
    }
  }

  lemma {:induction false} MulAtLeast(a: nat, n: int)
    requires a >= 1 && n >= 1
    ensures a * n >= n
    decreases a
  {
    if a > 1 {
      MulAtLeast(a - 1, n);
      assert a * n == (a - 1) * n + n;
    }
  }

  /** With n = 0, reading panics exactly when there is an element to read. */
  lemma ChunksOfZero<T>(items: seq<T>)
    ensures Chunks(items, 0) == Panics <==> |items| > 0
    ensures |items| == 0 ==> Chunks(items, 0) == Returns(Decoded([]))
  {
  }

  /** A serializer as the functions here drive it: the length announced by
    * `serialize_tuple` / `serialize_seq`, the elements written, and whether `end` was
    * called. */
  class Sink<T> {
    var announced: Option<nat>
    var out: seq<T>
    var ended: bool

    constructor ()
      ensures announced == None && out == [] && !ended
    {
      announced, out, ended := None, [], false;
    }

    /** `serialize_tuple(len)` / `serialize_seq(Some(len))`. */
    method Announce(len: nat)
      modifies this
      ensures announced == Some(len) && out == old(out) && ended == old(ended)
    {
      announced := Some(len);
    }

    /** `serialize_element`. */
    method Element(x: T)
      modifies this
      ensures out == old(out) + [x] && announced == old(announced) && ended == old(ended)
    {
      out := out + [x];
    }

    /** `end`. */
    method End()
      modifies this
      ensures ended && out == old(out) && announced == old(announced)
    {
      ended := true;
    }
  }

  /** A `SeqAccess`: the elements still to be read, consumed from the front. */
  class Source<T> {
    var items: seq<T>

    constructor (s: seq<T>)
      ensures items == s
    {
      items := s;
    }

    /** `next_element`: the next element, or `None` at the end. */
    method NextElement() returns (r: Option<T>)
      modifies this
      ensures old(items) == [] ==> r == None && items == []
      ensures old(items) != [] ==> r == Some(old(items)[0]) && items == old(items)[1..]
    {
      if items == [] {
        r := None;
      } else {
        r := Some(items[0]);
        items := items[1..];
      }
    }
  }

  /** `arrays::serialize`: a tuple of N elements, in index order. */
  method SerializeArray<T>(data: seq<T>, s: Sink<T>)
    modifies s
    requires !s.ended
    ensures s.announced == Some(|data|) && s.out == old(s.out) + data && s.ended
  {
    s.Announce(|data|);
    ghost var start := s.out;
    for i := 0 to |data|
      invariant s.announced == Some(|data|) && s.out == start + data[..i] && !s.ended
    {
      s.Element(data[i]);
      assert data[..i + 1] == data[..i] + [data[i]];
    }
    s.End();
  }

  /** `ArrayVisitor::visit_seq`: read N elements; running out first is
    * `invalid_length(N)`. */
  method VisitArray<T>(n: nat, src: Source<T>) returns (r: Decoded<seq<T>>)
    modifies src
    ensures r == ArrayDecode(old(src.items), n)
    ensures r.Decoded? ==> src.items == old(src.items)[n..]
  {
    var data: seq<T> := [];
    ghost var all := src.items;
    for i := 0 to n
      invariant i <= |all| && data == all[..i] && src.items == all[i..]
    {
      var next := src.NextElement();
      if next.None? {
        return InvalidLength(n);
      }
      data := data + [next.value];
      assert all[..i + 1] == all[..i] + [all[i]];
    }
    r := Decoded(data);
  }

  /** `vec_arrays::serialize`: `len * N` elements announced, then every array in turn,
    * each in index order. */
  method SerializeVecArrays<T>(data: seq<seq<T>>, n: nat, s: Sink<T>)
    requires forall i :: 0 <= i < |data| ==> |data[i]| == n
    modifies s
    requires !s.ended
    ensures s.announced == Some(|data| * n) && s.out == old(s.out) + Flatten(data) && s.ended
  {
    s.Announce(|data| * n);
    ghost var start := s.out;
    for i := 0 to |data|
      invariant s.announced == Some(|data| * n) && s.out == start + Flatten(data[..i]) && !s.ended
    {
      var point := data[i];
      ghost var before := s.out;
      for j := 0 to |point|
        invariant s.announced == Some(|data| * n) && s.out == before + point[..j] && !s.ended
      {
        s.Element(point[j]);
        assert point[..j + 1] == point[..j] + [point[j]];
      }
      assert point[..|point|] == point;
      assert data[..i + 1] == data[..i] + [point];
      FlattenSnoc(data[..i], point);
      assert s.out == start + (Flatten(data[..i]) + point);
    }
    assert data[..|data|] == data;
    s.End();
  }

  /** The inner loop of `VecArrayVisitor::visit_seq`: `first` and the next N - 1 elements
    * (just `first` when N = 0), or `None` when the source runs out before. */
  method CompleteArray<T>(n: nat, first: T, src: Source<T>) returns (item: Option<seq<T>>)
    modifies src
    ensures var rest, m := [first] + old(src.items), if n == 0 then 1 else n;
      (m <= |rest| ==> item == Some(rest[..m]) && src.items == rest[m..]) &&
      (m > |rest| ==> item == None)
  {
    ghost var rest := [first] + src.items;
    var read := [first];
    var j := 1;
    while j < n
      invariant 1 <= j <= |rest| && (if n == 0 then j == 1 else j <= n) && read == rest[..j] && src.items == rest[j..]
      decreases n - j
    {
      var e := src.NextElement();
      if e.None? {
        return None;
      }
      read := read + [e.value];
      assert rest[..j + 1] == rest[..j] + [rest[j]];
      j := j + 1;
    }
    assert j == (if n == 0 then 1 else n);
    return Some(read);
  }

  /** `VecArrayVisitor::visit_seq`: a size hint, when the source gives one, is divided by
    * N to reserve room (a division by zero when N = 0); then, while an element is left,
    * it starts an array and the next N - 1 complete it; running out midway is
    * `invalid_length(N)`, and an array that does not have N elements (only when N = 0)
    * reaches `unreachable!()`. */
  method VisitVecArrays<T>(n: nat, sizeHint: Option<nat>, src: Source<T>) returns (r: Outcome<Decoded<seq<seq<T>>>>)
    modifies src
    ensures sizeHint.Some? && n == 0 ==> r == Panics
    ensures sizeHint.None? || n > 0 ==> r == Chunks(old(src.items), n)
  {
    if sizeHint.Some? && n == 0 {
      return Panics;
    }
    var result: seq<seq<T>> := [];
    ghost var all := src.items;
    var next := src.NextElement();
    assert all == (if next.Some? then [next.value] + src.items else []);
    PrependNothing(Chunks(all, n));
    while next.Some?
      invariant Prepend(result, Chunks(if next.Some? then [next.value] + src.items else [], n)) == Chunks(all, n)
      decreases |src.items|, next.Some?
    {
      ghost var rest := [next.value] + src.items;
      var read := CompleteArray(n, next.value, src);
      if read.None? {
        assert n > |rest| && Chunks(rest, n) == Returns(InvalidLength(n));
        return Returns(InvalidLength(n));
      }
      var item := read.value;
      if |item| != n {
        assert n == 0 && Chunks(rest, n) == Panics;
        return Panics;
      }
      assert Chunks(rest, n) == Prepend([item], Chunks(src.items, n));
      PrependAssoc(result, [item], Chunks(src.items, n));
      result := result + [item];
      ghost var left := src.items;
      next := src.NextElement();
      assert left == (if next.Some? then [next.value] + src.items else []);
    }
    assert result + [] == result;
    r := Returns(Decoded(result));
  }
}

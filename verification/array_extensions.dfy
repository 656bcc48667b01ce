/**
 * The resize helper: grows or shrinks an ordered collection to a target size
 * and reports which way it went together with the elements added or removed.
 * The original patches this onto every array; here it is a function on
 * sequences, with the generator passed in.
 */
module ArrayExtensions {
  import opened JsMath

  datatype ResizeOperation = Shrunk | Expanded | None

  /** The tagged delta: the elements appended (`Expanded`) or cut off (`Shrunk`). */
  datatype ResizeResult<T> = ResizeResult(operation: ResizeOperation, delta: seq<T>)

  /** The collection after the resize together with the reported result. */
  datatype Resized<T> = Resized(items: seq<T>, result: ResizeResult<T>)

  /** How far the size moves: `|size - length|`. */
  function Distance(a: nat, b: nat): nat {
    if a >= b then a - b else b - a
  }

  /**
   * `t` is `s` resized to `size`: the first `min(|s|, size)` elements are kept
   * in place and nothing else of `s` survives.
   */
  ghost predicate ResizedTo<T>(s: seq<T>, t: seq<T>, size: nat) {
    && |t| == size
    && (size <= |s| ==> t == s[..size])
    && (size > |s| ==> t[..|s|] == s)
  }

  /** `array.resize(size, generator)`. */
  function Resize<T>(s: seq<T>, size: nat, gen: nat -> T): (r: Resized<T>)
    ensures ResizedTo(s, r.items, size)
    ensures |r.result.delta| == Distance(size, |s|)
    ensures r.result.operation == None <==> size == |s|
    ensures r.result.operation == Expanded <==> size > |s|
    ensures r.result.operation == Shrunk <==> size < |s|
    ensures r.result.delta == [] <==> r.result.operation == None
    ensures r.result.operation == None ==> r.items == s
    ensures r.result.operation == Expanded ==>
      && r.result.delta == r.items[|s|..]
      && forall k :: 0 <= k < |r.result.delta| ==> r.result.delta[k] == gen(|s| + k)
    ensures r.result.operation == Shrunk ==> s == r.items + r.result.delta
  {
    var initialLength := |s|;
    if size == initialLength then
      Resized(s, ResizeResult(None, []))
    else if size > initialLength then
      var added := seq(size - initialLength, (k: nat) => gen(initialLength + k));
      assert (s + added)[initialLength..] == added;
      Resized(s + added, ResizeResult(Expanded, added))
    else
      assert s == s[..size] + s[size..];
      Resized(s[..size], ResizeResult(Shrunk, s[size..]))
  }

  /**
   * The resize as the original runs it: the generator is called once per new
   * index, in increasing order, and the indices it was called with are
   * returned in `calls`. Shrinking or keeping the size calls it never.
   */
  method ResizeInPlace<T>(s: seq<T>, size: nat, gen: nat -> T)
    returns (items: seq<T>, result: ResizeResult<T>, calls: seq<nat>)
    ensures Resized(items, result) == Resize(s, size, gen)
    ensures |calls| == (if size > |s| then size - |s| else 0)
    ensures forall k :: 0 <= k < |calls| ==> calls[k] == |s| + k
  {
    var initialLength := |s|;
    items := s;
    calls := [];
    if size == initialLength {
      result := ResizeResult(None, []);
    } else if size > initialLength {
      var i := initialLength;
      while i < size
        invariant initialLength <= i <= size
        invariant |items| == i
        invariant items[..initialLength] == s
        invariant forall k :: initialLength <= k < i ==> items[k] == gen(k)
        invariant |calls| == i - initialLength
        invariant forall k :: 0 <= k < |calls| ==> calls[k] == initialLength + k
      {
        calls := calls + [i];
        items := items + [gen(i)];
        i := i + 1;
      }
      result := ResizeResult(Expanded, items[initialLength..]);
      assert items == s + items[initialLength..];
    } else {
      result := ResizeResult(Shrunk, s[size..]);
      items := s[..size];
    }
  }

  /**
   * Any collection that keeps the surviving prefix is what `Resize` produces
   * for the generator that yields its new tail. Together with the `ResizedTo`
   * promise of `Resize` this characterises the resize completely.
   */
  lemma ResizedToIsResize<T>(s: seq<T>, t: seq<T>, size: nat, gen: nat -> T)
    requires ResizedTo(s, t, size)
    requires forall k :: |s| <= k < size ==> gen(k) == t[k]
    ensures Resize(s, size, gen).items == t
  {
    var r := Resize(s, size, gen).items;
    if size > |s| {
      assert |r| == |t|;
      forall k | 0 <= k < |r|
        ensures r[k] == t[k]
      {
        if k < |s| {
          assert r[k] == r[..|s|][k] && t[k] == t[..|s|][k];
        } else {
          assert r[k] == r[|s|..][k - |s|];
        }
      }
    }
  }

  /** Growing and then shrinking back to the original length restores the original. */
  lemma ExpandThenShrink<T>(s: seq<T>, size: nat, gen: nat -> T, gen': nat -> T)
    requires size >= |s|
    ensures Resize(Resize(s, size, gen).items, |s|, gen').items == s
  {
  }

  /**
   * Shrinking and then growing back with a generator that reproduces the
   * removed elements restores the original, and the delta of the growth is the
   * delta of the shrink.
   */
  lemma ShrinkThenRegrow<T>(s: seq<T>, size: nat, gen: nat -> T, gen': nat -> T)
    requires size <= |s|
    requires forall k :: size <= k < |s| ==> gen'(k) == s[k]
    ensures Resize(Resize(s, size, gen).items, |s|, gen').items == s
    ensures size < |s| ==>
      Resize(Resize(s, size, gen).items, |s|, gen').result.delta == Resize(s, size, gen).result.delta
  {
    var mid := Resize(s, size, gen).items;
    assert mid == s[..size];
    ResizedToIsResize(mid, s, |s|, gen');
  }

  /**
   * The length `resize` leaves when the requested size is a fraction: growing
   * pushes while the index is below the size, so it rounds up; shrinking
   * splices from the size truncated to an integer, so it rounds down.
   */
  function ResizedLength(len: nat, size: real): (r: nat)
    requires size >= 0.0
    ensures Floor(size) <= r <= Ceil(size)
    ensures r > len <==> size > len as real
    ensures r < len <==> size < len as real
  {
    if size == len as real then len
    else if size > len as real then Ceil(size)
    else Floor(size)
  }

  /** A whole size is met exactly, whatever the current length. */
  lemma WholeSizeIsExact(len: nat, n: nat)
    ensures ResizedLength(len, n as real) == n
  {
  }
}

/** `chyves::vec<T, N>`: a dynamic array that owns a buffer of exactly `size`
    elements and reallocates it on every structural change. The two C++
    exceptions become error results. */
module Chyves {
  import opened Elementwise

  /** `std::out_of_range` and `std::invalid_argument`. */
  datatype Error = OutOfRange | InvalidArgument

  /** The result of an operation that returns a value or throws. */
  datatype Result<R> = Ok(value: R) | Err(error: Error)

  /** The result of a `void` operation that may throw. */
  datatype Outcome = Done | Failed(error: Error)

  /** `std::copy(src, src + n, dst)` into a distinct buffer. */
  method Copy<T>(src: array<T>, dst: array<T>, n: nat)
    requires n <= src.Length && n <= dst.Length && src != dst
    modifies dst
    ensures dst[..n] == src[..n]
    ensures dst[n..] == old(dst[n..])
  {
    for i := 0 to n
      invariant forall k :: 0 <= k < i ==> dst[k] == src[k]
      invariant forall k :: n <= k < dst.Length ==> dst[k] == old(dst[k])
    {
      dst[i] := src[i];
    }
    assert dst[..n] == src[..n];
    assert dst[n..] == old(dst[n..]);
  }

  class Vec<T(0)> {
    /** The template parameter `N`: 0 means unbounded. */
    const N: nat
    var size: nat
    var data: array<T>

    /** Exactly `size` elements, no spare capacity. */
    ghost predicate Valid()
      reads this
    {
      data.Length == size
    }

    /** The elements, in order. */
    ghost function Contents(): seq<T>
      reads this, data
    {
      data[..]
    }

    /** `vec()`: empty, for a vector of fixed size `n` (0 for unbounded). */
    constructor Empty(n: nat)
      ensures Valid() && fresh(data)
      ensures N == n && Contents() == []
    {
      N := n;
      size := 0;
      data := new T[0];
    }

    /** `vec(std::initializer_list<T>)`: the only place `N` is checked. */
    static method FromList(n: nat, list: seq<T>) returns (r: Result<Vec<T>>)
      ensures r.Err? <==> n != 0 && |list| > n
      ensures r.Err? ==> r.error == InvalidArgument
      ensures r.Ok? ==> fresh(r.value) && fresh(r.value.data) && r.value.Valid()
      ensures r.Ok? ==> r.value.N == n && r.value.Contents() == list
    {
      if n != 0 && |list| > n {
        return Err(InvalidArgument);
      }
      var v := new Vec<T>.Empty(n);
      var buffer := new T[|list|];
      for i := 0 to |list|
        invariant forall k :: 0 <= k < i ==> buffer[k] == list[k]
      {
        buffer[i] := list[i];
      }
      v.data := buffer;
      v.size := |list|;
      assert v.Contents() == list;
      return Ok(v);
    }

    /** `get(index)`: the element, or `out_of_range`; never changes anything. */
    method Get(index: nat) returns (r: Result<T>)
      requires Valid()
      ensures index < |Contents()| ==> r == Ok(Contents()[index])
      ensures index >= |Contents()| ==> r == Err(OutOfRange)
    {
      if index < size {
        return Ok(data[index]);
      }
      return Err(OutOfRange);
    }

    /** `set(index, value)`: overwrites one element, or throws before writing. */
    method Set(index: nat, value: T) returns (r: Outcome)
      requires Valid()
      modifies data
      ensures Valid()
      ensures r == if index < old(size) then Done else Failed(OutOfRange)
      ensures index < old(size) ==> Contents() == old(Contents())[index := value]
      ensures index >= old(size) ==> Contents() == old(Contents())
    {
      if index >= size {
        return Failed(OutOfRange);
      }
      data[index] := value;
      return Done;
    }

    /** `getSize()`. */
    method GetSize() returns (n: nat)
      requires Valid()
      ensures n == |Contents()|
    {
      return size;
    }

    /** `remove(index)`: shifts the tail left in place, then shrinks the
        buffer to the new size. */
    method Remove(index: nat) returns (r: Outcome)
      requires Valid()
      modifies this, data
      ensures Valid()
      ensures r == if index < old(size) then Done else Failed(OutOfRange)
      ensures index < old(size) ==>
        fresh(data) && Contents() == old(Contents()[..index] + Contents()[index + 1..])
      ensures index >= old(size) ==> data == old(data) && Contents() == old(Contents())
    {
      if index >= size {
        return Failed(OutOfRange);
      }
      for i := index to size - 1
        invariant data == old(data) && size == old(size)
        invariant forall k :: 0 <= k < index ==> data[k] == old(data[k])
        invariant forall k :: index <= k < i ==> data[k] == old(data[k + 1])
        invariant forall k :: i <= k < size ==> data[k] == old(data[k])
      {
        data[i] := data[i + 1];
      }
      size := size - 1;
      var newData := new T[size];
      Copy(data, newData, size);
      ghost var was := old(data[..]);
      assert newData[..] == data[..size];
      assert data[..size] == was[..index] + was[index + 1..];
      data := newData;
      return Done;
    }

    /** `clear()`: releases the buffer. */
    method Clear()
      requires Valid()
      modifies this
      ensures Valid() && fresh(data)
      ensures Contents() == []
    {
      size := 0;
      data := new T[0];
    }

    /** `push_back(value)`: copies into a buffer one longer. `N` is not
        consulted, so a fixed-size vector can grow past it. */
    method PushBack(value: T)
      requires Valid()
      modifies this
      ensures Valid() && fresh(data)
      ensures Contents() == old(Contents()) + [value]
    {
      var newData := new T[size + 1];
      Copy(data, newData, size);
      newData[size] := value;
      size := size + 1;
      data := newData;
    }

    /** `pop_back()`: drops the last element; on an empty vector, nothing. */
    method PopBack()
      requires Valid()
      modifies this
      ensures Valid()
      ensures old(size) == 0 ==> data == old(data) && Contents() == old(Contents())
      ensures old(size) > 0 ==> fresh(data) && Contents() == old(Contents()[..size - 1])
    {
      if size > 0 {
        size := size - 1;
        var newData := new T[size];
        Copy(data, newData, size);
        data := newData;
      }
    }
  }

  /** `operator+`: `invalid_argument` when the sizes differ, otherwise a fresh
      unbounded vector of the pairwise sums; neither operand changes. */
  method Add(a: Vec<int>, b: Vec<int>) returns (r: Result<Vec<int>>)
    requires a.Valid() && b.Valid()
    ensures r.Err? <==> |a.Contents()| != |b.Contents()|
    ensures r.Err? ==> r.error == InvalidArgument
    ensures r.Ok? ==> fresh(r.value) && fresh(r.value.data) && r.value.Valid() && r.value.N == 0
    ensures r.Ok? ==> r.value.Contents() == Sum(a.Contents(), b.Contents())
  {
    if a.size != b.size {
      return Err(InvalidArgument);
    }
    var result := new Vec<int>.Empty(0);
    for i := 0 to a.size
      invariant fresh(result) && fresh(result.data) && result.Valid() && result.N == 0
      invariant result.Contents() == Sum(a.Contents()[..i], b.Contents()[..i])
    {
      result.PushBack(a.data[i] + b.data[i]);
      assert a.Contents()[..i + 1][..i] == a.Contents()[..i];
      assert b.Contents()[..i + 1][..i] == b.Contents()[..i];
    }
    assert a.Contents()[..a.size] == a.Contents();
    assert b.Contents()[..a.size] == b.Contents();
    return Ok(result);
  }

  /** `operator-`: as `operator+`, with pairwise differences. */
  method Subtract(a: Vec<int>, b: Vec<int>) returns (r: Result<Vec<int>>)
    requires a.Valid() && b.Valid()
    ensures r.Err? <==> |a.Contents()| != |b.Contents()|
    ensures r.Err? ==> r.error == InvalidArgument
    ensures r.Ok? ==> fresh(r.value) && fresh(r.value.data) && r.value.Valid() && r.value.N == 0
    ensures r.Ok? ==> r.value.Contents() == Difference(a.Contents(), b.Contents())
  {
    if a.size != b.size {
      return Err(InvalidArgument);
    }
    var result := new Vec<int>.Empty(0);
    for i := 0 to a.size
      invariant fresh(result) && fresh(result.data) && result.Valid() && result.N == 0
      invariant result.Contents() == Difference(a.Contents()[..i], b.Contents()[..i])
    {
      result.PushBack(a.data[i] - b.data[i]);
      assert a.Contents()[..i + 1][..i] == a.Contents()[..i];
      assert b.Contents()[..i + 1][..i] == b.Contents()[..i];
    }
    assert a.Contents()[..a.size] == a.Contents();
    assert b.Contents()[..a.size] == b.Contents();
    return Ok(result);
  }

  /** `operator*`: every element times `scalar`; cannot fail. */
  method Scale(a: Vec<int>, scalar: int) returns (r: Vec<int>)
    requires a.Valid()
    ensures fresh(r) && fresh(r.data) && r.Valid() && r.N == 0
    ensures r.Contents() == Scaled(a.Contents(), scalar)
  {
    r := new Vec<int>.Empty(0);
    for i := 0 to a.size
      invariant fresh(r) && fresh(r.data) && r.Valid() && r.N == 0
      invariant r.Contents() == Scaled(a.Contents()[..i], scalar)
    {
      r.PushBack(a.data[i] * scalar);
      assert a.Contents()[..i + 1][..i] == a.Contents()[..i];
    }
    assert a.Contents()[..a.size] == a.Contents();
  }

  /** `operator/`: `invalid_argument` when `scalar == 0`, otherwise every
      element divided by `scalar` as C++ divides an `int`. */
  method Divide(a: Vec<int>, scalar: int) returns (r: Result<Vec<int>>)
    requires a.Valid()
    ensures r.Err? <==> scalar == 0
    ensures r.Err? ==> r.error == InvalidArgument
    ensures r.Ok? ==> fresh(r.value) && fresh(r.value.data) && r.value.Valid() && r.value.N == 0
    ensures r.Ok? ==> r.value.Contents() == Quotient(a.Contents(), scalar)
  {
    if scalar == 0 {
      return Err(InvalidArgument);
    }
    var result := new Vec<int>.Empty(0);
    for i := 0 to a.size
      invariant fresh(result) && fresh(result.data) && result.Valid() && result.N == 0
      invariant result.Contents() == Quotient(a.Contents()[..i], scalar)
    {
      result.PushBack(TruncDiv(a.data[i], scalar));
      assert a.Contents()[..i + 1][..i] == a.Contents()[..i];
    }
    assert a.Contents()[..a.size] == a.Contents();
    return Ok(result);
  }
}

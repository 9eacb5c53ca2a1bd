/** Clients of `Vec` that exercise the documented behaviour end to end,
    using only the contracts of its methods. */
module Scenarios {
  import opened Elementwise
  import opened Chyves

  /** Build `{1, 2, 3}`, `push_back(4)`, `remove(0)`, `pop_back()`: the result
      is `{2, 3}`, with `getSize() == 2`, `get(0) == 2` and `get(1) == 3`. */
  method EndToEnd() returns (v: Vec<int>, n: nat, first: Result<int>, second: Result<int>, third: Result<int>)
    ensures v.Valid() && v.Contents() == [2, 3]
    ensures n == 2 && first == Ok(2) && second == Ok(3) && third == Err(OutOfRange)
  {
    var made := Vec<int>.FromList(0, [1, 2, 3]);
    v := made.value;
    v.PushBack(4);
    assert v.Contents() == [1, 2, 3, 4];
    var removed := v.Remove(0);
    assert removed == Done && v.Contents() == [2, 3, 4];
    v.PopBack();
    n := v.GetSize();
    first := v.Get(0);
    second := v.Get(1);
    third := v.Get(2);
  }

  /** `N` bounds only the initializer list: `vec<int, 2>{1, 2, 3}` throws,
      `vec<int, 2>{1, 2}` does not, and `push_back` then takes it to three
      elements. */
  method GrowthIgnoresFixedSize() returns (v: Vec<int>)
    ensures v.Valid() && v.N == 2 && v.Contents() == [1, 2, 3]
  {
    var tooLong := Vec<int>.FromList(2, [1, 2, 3]);
    assert tooLong == Err(InvalidArgument);
    var fits := Vec<int>.FromList(2, [1, 2]);
    v := fits.value;
    v.PushBack(3);
  }

  /** After `clear()`, every `get`, `set` and `remove` throws `out_of_range`. */
  method ClearThenAccess<T(0)>(v: Vec<T>, index: nat, value: T)
    returns (got: Result<T>, wrote: Outcome, removed: Outcome)
    requires v.Valid()
    modifies v
    ensures v.Valid() && v.Contents() == []
    ensures got == Err(OutOfRange) && wrote == Failed(OutOfRange) && removed == Failed(OutOfRange)
  {
    v.Clear();
    got := v.Get(index);
    wrote := v.Set(index, value);
    removed := v.Remove(index);
  }

  /** `get(i)` after `set(i, value)` returns `value` when `i` is in range;
      otherwise both throw `out_of_range`. */
  method SetThenGet<T(0)>(v: Vec<T>, index: nat, value: T) returns (got: Result<T>)
    requires v.Valid()
    modifies v.data
    ensures v.Valid()
    ensures index < |old(v.Contents())| ==> got == Ok(value)
    ensures index >= |old(v.Contents())| ==> got == Err(OutOfRange) && v.Contents() == old(v.Contents())
  {
    var _ := v.Set(index, value);
    got := v.Get(index);
  }

  /** `(a * k) / k` recovers `a` for every nonzero `k`, and the division
      throws for `k == 0`. */
  method ScaleThenDivide(a: Vec<int>, k: int) returns (r: Result<Vec<int>>)
    requires a.Valid()
    ensures k == 0 <==> r == Err(InvalidArgument)
    ensures k != 0 ==> r.Ok? && r.value.Contents() == a.Contents()
  {
    var scaled := Scale(a, k);
    r := Divide(scaled, k);
    if k != 0 {
      QuotientOfScaled(a.Contents(), k);
    }
  }

  /** `(a + b) - b` recovers `a`; mismatched sizes throw `invalid_argument`. */
  method AddThenSubtract(a: Vec<int>, b: Vec<int>) returns (r: Result<Vec<int>>)
    requires a.Valid() && b.Valid()
    ensures r.Err? <==> |a.Contents()| != |b.Contents()|
    ensures r.Err? ==> r.error == InvalidArgument
    ensures r.Ok? ==> r.value.Contents() == a.Contents()
  {
    var sum := Add(a, b);
    if sum.Err? {
      return sum;
    }
    r := Subtract(sum.value, b);
    DifferenceOfSum(a.Contents(), b.Contents());
  }
}

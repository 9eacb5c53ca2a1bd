# chyves::vec in Dafny

A model of `chyves::vec<T, N>` (`src/vec.h`). This is a dynamic array that owns a heap buffer of exactly `size` elements, with no spare capacity. Every structural change (`remove`, `push_back`, `pop_back`, `clear`) replaces that buffer with one of the new exact length. Indexed access is bounds-checked and throws `std::out_of_range`. The element-wise operators `+`, `-`, `*` and `/` build a fresh unbounded `vec<T>` by `push_back`. They throw `std::invalid_argument` on mismatched sizes or a zero divisor. The template parameter `N` (0 = unbounded) is checked only by the initializer-list constructor. `push_back` never looks at it, and the model keeps that gap.

Layout:

- `elementwise.dfy`, module `Elementwise`: C++ `int` division, which truncates toward zero. `TruncDiv` is characterised by the C++ rule that `a == (a / b) * b + a % b`, where the remainder is smaller than `b` in magnitude and has the sign of `a`; the lemma `TruncatedQuotientUnique` shows that this rule fixes the quotient. The module also holds `Sum`, `Difference`, `Scaled` and `Quotient`, the sequences the four operators compute. Each is defined the way the operator builds its result, by appending at the end, and each states its element-wise meaning. Round-trip lemmas relate them.
- `vec.dfy`, module `Chyves`:
  - the class `Vec<T>` with the fields `size` and `data` (an `array<T>`) and the constant `N`;
  - `Valid()`: `data.Length == size`;
  - a ghost view `Contents()`;
  - one method per member function;
  - the four operators as methods over `Vec<int>`.

  `remove` shifts elements left in place in `data` and then copies into a new buffer, as the C++ does. `std::copy` is the helper method `Copy`. Exceptions are results: `Result<R>` (`Ok` / `Err`) for `get` and the operators, `Outcome` (`Done` / `Failed`) for `void` members, and `Error = OutOfRange | InvalidArgument`.
- `scenarios.dfy`, module `Scenarios`: clients that use only the method contracts. They cover:
  - the end-to-end sequence `{1,2,3}` → `push_back(4)` → `remove(0)` → `pop_back()`;
  - growth past `N`;
  - access after `clear()`;
  - `get` after `set`;
  - the arithmetic round trips.

A null `data` pointer (after `vec()` or `clear()`) is modelled as a fresh empty array. The check `if (data)` in `push_back` therefore disappears: copying zero elements does nothing.

## Model

| member | source | states |
|---|---|---|
| `Elementwise.TruncDiv` | src/vec.h:163 | `a / b` on `int` leaves a remainder `a - q*b` smaller than `b` in magnitude and of the sign of `a` (or zero), i.e. rounds toward zero |
| `Elementwise.TruncatedQuotientUnique` | src/vec.h:163 | that remainder condition determines the quotient: any `q` meeting it equals `TruncDiv(a, b)` |
| `Elementwise.Sum` | src/vec.h:126-127 | the result has the operands' length and element `i` is `a[i] + b[i]` |
| `Elementwise.Difference` | src/vec.h:139-140 | the result has the operands' length and element `i` is `a[i] - b[i]` |
| `Elementwise.Scaled` | src/vec.h:149-150 | the result has the operand's length and element `i` is `a[i] * k` |
| `Elementwise.Quotient` | src/vec.h:162-163 | the result has the operand's length and element `i` is the truncating quotient of `a[i]` by `k` |
| `Elementwise.TruncDivOfMultiple` | src/vec.h:163 | `(x * k) / k == x` for nonzero `k` |
| `Elementwise.TruncDivExact` | src/vec.h:163 | `(x / k) * k == x` when `k` divides `x` |
| `Elementwise.DifferenceOfSum` | src/vec.h:119-143 | `(a + b) - b == a` element-wise |
| `Elementwise.SumOfDifference` | src/vec.h:119-143 | `(a - b) + b == a` element-wise |
| `Elementwise.QuotientOfScaled` | src/vec.h:145-166 | dividing a scaled sequence by the same nonzero scalar restores it |
| `Elementwise.ScaledOfQuotient` | src/vec.h:145-166 | scaling a quotient back restores the sequence if and only if every element is a multiple of the scalar |
| `Chyves.Copy` | src/vec.h:74 | `std::copy(src, src + n, dst)` (also at src/vec.h:93 and 111): the first `n` elements of `dst` become those of `src` and the rest of `dst` is unchanged |
| `Chyves.Vec.Empty` | src/vec.h:19 | the default constructor gives a valid empty vector with the requested `N` |
| `Chyves.Vec.FromList` | src/vec.h:21-28 | fails with `InvalidArgument` exactly when `N != 0` and the list is longer than `N`; otherwise a fresh valid vector holding the list in order, with that `N` |
| `Chyves.Vec.Get` | src/vec.h:35-42 | element `index` when `index < size`, otherwise `OutOfRange` (including when empty); changes nothing |
| `Chyves.Vec.Set` | src/vec.h:44-52 | in range: only element `index` changes, to `value`; out of range: `OutOfRange` with contents unchanged |
| `Chyves.Vec.GetSize` | src/vec.h:54-57 | returns the number of elements |
| `Chyves.Vec.Remove` | src/vec.h:59-78 | out of range: `OutOfRange`, buffer and contents untouched; otherwise the new contents are `old[..index] + old[index+1..]` in a fresh buffer of the exact size |
| `Chyves.Vec.Clear` | src/vec.h:80-85 | an empty valid vector in a fresh (empty) buffer |
| `Chyves.Vec.PushBack` | src/vec.h:87-102 | contents become `old + [value]` in a fresh buffer one longer; no failure and no check of `N` |
| `Chyves.Vec.PopBack` | src/vec.h:104-116 | on an empty vector nothing changes (not even the buffer); otherwise contents become `old[..size-1]` in a fresh buffer |
| `Chyves.Add` | src/vec.h:119-130 | `InvalidArgument` exactly when sizes differ; otherwise an unbounded vector, fresh together with its buffer, equal to `Sum` of the operands; operands are not modified |
| `Chyves.Subtract` | src/vec.h:132-143 | `InvalidArgument` exactly when sizes differ; otherwise an unbounded vector, fresh together with its buffer, equal to `Difference` of the operands; operands are not modified |
| `Chyves.Scale` | src/vec.h:145-153 | always an unbounded vector, fresh together with its buffer, equal to `Scaled`; the operand is not modified |
| `Chyves.Divide` | src/vec.h:155-166 | `InvalidArgument` exactly when the scalar is 0; otherwise an unbounded vector, fresh together with its buffer, equal to `Quotient`; the operand is not modified |
| `Scenarios.EndToEnd` | src/vec.h:21-116 | `{1,2,3}`, `push_back(4)`, `remove(0)`, `pop_back()` leave `{2,3}`; the returned results of the following calls are `getSize() == 2`, `get(0) == 2`, `get(1) == 3` and `get(2)` out of range |
| `Scenarios.GrowthIgnoresFixedSize` | src/vec.h:21-102 | with `N == 2`, a three-element list is refused but `push_back` takes a two-element vector to three elements |
| `Scenarios.ClearThenAccess` | src/vec.h:35-85 | after `clear()`, `get`, `set` and `remove` at any index all fail with `OutOfRange` |
| `Scenarios.SetThenGet` | src/vec.h:35-52 | `get(i)` after `set(i, v)` returns `v` in range; otherwise both fail and nothing changes |
| `Scenarios.ScaleThenDivide` | src/vec.h:145-166 | `(a * k) / k` gives back the contents of `a` for `k != 0`, and fails with `InvalidArgument` exactly when `k == 0` |
| `Scenarios.AddThenSubtract` | src/vec.h:119-143 | `(a + b) - b` gives back the contents of `a`, and fails with `InvalidArgument` exactly when the sizes differ |

For `int`, `/` truncates, so `(v / s) * s == v` holds only when every element is a multiple of `s` (`Elementwise.ScaledOfQuotient`), while `(v * s) / s == v` always holds (`Elementwise.QuotientOfScaled`).

## Left out

- The destructor and the raw `new[]`/`delete[]` lifecycle (src/vec.h:30-33, 76, 82, 94, 113): each reallocation is a fresh Dafny array of the exact length, and memory is managed by Dafny.
- The leak when the initializer-list constructor throws after allocating (src/vec.h:21-25): `FromList` checks before it allocates, because the leaked buffer is not observable in the model.
- Copy semantics: there is no user-defined copy constructor, so the operators' by-value return relies on copy elision. Each operator result is modelled as a fresh object. Shallow copies and double frees are not modelled.
- The `operator+` / `operator-` parameter type `const vec<T>&` means `N == 0` at compile time. The model accepts any `Vec<int>` operand, because the restriction is a type-checking matter that does not change behaviour.
- `get` returns a `const T&`. The model returns a copy of the value and does not model that reference's lifetime. In the C++, the reference dangles once `remove`, `push_back`, `pop_back` or `clear` frees the buffer it points into.
- Chyves.Vec.PushBack: takes `value` by value, so it does not capture a use-after-free in the source. `push_back(const T& value)` reads `value` at src/vec.h:97, after `delete[] data` at src/vec.h:94. A call such as `v.push_back(v.get(i))` therefore reads freed memory. The model gives the intended result, `old + [v[i]]`.
- The typedef instantiations (src/vec.h:170-188): `float` is floating point, and `bool` and `const char*` arithmetic is meaningless or pointer arithmetic. The container operations are generic over `T`, and the arithmetic is modelled for `int` only.
- Chyves.Add: does not model 32-bit signed overflow of `int` (undefined behaviour in C++), because integers here are unbounded. The same holds for `Chyves.Subtract`, `Chyves.Scale` and `Chyves.Divide` (including `INT_MIN / -1`).
- `size_t` wrap-around of `size + 1` in `push_back` is not modelled, because the size can never reach 2^64.
- Exceptions thrown by allocation (`std::bad_alloc`) are not modelled.

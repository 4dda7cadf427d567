# generic-arrayvec, modelled in Dafny

generic-arrayvec lets arrayvec's inline vector and string types use a
`GenericArray<T, N>` as their backing storage, so that their capacity N is a
type-level number. It has two parts, both modelled here:

- **the index-width selector** (`src/plumbing.rs`): for a capacity N it forms
  the five comparisons `N < 1`, `N < 2`, `N < 256`, `N < 65536`, `N < 2^32`
  and maps the resulting tuple to the narrowest length/index representation:
  `()`, `bool`, `u8`, `u16`, `u32` or `usize`;
- **the storage adapter** `ArrayvecStorageRaw<T, N, I>` (`src/plumbing.rs`): a
  transparent wrapper around the buffer, tagged with a representation `I`,
  which implements arrayvec's `Array` trait only for tags that can hold N;
- **the conversions** of `src/lib.rs`: the `Capacity` bound, the
  `ArrayvecStorage<T, N>` alias (the adapter tagged with the selector's
  output), and the extension traits `GenericArrayVecExt` and
  `GenericArrayStringExt`.

Files:

- `plumbing.dfy`, module `Plumbing`: `IndexKind` (the six closed kinds, with
  their bit widths and maximum values), `Breakpoints`, the partial `PickIndex`
  (an `Option`, `None` on the 26 tuples that have no impl), `IndexForCapacity`,
  `Represent` (arrayvec's `Index::from`, which stores a length in a kind), `ArrayImpl`
  (the where-bounds of the six `Array` impls), `ArrayCapacity` (their
  `CAPACITY` constants) and the class `ArrayvecStorageRaw<T>` over an
  `array<T>` whose elements are changed in place through the mutable view.
- `lib.dfy`, modules `GenericArrayvec` (the `Capacity` bound, the
  `ArrayvecStorage` alias, and the vector as arrayvec lays it out: a buffer of
  N elements plus a stored length), `GenericArrayVecExt` and
  `GenericArrayStringExt`.

Modelling choices:

- The tag `I` of the adapter is a `const` field fixed at construction; in the
  source it exists only in the type.
- `usize` is 64 bits wide. The `N: ArrayLength<T>` bound becomes `FitsUsize(N)`.
- In `src/lib.rs` values are moved, not shared, so a `GenericArray<T, N>` there
  is a `seq<T>` of length N, and the vector and string are datatypes.
- arrayvec's `new()` starts from uninitialized storage; the model takes that
  storage as a parameter `uninit` whose contents the container never exposes.
- UTF-8 validation belongs to `core::str` and is a parameter `isUtf8`.
- A `&str` is its sequence of bytes.

## Model

| member | source | states |
|---|---|---|
| Plumbing.Breakpoints | src/plumbing.rs:198-204 | the tuple `(N < 1, N < 2, N < 256, N < 65536, N < 2^32)` of `IsLess` outputs; for every N it is monotone |
| Plumbing.PickIndex | src/plumbing.rs:168-196 | the six `PickIndex` impls as a partial map from tuples to kinds; it yields a kind exactly on the monotone tuples |
| Plumbing.PickIndexBreakpointsForCapacity | src/plumbing.rs:209-221 | whether the blanket impl applies to N, that is whether `PickIndex` is defined on N's breakpoints; it holds for every N |
| Plumbing.IndexForCapacity | src/plumbing.rs:206-207 | `IndexForCapacity<N>` is `PickIndex` applied to N's breakpoints; for every N a `usize` can express, the chosen kind holds N |
| Plumbing.PickIndexDomain | src/plumbing.rs:168-196 | `PickIndex` is defined on a tuple exactly when the tuple is monotone (each true comparison is followed only by true ones) |
| Plumbing.BreakpointsMonotone | src/plumbing.rs:198-204 | the five comparisons of any N form a monotone tuple |
| Plumbing.SelectorTotal | src/plumbing.rs:209-221 | every N has a `PickIndexBreakpointsForCapacity` impl, so `IndexForCapacity<N>` always exists |
| Plumbing.SelectorTable | src/plumbing.rs:168-207 | 0 selects `()`, 1 `bool`, 2..255 `u8`, 256..65535 `u16`, 65536..2^32-1 `u32`, 2^32 and above `usize`; each row in both directions |
| Plumbing.SelectorBoundaries | src/plumbing.rs:198-204 | the comparisons are strict: 255/256, 65535/65536 and 2^32-1/2^32 fall into different tiers |
| Plumbing.SelectorFits | src/plumbing.rs:155-207 | the selected kind's maximum value is at least N, so every length 0..=N is representable |
| Plumbing.SelectorNarrowest | src/plumbing.rs:168-204 | any kind that can hold N is at least as wide as the selected one |
| Plumbing.SelectorMonotone | src/plumbing.rs:198-207 | a larger capacity never selects a narrower kind |
| Plumbing.MaxValues | src/plumbing.rs:168-196 | the maximum values of `()`, `bool`, `u8`, `u16`, `u32`, `usize` are 0, 1, 255, 65535, 2^32-1, 2^64-1 |
| Plumbing.Represent | src/plumbing.rs:163-196 | arrayvec's `Index::from` (`()`, `ix != 0`, `ix as u8/u16/u32/usize`) into one of the kinds these lines supply never exceeds that kind's maximum |
| Plumbing.RepresentExact | src/plumbing.rs:163-196 | a length stored with arrayvec's `Index::from` in one of the kinds these lines supply comes back unchanged exactly when it is at most the kind's maximum |
| Plumbing.ArrayImpl | src/plumbing.rs:56-153 | the where-bounds of the six `Array` impls (`()` for N = 0, `bool` for N = 1, `u8`/`u16`/`u32` below 256/65536/2^32, `usize` always); a tag that has an impl for a `usize`-sized N can hold N |
| Plumbing.ArrayImplIffFits | src/plumbing.rs:56-153 | an `Array` impl exists for tag `k` and length N exactly when `k` can hold N (and, for `bool`, N is 1) |
| Plumbing.StorageImplementsArray | src/plumbing.rs:84-161 | the selector's output for N always satisfies the `IsTrue` bound of its `Array` impl |
| Plumbing.ArrayCapacity | src/plumbing.rs:56-153 | each impl's `CAPACITY` (0 for `()`, 1 for `bool`, N otherwise) equals N, whatever the contents |
| Plumbing.ArrayvecStorageRaw.constructor | src/plumbing.rs:19-45 | `new` / `From<GenericArray>` wraps exactly the given buffer with the given tag |
| Plumbing.ArrayvecStorageRaw.IntoInner | src/plumbing.rs:24-54 | `into_inner` / `From<ArrayvecStorageRaw>` returns the very buffer that was wrapped |
| Plumbing.IntoInnerOfNew | src/plumbing.rs:19-54 | wrapping then unwrapping gives back the same buffer |
| Plumbing.ArrayvecStorageRaw.AsSlice | src/plumbing.rs:61-63 | `as_slice` has exactly `CAPACITY` elements, the buffer's, in order |
| Plumbing.ArrayvecStorageRaw.AsMutSlice | src/plumbing.rs:65-67 | `as_mut_slice` is the wrapped buffer itself, of length `CAPACITY` |
| Plumbing.ArrayvecStorageRaw.WriteThroughMutSlice | src/plumbing.rs:97-99 | a write at `i` through the mutable view changes element `i` of the buffer and nothing else |
| GenericArrayvec.IsCapacity | src/lib.rs:135-155 | the `Capacity<T>` bound (`ArrayLength<T>` plus `PickIndexBreakpointsForCapacity`); it holds exactly for the N a `usize` can express |
| GenericArrayvec.EveryUsizeIsCapacity | src/lib.rs:135-155 | every N a `usize` can express meets the `Capacity` bound |
| GenericArrayvec.NewArrayvecStorage | src/lib.rs:131 | `ArrayvecStorage<T, N>` is the adapter tagged with `IndexForCapacity<N>`; it has an `Array` impl whose `CAPACITY` is N |
| GenericArrayvec.New | src/lib.rs:26-27 | a new vector has length 0, no items and capacity N |
| GenericArrayvec.LenFitsIndex | src/lib.rs:121-131 | a vector's length always fits the index kind selected for its capacity |
| GenericArrayVecExt.GenericFrom | src/lib.rs:189-194 | `generic_from(a)` is valid, with length and capacity both the length of `a`, and items `a` in order |
| GenericArrayVecExt.IntoGenericArray | src/lib.rs:196-214 | `Ok(buffer)` exactly when length equals capacity, the buffer being the items; otherwise `Err` of the vector unchanged |
| GenericArrayVecExt.IntoGenericArrayOfGenericFrom | src/lib.rs:189-214 | `into_generic_array(generic_from(a)) == Ok(a)` |
| GenericArrayVecExt.GenericFromOfIntoGenericArray | src/lib.rs:189-214 | a vector that converts to an array `a` is `generic_from(a)` |
| GenericArrayVecExt.IntoGenericArrayOfNew | src/lib.rs:196-214 | a new, empty vector converts to an array only when its capacity is 0 |
| GenericArrayVecExt.GenericFromExample | src/lib.rs:181-188 | `generic_from([2, 4, 6, 8])` has length and capacity 4 |
| GenericArrayVecExt.IntoGenericArrayExample | tests/functionality.rs:40-46 | `[0, 1, 2, 3, 4]` survives `generic_from` then `into_generic_array` |
| GenericArrayStringExt.GenericFrom | src/lib.rs:241-258 | for a UTF-8 `s`: errors, carrying the string, exactly when the string is longer than N; otherwise length that of `s`, capacity N, contents `s`, still UTF-8 |
| GenericArrayStringExt.GenericFromExample | src/lib.rs:247-255 | "hello" in a string of capacity 10 gives length 5 and capacity 10 |
| GenericArrayStringExt.GenericFromByteString | src/lib.rs:260-298 | panics exactly when the input does not have N bytes; otherwise errors exactly when the bytes are not UTF-8, and else gives length and capacity N and contents `b` |
| GenericArrayStringExt.GenericFromByteStringExample | src/lib.rs:271-277 | the byte string "hello" gives length 5 and capacity 5 |
| GenericArrayStringExt.ByteStringAgreesWithStr | src/lib.rs:256-298 | on N valid bytes, `generic_from_byte_string` and `generic_from` build the same string |

## Left out

- The `Copy`, `Clone` and `Debug` derives, `#[repr(transparent)]`, `PhantomData`
  and the soundness of the `unsafe impl`s: they have no behaviour to model.
- The sealed `private::Sealed` enum and the `_sealed` methods: their only role,
  closing the set of index kinds, is played by the closed `IndexKind` datatype.
- typenum arithmetic beyond the five comparisons (such as `Prod<N, U2>` in the
  crate's example): capacities are plain numbers.
- arrayvec's containers beyond what the conversions use (`push`, `extend`,
  `try_extend_from_slice`, indexing): arrayvec is a separate library.
- UTF-8 validation (`core::str::from_utf8`) is a parameter, and `Utf8Error`
  carries no position.
- The string type is the vector type over bytes, so its datatype carries no
  UTF-8 invariant; the two string constructors state instead that what they
  build is UTF-8.
- A panic is an `Outcome` value (`Panic`), not an unwinding; its message is
  not modelled.
- Capacities of 2^64 or more: `usize` is taken to be 64 bits wide.
- Borrowing rules of the slices returned by `as_slice` and `as_mut_slice`:
  `AsSlice` returns a snapshot of the elements, and the mutable view is the
  shared `array` reference.
- The uninitialized bytes of arrayvec's storage: the model fills them from a
  parameter and never reads them.

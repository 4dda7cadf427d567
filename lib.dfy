/**
 * The crate root of generic-arrayvec: the `Capacity` bound, the
 * `ArrayvecStorage` alias, and the vector and string types built on them.
 *
 * The containers themselves belong to arrayvec; only what this crate's
 * conversions rely on is modelled: an inline buffer `xs` of exactly N elements
 * (N is the capacity) and a stored length `len`, of which the first `len`
 * elements are live. Values move in and out of these conversions, so here a
 * `GenericArray<T, N>` is a `seq<T>` of length N.
 */
module GenericArrayvec {
  import opened Plumbing

  datatype Result<T, E> = Ok(value: T) | Err(error: E)

  newtype Byte = x: int | 0 <= x < 256

  /** arrayvec's `CapacityError<T>`: the element that did not fit. */
  datatype CapacityError<T> = CapacityError(element: T)

  /** A call that either panics or returns a value. */
  datatype Outcome<T> = Panic | Returns(value: T)

  /** `core::str::Utf8Error`; its position fields are not modelled. */
  datatype Utf8Error = Utf8Error

  /**
   * The `Capacity<T>` bound: N is an `ArrayLength<T>` (it fits in a `usize`)
   * and has a `PickIndexBreakpointsForCapacity` impl.
   */
  predicate IsCapacity(n: nat)
    ensures IsCapacity(n) <==> FitsUsize(n)
  {
    SelectorTotal(n);
    FitsUsize(n) && PickIndexBreakpointsForCapacity(n)
  }

  /** Every length a `usize` can express meets the `Capacity` bound. */
  lemma EveryUsizeIsCapacity(n: nat)
    requires FitsUsize(n)
    ensures IsCapacity(n)
  {
    SelectorTotal(n);
  }

  /**
   * `ArrayvecStorage<T, N>`: the raw adapter tagged with `IndexForCapacity<N>`.
   * The alias always has an `Array` impl, whose `CAPACITY` is N.
   */
  method NewArrayvecStorage<T>(arr: array<T>) returns (storage: ArrayvecStorageRaw<T>)
    requires IsCapacity(arr.Length)
    ensures storage.inner == arr && storage.index == IndexForCapacity(arr.Length)
    ensures storage.Valid() && storage.ImplementsArray()
    ensures ArrayCapacity(storage.index, arr.Length) == arr.Length
  {
    storage := new ArrayvecStorageRaw(arr, IndexForCapacity(arr.Length));
    StorageImplementsArray(arr.Length);
  }

  /**
   * `GenericArrayVec<T, N>` (arrayvec's `ArrayVec` over `ArrayvecStorage<T, N>`).
   * `GenericArrayString<N>` has the same shape over bytes.
   */
  datatype GenericArrayVec<T> = GenericArrayVec(xs: seq<T>, len: nat)
  {
    /** The capacity N, fixed by the buffer. */
    function Capacity(): nat {
      |xs|
    }

    /** The representation the length is stored in. */
    function Index(): IndexKind {
      IndexForCapacity(|xs|)
    }

    ghost predicate Valid() {
      IsCapacity(|xs|) && len <= |xs|
    }

    /** The live elements. */
    function Items(): (s: seq<T>)
      requires Valid()
      ensures |s| == len
    {
      xs[..len]
    }
  }

  type GenericArrayString = GenericArrayVec<Byte>

  /**
   * A new, empty container over storage `uninit` of N elements (arrayvec's
   * `new`); the storage is uninitialized and never read.
   */
  function New<T>(uninit: seq<T>): (v: GenericArrayVec<T>)
    requires IsCapacity(|uninit|)
    ensures v.Valid() && v.Capacity() == |uninit|
    ensures v.len == 0 && v.Items() == []
  {
    GenericArrayVec(uninit, Represent(IndexForCapacity(|uninit|), 0))
  }

  /** A valid container's length never exceeds what its index representation holds. */
  lemma LenFitsIndex<T>(v: GenericArrayVec<T>)
    requires v.Valid()
    ensures v.len <= v.Index().MaxValue()
  {
    SelectorFits(|v.xs|);
  }
}

/** The `GenericArrayVecExt` extension trait. */
module GenericArrayVecExt {
  import opened Plumbing
  import opened GenericArrayvec

  /**
   * `generic_from`: the array becomes the storage (`ArrayvecStorage::from`) and
   * the vector is created full (`ArrayVec::from`), its length set to the
   * storage's `CAPACITY` stored in the selected index representation.
   */
  function GenericFrom<T>(arr: seq<T>): (v: GenericArrayVec<T>)
    requires IsCapacity(|arr|)
    ensures v.Valid() && v.Capacity() == |arr|
    ensures v.len == |arr| && v.Items() == arr
  {
    var k := IndexForCapacity(|arr|);
    StorageImplementsArray(|arr|);
    SelectorFits(|arr|);
    RepresentExact(k, |arr|);
    GenericArrayVec(arr, Represent(k, ArrayCapacity(k, |arr|)))
  }

  /**
   * `into_generic_array`: the buffer when the vector is full, the vector itself
   * as the error otherwise.
   */
  function IntoGenericArray<T>(v: GenericArrayVec<T>): (r: Result<seq<T>, GenericArrayVec<T>>)
    requires v.Valid()
    ensures r.Ok? <==> v.len == v.Capacity()
    ensures r.Ok? ==> r.value == v.Items() && |r.value| == v.Capacity()
    ensures r.Err? ==> r.error == v
  {
    if v.len < v.Capacity() then Err(v) else Ok(v.xs)
  }

  /** Converting an array to a vector and back gives the array. */
  lemma IntoGenericArrayOfGenericFrom<T>(arr: seq<T>)
    requires IsCapacity(|arr|)
    ensures IntoGenericArray(GenericFrom(arr)) == Ok(arr)
  {
  }

  /** A vector that converts to an array is the vector `generic_from` builds from it. */
  lemma GenericFromOfIntoGenericArray<T>(v: GenericArrayVec<T>)
    requires v.Valid() && IntoGenericArray(v).Ok?
    ensures GenericFrom(IntoGenericArray(v).value) == v
  {
  }

  /** The documented example: `generic_from([2, 4, 6, 8])` has length and capacity 4. */
  lemma GenericFromExample()
    ensures GenericFrom([2, 4, 6, 8]).len == 4 && GenericFrom([2, 4, 6, 8]).Capacity() == 4
  {
    MaxValues();
    EveryUsizeIsCapacity(4);
  }

  /** The tested example: `[0, 1, 2, 3, 4]` survives `generic_from` then `into_generic_array`. */
  lemma IntoGenericArrayExample()
    ensures IntoGenericArray(GenericFrom([0, 1, 2, 3, 4])) == Ok([0, 1, 2, 3, 4])
  {
    MaxValues();
    EveryUsizeIsCapacity(5);
  }

  /** A new vector converts to an array only when its capacity is 0. */
  lemma IntoGenericArrayOfNew<T>(uninit: seq<T>)
    requires IsCapacity(|uninit|)
    ensures IntoGenericArray(New(uninit)).Ok? <==> |uninit| == 0
  {
  }
}

/** The `GenericArrayStringExt` extension trait. */
module GenericArrayStringExt {
  import opened Plumbing
  import opened GenericArrayvec

  /**
   * `generic_from`: a new string over `uninit` (N bytes) into which the `&str`
   * `s` (UTF-8 by its type) is copied; a string longer than N is refused with
   * the string as the error.
   */
  function GenericFrom(s: seq<Byte>, uninit: seq<Byte>, isUtf8: seq<Byte> -> bool): (r: Result<GenericArrayString, CapacityError<seq<Byte>>>)
    requires IsCapacity(|uninit|) && isUtf8(s)
    ensures r.Err? <==> |s| > |uninit|
    ensures r.Err? ==> r.error.element == s
    ensures r.Ok? ==> r.value.Valid() && r.value.Capacity() == |uninit|
    ensures r.Ok? ==> r.value.len == |s| && r.value.Items() == s && isUtf8(r.value.Items())
  {
    if |s| > |uninit| then
      Err(CapacityError(s))
    else
      var k := IndexForCapacity(|uninit|);
      SelectorFits(|uninit|);
      RepresentExact(k, |s|);
      Ok(GenericArrayVec(s + uninit[|s|..], Represent(k, |s|)))
  }

  /**
   * `generic_from_byte_string` at capacity N: the bytes are copied into a
   * fresh N-byte buffer (`GenericArray::clone_from_slice`, which panics unless
   * there are exactly N of them); when the buffer is UTF-8 (decided by
   * `isUtf8`) it becomes a full string, otherwise the result is a `Utf8Error`.
   */
  function GenericFromByteString(b: seq<Byte>, n: nat, isUtf8: seq<Byte> -> bool): (r: Outcome<Result<GenericArrayString, Utf8Error>>)
    requires IsCapacity(n)
    ensures r.Panic? <==> |b| != n
    ensures r.Returns? ==> (r.value.Err? <==> !isUtf8(b))
    ensures r.Returns? && r.value.Ok? ==> r.value.value.Valid() && r.value.value.Capacity() == n
    ensures r.Returns? && r.value.Ok? ==> r.value.value.len == n && r.value.value.Items() == b
    ensures r.Returns? && r.value.Ok? ==> isUtf8(r.value.value.Items())
  {
    if |b| != n then
      Panic
    else if !isUtf8(b) then
      Returns(Err(Utf8Error))
    else
      var k := IndexForCapacity(n);
      SelectorFits(n);
      RepresentExact(k, n);
      Returns(Ok(GenericArrayVec(b, Represent(k, n))))
  }

  /** The documented example: "hello" in a string of capacity 10 has length 5. */
  lemma GenericFromExample(isUtf8: seq<Byte> -> bool)
    requires isUtf8([104, 101, 108, 108, 111])
    ensures var r := GenericFrom([104, 101, 108, 108, 111], seq(10, _ => 0), isUtf8);
            r.Ok? && r.value.len == 5 && r.value.Capacity() == 10
  {
    MaxValues();
    EveryUsizeIsCapacity(10);
  }

  /** The documented example: the byte string "hello" gives length and capacity 5. */
  lemma GenericFromByteStringExample(isUtf8: seq<Byte> -> bool)
    requires isUtf8([104, 101, 108, 108, 111])
    ensures var r := GenericFromByteString([104, 101, 108, 108, 111], 5, isUtf8);
            r.Returns? && r.value.Ok? && r.value.value.len == 5 && r.value.value.Capacity() == 5
  {
    MaxValues();
    EveryUsizeIsCapacity(5);
  }

  /** On N valid UTF-8 bytes, both constructors build the same string. */
  lemma ByteStringAgreesWithStr(b: seq<Byte>, uninit: seq<Byte>, isUtf8: seq<Byte> -> bool)
    requires IsCapacity(|b|) && |uninit| == |b| && isUtf8(b)
    ensures GenericFromByteString(b, |b|, isUtf8).Returns? && GenericFrom(b, uninit, isUtf8).Ok?
    ensures GenericFromByteString(b, |b|, isUtf8).value.Ok?
    ensures GenericFromByteString(b, |b|, isUtf8).value.value == GenericFrom(b, uninit, isUtf8).value
  {
    assert b + uninit[|b|..] == b;
  }
}

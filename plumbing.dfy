/**
 * The plumbing of generic-arrayvec: choosing the narrowest index representation
 * for a capacity N, and the storage adapter that lets a fixed-length inline
 * buffer of N elements back an arrayvec container.
 */
module Plumbing {

  datatype Option<T> = None | Some(value: T)

  /** 2 to the power e. */
  function Pow2(e: nat): (p: nat)
    ensures p >= 1
  {
    if e == 0 then 1 else 2 * Pow2(e - 1)
  }

  /**
   * The six index representations an adapter may be tagged with: the `I` of
   * `ArrayvecStorageRaw<T, N, I>`. The datatype is closed, as the sealed traits
   * of the source close the set of kinds.
   */
  datatype IndexKind = Unit | Bool | U8 | U16 | U32 | USize
  {
    /** Width in bits; `usize` is taken to be 64 bits wide. */
    function Bits(): nat {
      match this
      case Unit => 0
      case Bool => 1
      case U8 => 8
      case U16 => 16
      case U32 => 32
      case USize => 64
    }

    /** The largest value the representation can hold. */
    function MaxValue(): nat {
      Pow2(Bits()) - 1
    }
  }

  /** A capacity the platform's `usize` can express (the `ArrayLength<T>` bound on N). */
  predicate FitsUsize(n: nat) {
    n <= USize.MaxValue()
  }

  /**
   * arrayvec's `Index::from`, which stores a length or index `x` in
   * representation `k`: `()` keeps nothing, `bool` keeps whether `x` is
   * non-zero, and `u8`, `u16`, `u32` and `usize` keep the low-order bits
   * (`x as u8` and so on). The kinds come from the `PickIndex` outputs.
   */
  function Represent(k: IndexKind, x: nat): (v: nat)
    ensures v <= k.MaxValue()
  {
    match k
    case Unit => 0
    case Bool => if x != 0 then 1 else 0
    case _ => x % Pow2(k.Bits())
  }

  lemma MaxValues()
    ensures Unit.MaxValue() == 0 && Bool.MaxValue() == 1
    ensures U8.MaxValue() == 255 && U16.MaxValue() == 65535
    ensures U32.MaxValue() == 4294967295
    ensures USize.MaxValue() == 18446744073709551615
  {
    Pow2Values();
  }

  /** Widths add as powers multiply. */
  lemma {:induction false} Pow2Add(a: nat, b: nat)
    ensures Pow2(a + b) == Pow2(a) * Pow2(b)
  {
    if a > 0 {
      Pow2Add(a - 1, b);
    }
  }

  lemma Pow2Values()
    ensures Pow2(0) == 1 && Pow2(1) == 2 && Pow2(8) == 256 && Pow2(16) == 65536
    ensures Pow2(32) == 4294967296 && Pow2(64) == 18446744073709551616
  {
    assert Pow2(8) == 256;
    Pow2Add(8, 8);
    Pow2Add(16, 16);
    Pow2Add(32, 32);
  }

  /** A length survives being stored in `k` exactly when it is at most `k`'s maximum. */
  lemma RepresentExact(k: IndexKind, x: nat)
    ensures Represent(k, x) == x <==> x <= k.MaxValue()
  {
    MaxValues();
  }

  // ---------------------------------------------------------------------------
  // Index-width selection
  // ---------------------------------------------------------------------------

  /** The comparisons `N < 1`, `N < 2`, `N < 256`, `N < 65536`, `N < 2^32`. */
  function Breakpoints(n: nat): (b: (bool, bool, bool, bool, bool))
    ensures Monotone(b)
  {
    (n < 1, n < 2, n < 256, n < 65536, n < 4294967296)
  }

  /** Once one comparison holds, every later one (against a larger bound) holds too. */
  predicate Monotone(b: (bool, bool, bool, bool, bool)) {
    (b.0 ==> b.1) && (b.1 ==> b.2) && (b.2 ==> b.3) && (b.3 ==> b.4)
  }

  /** The six `PickIndex` impls; every other tuple of truth values has none. */
  function PickIndex(b: (bool, bool, bool, bool, bool)): (r: Option<IndexKind>)
    ensures r.Some? <==> Monotone(b)
  {
    match b
    case (true, true, true, true, true) => Some(Unit)
    case (false, true, true, true, true) => Some(Bool)
    case (false, false, true, true, true) => Some(U8)
    case (false, false, false, true, true) => Some(U16)
    case (false, false, false, false, true) => Some(U32)
    case (false, false, false, false, false) => Some(USize)
    case _ => None
  }

  /** `PickIndex` is defined on exactly the monotone tuples. */
  lemma PickIndexDomain(b: (bool, bool, bool, bool, bool))
    ensures PickIndex(b).Some? <==> Monotone(b)
  {
  }

  /** The breakpoints of any capacity form a monotone tuple. */
  lemma BreakpointsMonotone(n: nat)
    ensures Monotone(Breakpoints(n))
  {
  }

  /** Whether N has a `PickIndexBreakpointsForCapacity` impl. */
  predicate PickIndexBreakpointsForCapacity(n: nat)
    ensures PickIndexBreakpointsForCapacity(n)
  {
    PickIndex(Breakpoints(n)).Some?
  }

  /** Every capacity has a `PickIndexBreakpointsForCapacity` impl. */
  lemma SelectorTotal(n: nat)
    ensures PickIndexBreakpointsForCapacity(n)
  {
    BreakpointsMonotone(n);
    PickIndexDomain(Breakpoints(n));
  }

  /** `IndexForCapacity<N>`: the breakpoints of N fed to `PickIndex`. */
  function IndexForCapacity(n: nat): (k: IndexKind)
    ensures FitsUsize(n) ==> n <= k.MaxValue()
  {
    SelectorTotal(n);
    MaxValues();
    PickIndex(Breakpoints(n)).value
  }

  /** The selection table, each row in both directions. */
  lemma SelectorTable(n: nat)
    ensures IndexForCapacity(n) == Unit <==> n == 0
    ensures IndexForCapacity(n) == Bool <==> n == 1
    ensures IndexForCapacity(n) == U8 <==> 2 <= n < 256
    ensures IndexForCapacity(n) == U16 <==> 256 <= n < 65536
    ensures IndexForCapacity(n) == U32 <==> 65536 <= n < 4294967296
    ensures IndexForCapacity(n) == USize <==> 4294967296 <= n
  {
  }

  /** Each tier's bound is exclusive. */
  lemma SelectorBoundaries()
    ensures IndexForCapacity(0) == Unit && IndexForCapacity(1) == Bool
    ensures IndexForCapacity(2) == U8 && IndexForCapacity(255) == U8
    ensures IndexForCapacity(256) == U16 && IndexForCapacity(65535) == U16
    ensures IndexForCapacity(65536) == U32 && IndexForCapacity(4294967295) == U32
    ensures IndexForCapacity(4294967296) == USize
  {
  }

  /** The selected representation holds every length 0..=N. */
  lemma SelectorFits(n: nat)
    requires FitsUsize(n)
    ensures n <= IndexForCapacity(n).MaxValue()
  {
    MaxValues();
  }

  /** No narrower representation could hold N. */
  lemma SelectorNarrowest(n: nat, k: IndexKind)
    requires n <= k.MaxValue()
    ensures IndexForCapacity(n).Bits() <= k.Bits()
  {
    MaxValues();
  }

  /** A larger capacity never selects a narrower representation. */
  lemma SelectorMonotone(m: nat, n: nat)
    requires m <= n
    ensures IndexForCapacity(m).Bits() <= IndexForCapacity(n).Bits()
  {
  }

  // ---------------------------------------------------------------------------
  // The storage adapter
  // ---------------------------------------------------------------------------

  /**
   * Whether `ArrayvecStorageRaw<T, N, k>` has an `Array` impl: the `()` impl is
   * for N = 0 only, the `bool` impl for N = 1 only, the `u8`, `u16` and `u32`
   * impls need N below 256, 65536 and 2^32, and the `usize` impl takes any N.
   */
  predicate ArrayImpl(k: IndexKind, n: nat)
    ensures ArrayImpl(k, n) && FitsUsize(n) ==> n <= k.MaxValue()
  {
    MaxValues();
    match k
    case Unit => n == 0
    case Bool => n == 1
    case U8 => n < 256
    case U16 => n < 65536
    case U32 => n < 4294967296
    case USize => true
  }

  /** An `Array` impl exists exactly for the tags that can hold N (`bool` only when N = 1). */
  lemma ArrayImplIffFits(k: IndexKind, n: nat)
    requires FitsUsize(n)
    ensures ArrayImpl(k, n) <==> n <= k.MaxValue() && (k == Bool ==> n == 1)
  {
    MaxValues();
  }

  /** The tag `IndexForCapacity<N>` always has an `Array` impl for N. */
  lemma StorageImplementsArray(n: nat)
    ensures ArrayImpl(IndexForCapacity(n), n)
  {
  }

  /** The `CAPACITY` constant of the `Array` impl for tag `k` and length N. */
  function ArrayCapacity(k: IndexKind, n: nat): (c: nat)
    requires ArrayImpl(k, n)
    ensures c == n
  {
    match k
    case Unit => 0
    case Bool => 1
    case _ => n
  }

  /**
   * `ArrayvecStorageRaw<T, N, I>`: a transparent wrapper around a buffer of N
   * elements, tagged with an index representation that never changes.
   */
  class ArrayvecStorageRaw<T> {
    /** The wrapped `GenericArray<T, N>`; N is its length. */
    const inner: array<T>
    /** The tag `I`, carried only at the type level in the source. */
    const index: IndexKind

    /** The `N: ArrayLength<T>` bound. */
    ghost predicate Valid() {
      FitsUsize(inner.Length)
    }

    /** Whether this instantiation has an `Array` impl. */
    predicate ImplementsArray() {
      ArrayImpl(index, inner.Length)
    }

    /** `new` and `From<GenericArray<T, N>>`: takes the buffer over, copying nothing. */
    constructor (arr: array<T>, index: IndexKind)
      requires FitsUsize(arr.Length)
      ensures Valid()
      ensures inner == arr && this.index == index
    {
      inner := arr;
      this.index := index;
    }

    /** `into_inner` and `From<ArrayvecStorageRaw<T, N, I>>`: gives back the very same buffer. */
    method IntoInner() returns (arr: array<T>)
      requires Valid()
      ensures arr == inner && FitsUsize(arr.Length)
    {
      arr := inner;
    }

    /** `as_slice`: the buffer's CAPACITY elements, in order. */
    function AsSlice(): (s: seq<T>)
      reads inner
      requires ImplementsArray()
      ensures |s| == ArrayCapacity(index, inner.Length)
      ensures forall i :: 0 <= i < |s| ==> s[i] == inner[i]
    {
      inner[..]
    }

    /** `as_mut_slice`: a mutable view that is the wrapped buffer itself. */
    method AsMutSlice() returns (s: array<T>)
      requires ImplementsArray()
      ensures s == inner && s.Length == ArrayCapacity(index, inner.Length)
    {
      s := inner;
    }

    /** A write through `as_mut_slice` changes one element of the wrapped buffer and nothing else. */
    method WriteThroughMutSlice(i: nat, x: T)
      requires Valid() && ImplementsArray() && i < ArrayCapacity(index, inner.Length)
      modifies inner
      ensures Valid() && ImplementsArray()
      ensures AsSlice() == old(AsSlice())[i := x]
    {
      var s := AsMutSlice();
      s[i] := x;
    }
  }

  /** Wrapping a buffer and unwrapping it again yields the same buffer, unchanged. */
  method IntoInnerOfNew<T>(arr: array<T>, index: IndexKind) returns (back: array<T>)
    requires FitsUsize(arr.Length)
    ensures back == arr
  {
    var storage := new ArrayvecStorageRaw(arr, index);
    back := storage.IntoInner();
  }
}

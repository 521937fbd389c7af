/**
 * The address arithmetic of `fiber::create`: where the `fiber_context`
 * control block is placed at the top of a freshly allocated stack, and how
 * many bytes of that stack remain for the fiber to run on.
 *
 * Addresses are natural numbers and address 0 is the null pointer. Sizes are
 * `std::size_t` values of a 64-bit platform, and the unsigned subtractions of
 * the source are written out modulo 2^64.
 */
module Placement {

  /** One more than the largest `std::size_t` value. */
  const SizeModulus: int := 0x1_0000_0000_0000_0000

  type SizeT = n: int | 0 <= n < SizeModulus

  /** The null pointer. */
  const Null: nat := 0

  /** The alignment `create` asks for the control block (a literal, not `alignof`). */
  const FuncAlignment: nat := 64

  /** Unsigned `std::size_t` subtraction `a - b`, which wraps around below zero. */
  function SizeSub(a: SizeT, b: nat): (r: SizeT)
    ensures b <= a ==> r == a - b
    ensures a < b <= a + SizeModulus ==> r == a - b + SizeModulus
  {
    (a - b) % SizeModulus
  }

  // ---------------------------------------------------------------------
  // std::align, clause [ptr.align] of the C++ standard
  // ---------------------------------------------------------------------

  /** `q` is an address, aligned to `alignment`, at which `size` bytes fit
      inside the buffer of `space` bytes that starts at `ptr`. */
  ghost predicate FitsAt(alignment: nat, size: nat, ptr: nat, space: nat, q: nat)
    requires alignment > 0
  {
    ptr <= q && q + size <= ptr + space && q % alignment == 0
  }

  /** The number of bytes from `ptr` up to the next multiple of `alignment`. */
  function Padding(alignment: nat, ptr: nat): (pad: nat)
    requires alignment > 0
    ensures pad < alignment
  {
    (alignment - ptr % alignment) % alignment
  }

  /** The outcome of `std::align(alignment, size, ptr, space)`: the pointer it
      returns and the new values of its in-out arguments `ptr` and `space`. */
  datatype AlignResult = AlignResult(ret: nat, ptr: nat, space: nat)

  /**
   * `std::align`: if `size` bytes aligned to `alignment` fit into the buffer
   * of `space` bytes at `ptr`, it moves `ptr` to the first such address,
   * takes the bytes skipped off `space`, and returns the new `ptr`;
   * otherwise it returns null and leaves `ptr` and `space` alone.
   */
  function Align(alignment: nat, size: nat, ptr: nat, space: nat): (r: AlignResult)
    requires alignment > 0
    ensures r.ret == Null || r.ret == r.ptr
    ensures r.ptr + r.space == ptr + space
    ensures ptr <= r.ptr && r.ptr < ptr + alignment
    ensures r.ptr != ptr ==> size <= r.space
  {
    var pad := Padding(alignment, ptr);
    if pad + size <= space then AlignResult(ptr + pad, ptr + pad, space - pad)
    else AlignResult(Null, ptr, space)
  }

  /** A positive multiple of a positive number is at least that number. */
  lemma {:induction false} MultipleAtLeast(a: int, d: int)
    requires a > 0 && d >= 1
    ensures a * d >= a
  {
    if d > 1 {
      MultipleAtLeast(a, d - 1);
      assert a * d == a * (d - 1) + a;
    }
  }

  /** `x % a` determined by any decomposition `x == a * q + m` with `0 <= m < a`. */
  lemma ModOfDecomposition(x: int, a: int, q: int, m: int)
    requires a > 0 && 0 <= m < a && x == a * q + m
    ensures x % a == m
  {
    var q', m' := x / a, x % a;
    assert a * (q' - q) == m - m' by {
      assert a * q' + m' == a * q + m;
      assert a * (q' - q) == a * q' - a * q;
    }
    if q' > q {
      MultipleAtLeast(a, q' - q);
    } else if q' < q {
      MultipleAtLeast(a, q - q');
    }
  }

  /** `Padding` reaches the next multiple of `alignment` and passes no earlier one. */
  lemma PaddingIsLeast(alignment: nat, ptr: nat)
    requires alignment > 0
    ensures (ptr + Padding(alignment, ptr)) % alignment == 0
    ensures forall q :: ptr <= q < ptr + Padding(alignment, ptr) ==> q % alignment != 0
  {
    var m := ptr % alignment;
    var k := ptr / alignment;
    var pad := Padding(alignment, ptr);
    if m == 0 {
      assert pad == 0;
    } else {
      assert pad == alignment - m;
      ModOfDecomposition(ptr + pad, alignment, k + 1, 0);
      forall q | ptr <= q < ptr + pad
        ensures q % alignment != 0
      {
        ModOfDecomposition(q, alignment, k, m + (q - ptr));
      }
    }
  }

  /**
   * `Align` agrees with clause [ptr.align]: it succeeds exactly when some
   * aligned address fits, and then it picks the lowest one and reduces
   * `space` by the bytes skipped; when it fails it changes nothing.
   */
  lemma AlignIsFirstFit(alignment: nat, size: nat, ptr: nat, space: nat)
    requires alignment > 0
    ensures var r := Align(alignment, size, ptr, space);
      (exists q :: FitsAt(alignment, size, ptr, space, q)) <==> r.ptr + size <= ptr + space && r.ptr % alignment == 0
    ensures var r := Align(alignment, size, ptr, space);
      forall q :: FitsAt(alignment, size, ptr, space, q) ==>
        && FitsAt(alignment, size, ptr, space, r.ptr) && r.ptr <= q
        && r.ret == r.ptr && r.space == space - (r.ptr - ptr)
    ensures var r := Align(alignment, size, ptr, space);
      (forall q :: !FitsAt(alignment, size, ptr, space, q)) ==> r == AlignResult(Null, ptr, space)
  {
    var r := Align(alignment, size, ptr, space);
    var pad := Padding(alignment, ptr);
    PaddingIsLeast(alignment, ptr);
    if pad + size <= space {
      assert FitsAt(alignment, size, ptr, space, ptr + pad);
    } else {
      forall q: nat
        ensures !FitsAt(alignment, size, ptr, space, q)
      {
        if ptr <= q < ptr + pad {
          assert q % alignment != 0;
        }
      }
    }
  }

  // ---------------------------------------------------------------------
  // fiber::create
  // ---------------------------------------------------------------------

  /** A `context::stack_context` as a stack allocator hands it out: the top of
      the stack `sp` (stacks grow down) and the stack's size in bytes. */
  datatype StackContext = StackContext(sp: nat, size: SizeT)

  /** The region `[sp - size, sp)` lies in the address space and starts at a
      non-null address, as every region an allocator returns does. */
  predicate IsAllocatedRegion(sctx: StackContext)
  {
    sctx.size < sctx.sp
  }

  /** What `create` passes on to `context::preallocated`: the address of the
      control block, which becomes the fiber's stack top, and the stack size
      left for the fiber below it. */
  datatype Preallocated = Preallocated(sp: nat, size: SizeT)

  /** The result of the placement: the pair above, or the failure of the
      `BOOST_ASSERT( nullptr != sp)` that follows `std::align`. */
  datatype Created = Placed(at: Preallocated) | AssertFailed

  /** Which branch of `create` the platform compiles: the aligned window when
      C++14 `constexpr` and `std::align` are available, the fallback otherwise. */
  datatype Platform = AlignedBranch | FallbackBranch

  /**
   * The aligned branch of `create`: reserve `funcSize + 64` bytes below the
   * stack top, align the start of that window up to a multiple of 64 with
   * `std::align`, assert that the result is not null, and charge everything
   * from the result up to the old stack top against the stack size.
   * The subtraction from `sctx.sp` must stay in the address space.
   */
  function CreateAligned(sctx: StackContext, funcSize: SizeT): (r: Created)
    requires funcSize + FuncAlignment <= sctx.sp
    ensures r.AssertFailed? <==> sctx.sp == funcSize + FuncAlignment
    ensures r.Placed? ==> r.at.sp % FuncAlignment == 0
    ensures r.Placed? ==> sctx.sp - funcSize - FuncAlignment <= r.at.sp && r.at.sp + funcSize < sctx.sp
    ensures r.Placed? ==> r.at.size == SizeSub(sctx.size, sctx.sp - r.at.sp)
  {
    var start := sctx.sp - funcSize - FuncAlignment;
    PaddingIsLeast(FuncAlignment, start);
    var a := Align(FuncAlignment, funcSize, start, funcSize + FuncAlignment);
    if a.ret == Null then AssertFailed
    else Placed(Preallocated(a.ret, SizeSub(sctx.size, sctx.sp - a.ret)))
  }

  /** `q` is a 64-aligned address of the window `create` reserves below the
      stack top at which the control block fits. */
  ghost predicate FitsInWindow(sctx: StackContext, funcSize: SizeT, q: nat)
    requires funcSize + FuncAlignment <= sctx.sp
  {
    FitsAt(FuncAlignment, funcSize, sctx.sp - funcSize - FuncAlignment, funcSize + FuncAlignment, q)
  }

  /** The reserved window always holds a 64-aligned address at which the
      control block fits, so `std::align` cannot fail there. */
  lemma WindowHoldsAFit(sctx: StackContext, funcSize: SizeT)
    requires funcSize + FuncAlignment <= sctx.sp
    ensures exists q :: FitsInWindow(sctx, funcSize, q)
  {
    var start := sctx.sp - funcSize - FuncAlignment;
    PaddingIsLeast(FuncAlignment, start);
    assert FitsInWindow(sctx, funcSize, start + Padding(FuncAlignment, start));
  }

  /** The control block sits at the lowest address of the reserved window
      that is a multiple of 64 and leaves room for `funcSize` bytes. */
  lemma PlacementIsFirstFit(sctx: StackContext, funcSize: SizeT)
    requires funcSize + FuncAlignment < sctx.sp
    ensures var r := CreateAligned(sctx, funcSize);
      && r.Placed?
      && FitsInWindow(sctx, funcSize, r.at.sp)
      && forall q :: FitsInWindow(sctx, funcSize, q) ==> r.at.sp <= q
  {
    var start := sctx.sp - funcSize - FuncAlignment;
    AlignIsFirstFit(FuncAlignment, funcSize, start, funcSize + FuncAlignment);
  }

  /** The assertion after `std::align` never fires once the reserved window
      starts above address 0, whatever the stack size. */
  lemma AlignedAssertHolds(sctx: StackContext, funcSize: SizeT)
    requires funcSize + FuncAlignment < sctx.sp
    ensures CreateAligned(sctx, funcSize).Placed?
  {
  }

  /** In particular it never fires for a non-null region an allocator
      returned that holds the reserved window. */
  lemma AllocatedRegionAssertHolds(sctx: StackContext, funcSize: SizeT)
    requires IsAllocatedRegion(sctx) && funcSize + FuncAlignment <= sctx.size
    ensures CreateAligned(sctx, funcSize).Placed?
  {
    AlignedAssertHolds(sctx, funcSize);
  }

  /**
   * In a region of at least `funcSize + 64` bytes the residual size does not
   * wrap around: it is the region size less the bytes from the control block
   * to the old stack top, it loses at least `funcSize` and at most
   * `funcSize + 64` bytes, and the remaining stack keeps the region's base.
   */
  lemma AlignedResidualExact(sctx: StackContext, funcSize: SizeT)
    requires funcSize + FuncAlignment <= sctx.size && funcSize + FuncAlignment < sctx.sp
    ensures var r := CreateAligned(sctx, funcSize);
      && r.Placed?
      && r.at.size == sctx.size - (sctx.sp - r.at.sp)
      && sctx.size - funcSize - FuncAlignment <= r.at.size < sctx.size - funcSize
      && r.at.sp - r.at.size == sctx.sp - sctx.size
  {
  }

  /** A region smaller than the control block makes the unsigned residual
      wrap around to a size larger than the whole region. */
  lemma AlignedResidualWrapsWhenUndersized(sctx: StackContext, funcSize: SizeT)
    requires funcSize + FuncAlignment < sctx.sp && funcSize + FuncAlignment < SizeModulus
    requires sctx.size < funcSize
    ensures var r := CreateAligned(sctx, funcSize);
      r.Placed? && r.at.size == sctx.size - (sctx.sp - r.at.sp) + SizeModulus && r.at.size > sctx.size
  {
  }

  /**
   * The fallback branch of `create`: reserve exactly `funcSize` bytes below
   * the stack top, with no alignment and no assertion.
   */
  function CreateFallback(sctx: StackContext, funcSize: SizeT): (r: Preallocated)
    requires funcSize <= sctx.sp
    ensures r.sp + funcSize == sctx.sp
    ensures funcSize <= sctx.size ==> r.size + funcSize == sctx.size && r.sp - r.size == sctx.sp - sctx.size
    ensures sctx.size < funcSize ==> r.size == sctx.size - funcSize + SizeModulus
  {
    Preallocated(sctx.sp - funcSize, SizeSub(sctx.size, funcSize))
  }

  /** The fallback branch gives up the alignment: a 4096-byte stack topped at
      address 8192 and a 100-byte control block put it at 8092, not a
      multiple of 64. */
  lemma FallbackIsNotAligned()
    ensures IsAllocatedRegion(StackContext(8192, 4096))
    ensures CreateFallback(StackContext(8192, 4096), 100).sp % FuncAlignment != 0
  {
  }

  /**
   * The placement of `create` on either platform. The control block always
   * lies within the top `funcSize + 64` bytes below the stack top; in a
   * region an allocator returned that holds at least `funcSize + 64` bytes,
   * the placement succeeds, lies inside the region, and the residual stack
   * plus the bytes charged for the control block make up the whole region.
   */
  function Create(platform: Platform, sctx: StackContext, funcSize: SizeT): (r: Created)
    requires funcSize + (if platform == AlignedBranch then FuncAlignment else 0) <= sctx.sp
    ensures r.Placed? ==> sctx.sp - funcSize - FuncAlignment <= r.at.sp && r.at.sp + funcSize <= sctx.sp
    ensures IsAllocatedRegion(sctx) && funcSize + FuncAlignment <= sctx.size ==>
      && r.Placed?
      && sctx.sp - sctx.size <= r.at.sp
      && r.at.size + (sctx.sp - r.at.sp) == sctx.size
  {
    match platform
    case AlignedBranch => CreateAligned(sctx, funcSize)
    case FallbackBranch => Placed(CreateFallback(sctx, funcSize))
  }
}

# Boost.Fiber `fiber` handle and control-block placement, in Dafny

This project models the core of `include/boost/fiber/fiber.hpp` from Boost.Fiber:

- **Placement** (`placement.dfy`, module `Placement`): the address arithmetic of
  `fiber::create`. A stack allocator hands out a `stack_context` (stack top `sp`
  and `size`; stacks grow down). `create` puts the `fiber_context` control block
  at the top of that stack and passes the remaining stack to
  `context::preallocated`. There are two branches:
  - When both C++14 `constexpr` and `std::align` are available (line 48 tests
    for the absence of either), it reserves a window of `sizeof(fiber_context) + 64`
    bytes below `sp` and aligns the window's start to 64 with `std::align`. It
    asserts that the result is not null and charges every byte from the result
    up to `sp` against the stack size.
  - Otherwise it reserves exactly `sizeof(fiber_context)` bytes.

  Addresses are natural numbers and address 0 is the null pointer.
  `sizeof(fiber_context)` is a parameter, `funcSize`. `std::size_t` values are
  below 2^64, and the unsigned subtractions of lines 50 and 62 wrap modulo 2^64
  (`SizeSub`). The `size_t` sum `func_size + func_alignment` of line 58 is
  assumed not to overflow, which holds for any real `sizeof(fiber_context)`. `std::align` is modelled after clause [ptr.align] of the C++
  standard (`Align`) and proved to pick the first aligned address that fits.
- **Handle** (`fiber.dfy`, module `Handle`): the move-only `fiber` class. Its
  one field `impl` is `Option<Ctx>`, where a `Ctx` is what the handle sees of a
  `fiber_context`: its identity (its non-null address) and its termination
  flag. The sentinel identity `id()` is `NoId` (0). Move construction, move
  assignment and `swap` all exchange `impl` between two handles, as the source
  does. `std::terminate()` is the `Terminate` status returned by the destructor
  (`Destroy`) and by move assignment.
- `wrappers.dfy` holds the `Option` datatype.

Two facts about `create` in `fiber.hpp` shape the model:

- `create` checks only `nullptr != sp` after `std::align` (line 60); it never
  checks the region's size. The residual at line 62 therefore wraps in
  `size_t` exactly when the region is smaller than the bytes from the control
  block up to the stack top, which is certainly the case when it is smaller
  than the control block itself (`AlignedResidualWrapsWhenUndersized`).
- `std::align` rounds the window's start up to the next multiple of 64.

## Model

| member | source | states |
|---|---|---|
| `Placement.SizeSub` | include/boost/fiber/fiber.hpp:62 | unsigned `size_t` subtraction: the exact difference when it is non-negative, the difference plus 2^64 when it is negative |
| `Placement.Align` | include/boost/fiber/fiber.hpp:58-59 | `std::align` returns null or the new `ptr`; the new `ptr` is at most `alignment - 1` bytes above the old one; `ptr + space` is unchanged; `size` bytes fit whenever it moved |
| `Placement.PaddingIsLeast` | include/boost/fiber/fiber.hpp:59 | the padding `std::align` skips reaches a multiple of the alignment and passes no earlier multiple |
| `Placement.AlignIsFirstFit` | include/boost/fiber/fiber.hpp:58-59 | `std::align` as in [ptr.align]: it succeeds iff some aligned address fits in the buffer, and then it moves `ptr` to the lowest such address, returns that address and reduces `space` by the bytes skipped; otherwise `ptr` and `space` are unchanged and it returns null |
| `Placement.CreateAligned` | include/boost/fiber/fiber.hpp:53-62 | the assertion `nullptr != sp` fails iff the window starts at address 0; otherwise the control block is 64-aligned, lies at or above `sp - funcSize - 64` and ends below `sp`, and the residual is `sctx.size - (sctx.sp - address)` in `size_t` arithmetic |
| `Placement.WindowHoldsAFit` | include/boost/fiber/fiber.hpp:56-59 | the reserved window of `funcSize + 64` bytes always holds a 64-aligned address at which the control block fits, so `std::align` cannot fail there |
| `Placement.PlacementIsFirstFit` | include/boost/fiber/fiber.hpp:53-59 | the control block is placed at the lowest 64-aligned address of the window at which it fits |
| `Placement.AlignedAssertHolds` | include/boost/fiber/fiber.hpp:56-60 | the assertion after `std::align` never fires once the window starts above address 0, whatever the stack size |
| `Placement.AllocatedRegionAssertHolds` | include/boost/fiber/fiber.hpp:56-60 | the assertion after `std::align` never fires for a non-null region of at least `funcSize + 64` bytes |
| `Placement.AlignedResidualExact` | include/boost/fiber/fiber.hpp:62 | for a region of at least `funcSize + 64` bytes the residual does not wrap: it equals `size - (sp - address)`, lies in `[size - funcSize - 64, size - funcSize)`, and the residual stack keeps the region's base |
| `Placement.AlignedResidualWrapsWhenUndersized` | include/boost/fiber/fiber.hpp:62 | for a region smaller than the control block the residual wraps to `size - (sp - address) + 2^64`, more than the region holds |
| `Placement.CreateFallback` | include/boost/fiber/fiber.hpp:48-51 | the control block occupies exactly the top `funcSize` bytes; the residual is `size - funcSize` and keeps the region's base when the region holds the block, and wraps otherwise |
| `Placement.FallbackIsNotAligned` | include/boost/fiber/fiber.hpp:48-51 | the fallback branch gives no 64-byte alignment (a concrete region where it does not) |
| `Placement.Create` | include/boost/fiber/fiber.hpp:46-63 | on either platform the control block lies within the top `funcSize + 64` bytes below `sp`; in a non-null region of at least `funcSize + 64` bytes placement succeeds, the block lies inside the region, and residual plus reserved bytes equal the region size |
| `Handle.Fiber.constructor` | include/boost/fiber/fiber.hpp:75-77 | a default handle is empty: not joinable, false, `!` true, identity `NoId` |
| `Handle.Fiber.Start` | include/boost/fiber/fiber.hpp:85-89 | a handle built around a created context holds it, is joinable and reports its identity |
| `Handle.Fiber.Move` | include/boost/fiber/fiber.hpp:100-103 | move construction: the new handle holds the source's former reference and identity; the source ends empty |
| `Handle.Fiber.Joinable` | include/boost/fiber/fiber.hpp:127-129 | `joinable()` holds iff the handle has an identity, whether or not the fiber has terminated |
| `Handle.Fiber.ToBool` | include/boost/fiber/fiber.hpp:115-117 | `operator bool` implies `joinable()` and holds iff the handle is joinable and its fiber has not terminated |
| `Handle.Fiber.Not` | include/boost/fiber/fiber.hpp:119-121 | `operator!` is the complement of `operator bool` |
| `Handle.Fiber.GetId` | include/boost/fiber/fiber.hpp:131-133 | `get_id()` is the context's identity when there is one, and is the sentinel iff the handle is empty |
| `Handle.Fiber.Swap` | include/boost/fiber/fiber.hpp:123-125 | `swap` exchanges the two references and changes nothing else |
| `Handle.Fiber.MoveAssign` | include/boost/fiber/fiber.hpp:105-113 | move assignment terminates iff the destination is joinable, before changing anything; otherwise the destination takes the source's reference and the source ends empty; self-assignment leaves the handle unchanged |
| `Handle.Fiber.Destroy` | include/boost/fiber/fiber.hpp:91-95 | the destructor terminates iff the handle is joinable, and returns normally iff the handle has no identity |
| `Handle.TerminatedButJoinable` | include/boost/fiber/fiber.hpp:115-129 | a terminated but unjoined fiber's handle is joinable, yet `operator bool` is false and `operator!` true |
| `Handle.Less` | include/boost/fiber/fiber.hpp:149-152 | `operator<` orders by identity: nothing is less than an empty handle, and an empty handle is less than every joinable one |
| `Handle.LessIsStrictOrder` | include/boost/fiber/fiber.hpp:149-152 | `operator<` is irreflexive, asymmetric and transitive, and relates any two handles of different identity |
| `Handle.SwapFibers` | include/boost/fiber/fiber.hpp:154-157 | the free `swap` exchanges the two references |
| `Handle.HandOff` | include/boost/fiber/fiber.hpp:91-103 | after a move construction the source can be destroyed and the destination carries the identity, but destroying the destination terminates |

## Left out

- `salloc.allocate()` and the placement `new fiber_context(...)` with `context::preallocated` (lines 47 and 65-69) are allocator and Boost.Context code outside this file. The model stops at the `(address, size)` pair passed to `preallocated`.
- `start_()`, `detach()`, `join()` and `interrupt()` (lines 43 and 135-139) are only declared in this file. Their definitions and the scheduler are not part of this model. `Start` therefore does not hand anything to a scheduler.
- `properties<T>()` (lines 141-146) relies on `dynamic_cast` over a foreign property type and is not modelled.
- The reference count of `intrusive_ptr` is not modelled; `impl` is an optional value. Copy construction and copy assignment are deleted in the source (lines 97-98); Dafny cannot forbid copying a reference, so the model simply offers no copy operation.
- The termination flag of a context is a snapshot inside `Ctx`. The scheduler sets it while the fiber runs, which is not modelled.
- Handle.Fiber.ToBool: reads the termination flag from the snapshot in `Ctx` rather than from the live `fiber_context`, for the reason above.
- Placement.Align: requires only a positive alignment, where the standard asks for a power of two; its properties hold for any positive alignment.
- Placement.CreateAligned: requires `sp >= funcSize + 64`, and Placement.CreateFallback requires `sp >= funcSize`, because the pointer subtractions at lines 51 and 56 are undefined in C++ below that. Addresses are unbounded naturals, so there is no wrap-around of the address space.
- `sizeof(fiber_context)` is a parameter and the alignment is the literal 64 of line 53, as in the source; no real memory layout or ABI is modelled.

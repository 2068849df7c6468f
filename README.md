# ByAddr: identity-keyed equality, ordering and hashing

`ByAddr<T>` wraps any dereferenceable value `T` (a reference, a box, a
reference-counted handle). It replaces the wrapped value's equality,
ordering and hashing with comparisons of the **address of the dereferenced
target**. So sets and maps of wrappers deduplicate and index by instance
identity, not by value.

This project models the wrapper in Dafny and proves what it promises:

- `primitives.dfy` (module `Primitives`): the host primitives. A machine
  address is a `nat`. A raw pointer is a base address plus metadata: none
  for a sized target, a length for a slice, a vtable address for a trait
  object. The module also defines the three-way `Ordering`, `Option`, the
  cast `as *const ()` (`Thin`), which drops the metadata, and the words that
  hashing a raw pointer writes into a hasher.
- `by_addr.dfy` (module `ByAddress`): the wrapper `ByAddr(inner: T)` with
  `From`, `addr` (`AddrOf`), the identity key (`Key`), `eq` (`Eq`),
  `partial_cmp` (`PartialCmp`), `cmp` (`Cmp`), `hash` as written
  (`HashAsWritten`) and as it agrees with `eq` (`Hash`), `deref` (`Deref`),
  assignment through `deref_mut` (`AssignThroughDerefMut`), `as_ref` and
  `as_mut`, plus the lemmas about them.
- `target_writes.dfy` (module `TargetWrites`): memory as a map from
  addresses to target values. It covers reading `**w`, writing `**w = v`
  through `deref_mut`, and writing through `as_mut`.
- `identity_set.dfy` (module `IdentitySet`): a hash set of wrappers used the
  way `HashSet<ByAddr<T>>` uses them. A lookup needs an equal hash and `eq`.
  An insertion adds only what a lookup does not find. The module proves the
  use the wrapper exists for: one element per distinct target address,
  whatever the targets hold.

`T`'s `Deref` implementation is a parameter `deref: T -> Pointer`. It is a
pure function from the wrapped value to the pointer `&*t`, so every result
holds for every dereferenceable type. A hasher is modelled by the words
written into it. Any deterministic hasher's digest is a function of those
words, so the set lemmas take the digest as an arbitrary function.

Two points of the code shape the model:

- Rust's `Hash` contract requires equal values to hash equally. Yet `hash`
  (src/lib.rs:76) hashes the full, possibly fat, pointer, while `eq` and
  `cmp` strip its metadata. For sized targets the two agree; for unsized
  ones they do not. See "## Findings".
- `Deref for ByAddr<T>` has `Target = T`: `deref` yields the wrapped value
  itself, not its target. So `*w = t` through `deref_mut` replaces the
  wrapped value and can change the wrapper's identity
  (`AssignThroughDerefMutIdentity`). Only a write to the target, `**w = v`,
  keeps the identity.

## Model

| member | source | states |
|---|---|---|
| `Primitives.CmpAddr` | src/lib.rs:67 | comparing thin pointers gives `Less`, `Equal` or `Greater` exactly as the addresses compare |
| `Primitives.CmpAddrIsTotalOrder` | src/lib.rs:67 | the address comparison is antisymmetric (swapping the arguments reverses it), total and transitive (for `<=` and for `<`) |
| `Primitives.HashPointer` | src/lib.rs:76 | hashing a raw pointer appends to the hasher's input the base address and then the metadata word: nothing more for a thin pointer, the length for a slice, the vtable address for a trait object |
| `Primitives.HashPointerInjective` | src/lib.rs:76 | for pointers of one type, hashing writes equal words exactly when the pointers (address and metadata) are equal |
| `ByAddress.From` | src/lib.rs:20-26 | wrapping is total, and `deref` of the result is exactly the value wrapped |
| `ByAddress.FromDerefRoundTrip` | src/lib.rs:24-26 | `From` and `deref` are mutually inverse: nothing is added or lost |
| `ByAddress.KeyIsTargetAddress` | src/lib.rs:33-35 | the identity key is the base address `&*self.0` refers to; a wrapper around the bare reference `&*t` has the same key as the wrapper around `t` |
| `ByAddress.AsRefAsMutForward` | src/lib.rs:100-116 | `as_ref` and `as_mut` return exactly what the wrapped value's own `as_ref` and `as_mut` return |
| `ByAddress.AssignThroughDerefMut` | src/lib.rs:95-97 | `deref_mut` hands out the wrapped value itself: after assigning `t` through it, `deref` yields `t` |
| `ByAddress.AssignThroughDerefMutIdentity` | src/lib.rs:95-97 | after `*w = t` the key is `t`'s target address, so the wrapper equals its old self exactly when `t` dereferences to the same address |
| `ByAddress.EqIffSameBaseAddress` | src/lib.rs:46-48 | two wrappers are equal exactly when their targets' base addresses are equal |
| `ByAddress.EqIgnoresMetadata` | src/lib.rs:47 | pointers with one base address and different metadata are different pointers, yet their wrappers are equal |
| `ByAddress.EqIsEquivalence` | src/lib.rs:46-51 | `eq` is reflexive, symmetric and transitive, as the `Eq` marker claims |
| `ByAddress.CmpConsistentWithEq` | src/lib.rs:66-68 | `cmp` returns `Equal` exactly when `eq` holds, and `Less`/`Greater` exactly when the left key is below/above the right |
| `ByAddress.CmpIsTotalOrder` | src/lib.rs:62-69 | `cmp` is antisymmetric (swapping reverses it; `<=` both ways implies `eq`), total, and transitive for `<=` and `<` |
| `ByAddress.PartialCmpIsCmp` | src/lib.rs:57-59 | `partial_cmp` is never `None`, its payload is `cmp`'s result, and it is `Some(Equal)` exactly when `eq` holds |
| `ByAddress.HashAsWrittenAgreesOnEqualMetadata` | src/lib.rs:75-77 | the source's hash depends only on the target pointer: equal wrappers whose pointers carry equal metadata (always, for sized targets) write equal words into any hasher state |
| `ByAddress.HashAsWrittenSplitsEqualWrappers` | src/lib.rs:75-77 | equal wrappers whose pointers differ only in same-kind metadata write different words under the source's hash |
| `ByAddress.SliceWrappersHashApart` | src/lib.rs:76 | concretely, wrappers of `&a[..3]` and `&a[..2]` at one address are `eq` but hash differently |
| `ByAddress.Hash` | src/lib.rs:76 | the thin-address hash appends exactly the identity key to the hasher's input |
| `ByAddress.HashAgreesWithEq` | src/lib.rs:75-77 | with the thin-address hash, two wrappers write equal words exactly when they are `eq`, for every target and hasher state |
| `ByAddress.HashMatchesAsWrittenForSizedTargets` | src/lib.rs:76 | for a sized target the thin-address hash writes what the source's hash writes |
| `TargetWrites.WriteTarget` | src/lib.rs:95-97 | `**w = v` stores `v` at the wrapper's key and leaves every other address and the set of live addresses unchanged |
| `TargetWrites.WriteAsMut` | src/lib.rs:113-115 | a write through `as_mut` stores the value at the place the wrapped value's `as_mut` denotes and changes nothing else |
| `TargetWrites.IdentityNotValue` | src/lib.rs:46-48 | equal wrappers over sized targets hold one pointer and see one target value; wrappers over equal values at distinct addresses are unequal |
| `TargetWrites.WriteVisibleToAliases` | src/lib.rs:95-97 | a write through one wrapper is seen by every holder of the same address (also of another wrapped type); holders of other addresses see no change |
| `TargetWrites.AsMutIntoTargetIsWriteTarget` | src/lib.rs:113-115 | when `as_mut` hands out the target itself, writing through it is the same write as `**w = v` |
| `IdentitySet.HashMeetsContract` | src/lib.rs:75-77 | the thin-address hash, fed to any hasher, gives equal digests for equal wrappers |
| `IdentitySet.AsWrittenHashMeetsContractForThin` | src/lib.rs:75-77 | when every target is sized, the source's own hash, fed to any hasher, gives equal digests for equal wrappers |
| `IdentitySet.ContainsIffKeyStored` | src/lib.rs:42-78 | with a hash that agrees with `eq`, a lookup succeeds exactly when the query's target address is among the stored ones |
| `IdentitySet.DistinctSize` | src/lib.rs:46-48 | a set with no two equal elements has exactly as many elements as distinct target addresses |
| `IdentitySet.InsertKeepsDistinct` | src/lib.rs:42-78 | an insertion keeps the set free of equal elements and adds exactly the inserted wrapper's address |
| `IdentitySet.CollectKeepsOnePerAddress` | src/lib.rs:42-78 | inserting any sequence of wrappers gives one element per distinct target address, and its addresses are exactly the inserted ones |
| `IdentitySet.ThreeCellsHoldingFive` | src/lib.rs:46-48 | three live cells whose targets, read through their `&i32` wrappers, each hold 5 give, under the source's own hash, a set of three wrappers, and a new reference to the first cell is found in it |
| `IdentitySet.AsWrittenHashBreaksSet` | src/lib.rs:76 | with the source's hash, a set of slice wrappers misses a query that is `eq` to a stored element, and inserting the query stores a second equal element |

## Findings

| source | as written | input that shows it | evidently intended | confidence | as-written member | corrected member |
|---|---|---|---|---|---|---|
| src/lib.rs:76 | `hash` hashes `self.addr()`, the full pointer with its metadata, but `eq` and `cmp` compare `self.addr() as *const ()`, the address alone | two slice wrappers of one array at one address with lengths 3 and 2: `eq` holds, but the words hashed are `[a, 3]` and `[a, 2]` | hash the same thin address that `eq` compares, so that equal wrappers hash equally, as Rust's `Hash` contract requires | high for unsized targets (slices, `str`, trait objects); sized targets are unaffected; not executed | `ByAddress.HashAsWrittenSplitsEqualWrappers` | `ByAddress.HashAgreesWithEq` |

The set results hold for every hash that agrees with `eq`. The corrected `Hash` always does (`IdentitySet.HashMeetsContract`). The source's hash does when every target is sized (`IdentitySet.AsWrittenHashMeetsContractForThin`), which is the case in `IdentitySet.ThreeCellsHoldingFive`. `IdentitySet.AsWrittenHashBreaksSet` shows what the as-written hash does to a hash set: a lookup misses, and an insertion duplicates.

## Left out

- `from_ref` (src/lib.rs:37-39): an unsafe reinterpretation of `&T` as `&ByAddr<T>`. It relies on memory layout, which the model does not represent, and it has no logic beyond "the same value under another type".
- The `Borrow` impls for `Box`, `Rc` and `Arc` (src/lib.rs:118-137): unsafe casts of the target's own address to a `&ByAddr<&T>`. They read the target's memory as if it were a wrapper. No borrowed-key round trip is claimed. The safe counterpart, that a wrapper of a bare reference `&*t` has the same key as the wrapper of `t`, is `KeyIsTargetAddress`.
- The hashing algorithm: a hasher is modelled by the words written into it, and the digest is an arbitrary function of those words.
- Hash tables: `IdentitySet` is an idealised table in which a lookup finds an element exactly when its hash equals the query's and it is `eq`. Buckets, probing and resizing are not modelled.
- Derived `Clone`, `Copy` and `Default` (src/lib.rs:15), the `std`/`no_std` feature gating (src/lib.rs:2, src/lib.rs:8-13), lifetimes, thread safety, and address reuse after memory is freed.
- `Deref` implementations that are not pure functions of the wrapped value (interior mutability) are not modelled, since `deref` is a function `T -> Pointer`.
- Nested objects sharing a base address (a struct and its first field, zero-sized values): the heap holds one value per address.
- Address width: addresses and words are unbounded naturals. No arithmetic is done on them, so comparing them agrees with comparing `usize` values.
- `IdentityNotValue`: the heap stores one value per base address, so it cannot hold two views of one address, such as the sub-slices `&a[..3]` and `&a[..2]` or two `dyn` views. Such wrappers are `eq`, yet their targets differ. The lemma's claim that equal wrappers see one value is therefore stated only for sized targets.
- `WriteAsMut`: `as_mut` is modelled as handing out a place in the heap. An `as_mut` that hands out the wrapped value itself, such as `Vec<T>: AsMut<Vec<T>>`, lets `*w.as_mut() = v` replace `self.0`. Like `*w = t` through `deref_mut` (`AssignThroughDerefMutIdentity`), that can change the key. The model does not express this case, and its "changes nothing else" does not cover it.
- `AsRefAsMutForward`: `as_ref`/`as_mut` return references, modelled as values of `U`. Writing through `as_mut` is modelled only for places in the same heap (`WriteAsMut`).

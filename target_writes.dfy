/**
 * Memory seen through the wrapper. The heap maps each base address to the
 * value of the target stored there; reading `**w` reads the cell at the
 * wrapper's key, and writing through `deref_mut` or `as_mut` updates one
 * cell. None of `eq`, `cmp` or `hash` reads the heap, so a write changes
 * what the targets hold but never which wrappers are equal.
 */
module TargetWrites {
  import opened Primitives
  import opened ByAddress

  type Heap<V> = map<Addr, V>

  /** The target of `w` is live: a reference to it points at a stored value. */
  predicate Live<T, V>(h: Heap<V>, w: ByAddr<T>, deref: T -> Pointer) {
    Key(w, deref) in h
  }

  /** `**w`: the value of the wrapper's target. */
  function TargetOf<T, V>(h: Heap<V>, w: ByAddr<T>, deref: T -> Pointer): V
    requires Live(h, w, deref)
  {
    h[Key(w, deref)]
  }

  /**
   * `**w = v`: `deref_mut` on the wrapper, then on the wrapped value,
   * gives the target; the write replaces the value stored there. The
   * wrapper itself is not touched.
   */
  function WriteTarget<T, V>(h: Heap<V>, w: ByAddr<T>, deref: T -> Pointer, v: V): (h': Heap<V>)
    requires Live(h, w, deref)
    ensures h'.Keys == h.Keys
    ensures Live(h', w, deref) && TargetOf(h', w, deref) == v
    ensures forall a :: a in h && a != Key(w, deref) ==> h'[a] == h[a]
  {
    h[Key(w, deref) := v]
  }

  /**
   * `*w.as_mut() = v`: the place `as_mut` hands out is the one the wrapped
   * value's own `as_mut` gives; the write stores `v` there.
   */
  function WriteAsMut<T, V>(h: Heap<V>, w: ByAddr<T>, asMut: T -> Pointer, v: V): (h': Heap<V>)
    requires AsMut(w, asMut).base in h
    ensures h'.Keys == h.Keys
    ensures h'[AsMut(w, asMut).base] == v
    ensures forall a :: a in h && a != AsMut(w, asMut).base ==> h'[a] == h[a]
  {
    h[AsMut(w, asMut).base := v]
  }

  /**
   * Equal wrappers over sized targets name one target and so see one
   * value; wrappers over targets that hold equal values at distinct
   * addresses stay unequal.
   */
  lemma IdentityNotValue<T, V>(h: Heap<V>, x: ByAddr<T>, y: ByAddr<T>, deref: T -> Pointer)
    requires Live(h, x, deref) && Live(h, y, deref)
    ensures AddrOf(x, deref).meta == NoMetadata && AddrOf(y, deref).meta == NoMetadata && Eq(x, y, deref) ==>
              AddrOf(x, deref) == AddrOf(y, deref) && TargetOf(h, x, deref) == TargetOf(h, y, deref)
    ensures Key(x, deref) != Key(y, deref) ==> !Eq(x, y, deref)
  {
  }

  /**
   * A write through one wrapper is seen by every holder of the same target,
   * even one whose wrapped value has another type (a box and a bare
   * reference to its contents); holders of other targets see no change.
   */
  lemma WriteVisibleToAliases<T, S, V>(h: Heap<V>, w: ByAddr<T>, deref: T -> Pointer,
                                       r: ByAddr<S>, derefR: S -> Pointer, v: V)
    requires Live(h, w, deref) && Live(h, r, derefR)
    ensures Live(WriteTarget(h, w, deref, v), r, derefR)
    ensures Key(r, derefR) == Key(w, deref) ==> TargetOf(WriteTarget(h, w, deref, v), r, derefR) == v
    ensures Key(r, derefR) != Key(w, deref) ==>
              TargetOf(WriteTarget(h, w, deref, v), r, derefR) == TargetOf(h, r, derefR)
  {
  }

  /**
   * A write through `as_mut` into the wrapped value's own target is the
   * write to the target: when `as_mut` hands out `&mut **w`, writing
   * through it leaves the same heap as `**w = v`.
   */
  lemma AsMutIntoTargetIsWriteTarget<T, V>(h: Heap<V>, w: ByAddr<T>, deref: T -> Pointer, asMut: T -> Pointer, v: V)
    requires Live(h, w, deref)
    requires asMut(w.inner) == deref(w.inner)
    ensures WriteAsMut(h, w, asMut, v) == WriteTarget(h, w, deref, v)
  {
  }
}

/**
 * `ByAddr<T>`: a wrapper around a dereferenceable value whose equality,
 * ordering and hashing use the address of the dereferenced target instead
 * of the target's value.
 *
 * `T`'s `Deref` implementation is the parameter `deref: T -> Pointer`: a
 * pure function from the wrapped value to the (possibly fat) pointer
 * `&*t` refers to. The identity key of a wrapper is that pointer's base
 * address, with the metadata stripped as `as *const ()` does.
 */
module ByAddress {
  import opened Primitives

  /** The tuple struct `ByAddr(pub T)`: exactly one wrapped value. */
  datatype ByAddr<T> = ByAddr(inner: T)

  /** `From<T>`: wrapping is total and stores the value unchanged. */
  function From<T>(t: T): (w: ByAddr<T>)
    ensures Deref(w) == t
  {
    ByAddr(t)
  }

  /** `addr`: the full pointer `&*self.0`, metadata included. */
  function AddrOf<T>(w: ByAddr<T>, deref: T -> Pointer): Pointer {
    deref(w.inner)
  }

  /** The identity key: `self.addr() as *const ()`. */
  function Key<T>(w: ByAddr<T>, deref: T -> Pointer): Addr {
    Thin(AddrOf(w, deref))
  }

  /** `PartialEq::eq`: the two thin target addresses are equal. */
  predicate Eq<T>(x: ByAddr<T>, y: ByAddr<T>, deref: T -> Pointer) {
    Key(x, deref) == Key(y, deref)
  }

  /** `Ord::cmp`: the thin target addresses compared. */
  function Cmp<T>(x: ByAddr<T>, y: ByAddr<T>, deref: T -> Pointer): Ordering {
    CmpAddr(Key(x, deref), Key(y, deref))
  }

  /** `PartialOrd::partial_cmp`: the same comparison, always under `Some`. */
  function PartialCmp<T>(x: ByAddr<T>, y: ByAddr<T>, deref: T -> Pointer): Option<Ordering> {
    Some(CmpAddr(Key(x, deref), Key(y, deref)))
  }

  /**
   * `Hash::hash` as the source writes it: `self.addr().hash(state)` hashes
   * the full pointer, so the metadata of a fat pointer is written too.
   */
  function HashAsWritten<T>(w: ByAddr<T>, deref: T -> Pointer, state: seq<Word>): seq<Word> {
    HashPointer(AddrOf(w, deref), state)
  }

  /**
   * `Hash::hash` as it agrees with `eq`: `(self.addr() as *const ()).hash(state)`
   * writes the thin address and nothing else.
   */
  function Hash<T>(w: ByAddr<T>, deref: T -> Pointer, state: seq<Word>): (r: seq<Word>)
    ensures r == state + [Key(w, deref)]
  {
    HashPointer(Pointer(Key(w, deref), NoMetadata), state)
  }

  /** `Deref::deref`: a view of the wrapped value itself. */
  function Deref<T>(w: ByAddr<T>): T {
    w.inner
  }

  /**
   * `DerefMut::deref_mut` hands out `&mut self.0`; a caller that assigns
   * `*w = t` through it replaces the wrapped value. This is the wrapper
   * after that assignment.
   */
  function AssignThroughDerefMut<T>(w: ByAddr<T>, t: T): (r: ByAddr<T>)
    ensures Deref(r) == t
  {
    ByAddr(t)
  }

  /** `AsRef<U>`: forwarded to the wrapped value's `as_ref`. */
  function AsRef<T, U>(w: ByAddr<T>, asRef: T -> U): U {
    asRef(w.inner)
  }

  /** `AsMut<U>`: forwarded to the wrapped value's `as_mut`. */
  function AsMut<T, U>(w: ByAddr<T>, asMut: T -> U): U {
    asMut(w.inner)
  }

  // ---------------------------------------------------------------------
  // Construction and access

  /** Wrapping and `deref` are inverse: nothing is added or lost. */
  lemma FromDerefRoundTrip<T>(t: T, w: ByAddr<T>)
    ensures Deref(From(t)) == t
    ensures From(Deref(w)) == w
  {
  }

  /**
   * Wrapping does not move the target: the wrapper's key is the address
   * the wrapped value dereferences to, and a wrapper around the bare
   * reference `&*t` has the same key as the wrapper around `t` itself.
   */
  lemma KeyIsTargetAddress<T>(t: T, deref: T -> Pointer)
    ensures Key(From(t), deref) == deref(t).base
    ensures Key(From(deref(t)), (p: Pointer) => p) == Key(From(t), deref)
  {
  }

  /** `as_ref` and `as_mut` behave exactly as on the wrapped value. */
  lemma AsRefAsMutForward<T, U>(t: T, asRef: T -> U, asMut: T -> U)
    ensures AsRef(From(t), asRef) == asRef(t)
    ensures AsMut(From(t), asMut) == asMut(t)
  {
  }

  /**
   * Assigning through `deref_mut` replaces the wrapped value, and with it
   * the identity: the wrapper stays equal to what it was exactly when the
   * new value dereferences to the same address.
   */
  lemma AssignThroughDerefMutIdentity<T>(w: ByAddr<T>, t: T, deref: T -> Pointer)
    ensures Key(AssignThroughDerefMut(w, t), deref) == deref(t).base
    ensures Eq(w, AssignThroughDerefMut(w, t), deref) <==> deref(t).base == Key(w, deref)
  {
  }

  // ---------------------------------------------------------------------
  // Equality

  /** Two wrappers are equal exactly when their targets' base addresses are. */
  lemma EqIffSameBaseAddress<T>(x: ByAddr<T>, y: ByAddr<T>, deref: T -> Pointer)
    ensures Eq(x, y, deref) <==> AddrOf(x, deref).base == AddrOf(y, deref).base
  {
  }

  /**
   * The metadata of a fat pointer plays no part in equality: slices of
   * different lengths starting at one address are equal wrappers.
   */
  lemma EqIgnoresMetadata<T>(x: ByAddr<T>, y: ByAddr<T>, deref: T -> Pointer)
    requires AddrOf(x, deref).base == AddrOf(y, deref).base
    requires AddrOf(x, deref).meta != AddrOf(y, deref).meta
    ensures Eq(x, y, deref)
    ensures AddrOf(x, deref) != AddrOf(y, deref)
  {
  }

  /** `Eq` is an equivalence relation, as the marker impl claims. */
  lemma EqIsEquivalence<T>(deref: T -> Pointer)
    ensures forall x: ByAddr<T> :: Eq(x, x, deref)
    ensures forall x: ByAddr<T>, y: ByAddr<T> :: Eq(x, y, deref) ==> Eq(y, x, deref)
    ensures forall x: ByAddr<T>, y: ByAddr<T>, z: ByAddr<T> ::
              Eq(x, y, deref) && Eq(y, z, deref) ==> Eq(x, z, deref)
  {
  }

  // ---------------------------------------------------------------------
  // Ordering

  /** `cmp` says `Equal` exactly when `eq` holds, and orders by address. */
  lemma CmpConsistentWithEq<T>(x: ByAddr<T>, y: ByAddr<T>, deref: T -> Pointer)
    ensures Cmp(x, y, deref) == Equal <==> Eq(x, y, deref)
    ensures Cmp(x, y, deref) == Less <==> Key(x, deref) < Key(y, deref)
    ensures Cmp(x, y, deref) == Greater <==> Key(x, deref) > Key(y, deref)
  {
  }

  /** `cmp` is a total order: antisymmetric, total and transitive. */
  lemma CmpIsTotalOrder<T>(x: ByAddr<T>, y: ByAddr<T>, z: ByAddr<T>, deref: T -> Pointer)
    ensures Cmp(y, x, deref) == Cmp(x, y, deref).Reverse()
    ensures Cmp(x, y, deref).IsLe() && Cmp(y, x, deref).IsLe() ==> Eq(x, y, deref)
    ensures Cmp(x, y, deref).IsLe() || Cmp(y, x, deref).IsLe()
    ensures Cmp(x, y, deref).IsLe() && Cmp(y, z, deref).IsLe() ==> Cmp(x, z, deref).IsLe()
    ensures Cmp(x, y, deref) == Less && Cmp(y, z, deref) == Less ==> Cmp(x, z, deref) == Less
  {
    CmpAddrIsTotalOrder(Key(x, deref), Key(y, deref), Key(z, deref));
  }

  /** `partial_cmp` never returns `None`, and its payload is `cmp`'s result. */
  lemma PartialCmpIsCmp<T>(x: ByAddr<T>, y: ByAddr<T>, deref: T -> Pointer)
    ensures PartialCmp(x, y, deref).Some?
    ensures PartialCmp(x, y, deref).value == Cmp(x, y, deref)
    ensures PartialCmp(x, y, deref) == Some(Equal) <==> Eq(x, y, deref)
  {
  }

  // ---------------------------------------------------------------------
  // Hashing

  /**
   * The hash as written depends on the target pointer alone. For a sized
   * target (a thin pointer), and more generally whenever two targets carry
   * the same metadata, equal wrappers write equal words into any hasher.
   */
  lemma HashAsWrittenAgreesOnEqualMetadata<T>(x: ByAddr<T>, y: ByAddr<T>, deref: T -> Pointer, state: seq<Word>)
    requires Eq(x, y, deref)
    requires AddrOf(x, deref).meta == AddrOf(y, deref).meta
    ensures HashAsWritten(x, deref, state) == HashAsWritten(y, deref, state)
  {
  }

  /**
   * The hash as written disagrees with `eq` for unsized targets: two
   * pointers to one address whose metadata differ (two slices of one array
   * with different lengths) give equal wrappers that write different words.
   */
  lemma HashAsWrittenSplitsEqualWrappers<T>(x: ByAddr<T>, y: ByAddr<T>, deref: T -> Pointer, state: seq<Word>)
    requires AddrOf(x, deref).base == AddrOf(y, deref).base
    requires SameKind(AddrOf(x, deref).meta, AddrOf(y, deref).meta)
    requires AddrOf(x, deref).meta != AddrOf(y, deref).meta
    ensures Eq(x, y, deref)
    ensures HashAsWritten(x, deref, state) != HashAsWritten(y, deref, state)
  {
    HashPointerInjective(AddrOf(x, deref), AddrOf(y, deref), state);
  }

  /** The slice case, concretely: `&a[..3]` and `&a[..2]` of one array. */
  lemma SliceWrappersHashApart()
    ensures var deref := (p: Pointer) => p;
            var long := ByAddr(Pointer(4096, SliceLength(3)));
            var short := ByAddr(Pointer(4096, SliceLength(2)));
            Eq(long, short, deref) && HashAsWritten(long, deref, []) != HashAsWritten(short, deref, [])
  {
    var deref := (p: Pointer) => p;
    HashAsWrittenSplitsEqualWrappers(ByAddr(Pointer(4096, SliceLength(3))), ByAddr(Pointer(4096, SliceLength(2))), deref, []);
  }

  /** The hash that hashes the thin address agrees with `eq` on every target. */
  lemma HashAgreesWithEq<T>(x: ByAddr<T>, y: ByAddr<T>, deref: T -> Pointer, state: seq<Word>)
    ensures Eq(x, y, deref) <==> Hash(x, deref, state) == Hash(y, deref, state)
  {
    if Hash(x, deref, state) == Hash(y, deref, state) {
      assert Hash(x, deref, state)[|state|] == Key(x, deref);
    }
  }

  /** For sized targets the thin hash writes what the source's hash writes. */
  lemma HashMatchesAsWrittenForSizedTargets<T>(w: ByAddr<T>, deref: T -> Pointer, state: seq<Word>)
    requires AddrOf(w, deref).meta == NoMetadata
    ensures Hash(w, deref, state) == HashAsWritten(w, deref, state)
  {
  }
}

/**
 * The host-language primitives the wrapper is built from: machine
 * addresses, raw pointers that may carry metadata (fat pointers), the
 * three-way `Ordering`, `Option`, and what hashing a raw pointer writes
 * into a `Hasher`.
 */
module Primitives {

  /** A machine address: the value of a thin `*const ()` pointer. */
  type Addr = nat

  /** A machine word, as written into a hasher by `write_usize`. */
  type Word = nat

  /** The extra part of a fat pointer to an unsized target. */
  datatype Metadata =
    | NoMetadata               // sized target: a thin pointer
    | SliceLength(len: nat)    // `[T]` or `str`: the element count
    | VTable(table: Addr)      // `dyn Trait`: the address of the vtable

  /** A raw pointer `*const T::Target`: a base address and its metadata. */
  datatype Pointer = Pointer(base: Addr, meta: Metadata)

  datatype Option<T> = None | Some(value: T)

  /** The result of a three-way comparison. */
  datatype Ordering = Less | Equal | Greater {

    /** `Ordering::reverse`: swaps `Less` and `Greater`. */
    function Reverse(): (r: Ordering)
      ensures r == Less <==> this == Greater
      ensures r == Equal <==> this == Equal
      ensures r == Greater <==> this == Less
    {
      match this
      case Less => Greater
      case Equal => Equal
      case Greater => Less
    }

    /** `Ordering::is_le`. */
    predicate IsLe() {
      this != Greater
    }
  }

  /** `p as *const ()`: the cast keeps the address and drops the metadata. */
  function Thin(p: Pointer): Addr {
    p.base
  }

  /** `Ord::cmp` on thin pointers: the addresses compared as unsigned words. */
  function CmpAddr(a: Addr, b: Addr): (r: Ordering)
    ensures r == Less <==> a < b
    ensures r == Equal <==> a == b
    ensures r == Greater <==> a > b
  {
    if a < b then Less else if a == b then Equal else Greater
  }

  /** The words hashing a value of metadata writes into a hasher. */
  function MetadataWords(m: Metadata): seq<Word> {
    match m
    case NoMetadata => []
    case SliceLength(len) => [len]
    case VTable(table) => [table]
  }

  /**
   * `Hash::hash` for a raw pointer: it writes the address, then hashes the
   * metadata (nothing for a thin pointer). `state` is what had been written
   * into the hasher before; the result is what has been written after.
   */
  function HashPointer(p: Pointer, state: seq<Word>): (r: seq<Word>)
    ensures p.meta.NoMetadata? ==> r == state + [p.base]
    ensures p.meta.SliceLength? ==> r == state + [p.base, p.meta.len]
    ensures p.meta.VTable? ==> r == state + [p.base, p.meta.table]
  {
    state + [p.base] + MetadataWords(p.meta)
  }

  /** Two metadata values of one kind, as one pointer type always carries. */
  predicate SameKind(m: Metadata, n: Metadata) {
    (m.NoMetadata? && n.NoMetadata?)
    || (m.SliceLength? && n.SliceLength?)
    || (m.VTable? && n.VTable?)
  }

  /** The address order is a total order on addresses. */
  lemma CmpAddrIsTotalOrder(a: Addr, b: Addr, c: Addr)
    ensures CmpAddr(a, b) == CmpAddr(b, a).Reverse()
    ensures CmpAddr(a, b).IsLe() || CmpAddr(b, a).IsLe()
    ensures CmpAddr(a, b).IsLe() && CmpAddr(b, c).IsLe() ==> CmpAddr(a, c).IsLe()
    ensures CmpAddr(a, b) == Less && CmpAddr(b, c) == Less ==> CmpAddr(a, c) == Less
  {
  }

  /**
   * Hashing a pointer writes its whole value: between pointers of one type
   * (metadata of one kind), different pointers write different words, and
   * so different metadata alone is enough to tell two pointers apart.
   */
  lemma {:induction false} HashPointerInjective(p: Pointer, q: Pointer, state: seq<Word>)
    requires SameKind(p.meta, q.meta)
    ensures HashPointer(p, state) == HashPointer(q, state) <==> p == q
  {
    var hp, hq := HashPointer(p, state), HashPointer(q, state);
    var n := |state|;
    if hp == hq {
      assert hp[n] == p.base && hq[n] == q.base;
      match p.meta
      case NoMetadata =>
      case SliceLength(len) =>
        assert hp[n + 1] == len;
        assert hq[n + 1] == q.meta.len;
      case VTable(table) =>
        assert hp[n + 1] == table;
        assert hq[n + 1] == q.meta.table;
    }
  }
}

/**
 * A hash set keyed by `ByAddr`, as a `HashSet<ByAddr<T>>` uses the
 * wrapper: a lookup finds a stored element whose hash equals the query's
 * and which is `eq` to it, and an insertion adds the element only when no
 * such element is found. The set is a sequence of its elements in
 * insertion order; the hash is any function of the wrapper, and the
 * results below hold for every hash that agrees with `eq`.
 */
module IdentitySet {
  import opened Primitives
  import opened ByAddress
  import opened TargetWrites

  /** The hash contract: equal elements have equal hashes. */
  ghost predicate HashAgrees<T(!new), H>(deref: T -> Pointer, hash: ByAddr<T> -> H) {
    forall x: ByAddr<T>, y: ByAddr<T> :: Eq(x, y, deref) ==> hash(x) == hash(y)
  }

  /** `contains`: some stored element has the query's hash and is `eq` to it. */
  predicate Contains<T(!new), H(==)>(s: seq<ByAddr<T>>, q: ByAddr<T>, deref: T -> Pointer, hash: ByAddr<T> -> H) {
    exists i :: 0 <= i < |s| && hash(s[i]) == hash(q) && Eq(s[i], q, deref)
  }

  /** `insert`: the element is added unless an equal one is found. */
  function Insert<T(!new), H(==)>(s: seq<ByAddr<T>>, x: ByAddr<T>, deref: T -> Pointer, hash: ByAddr<T> -> H): (r: seq<ByAddr<T>>)
    ensures |s| <= |r| <= |s| + 1 && r[..|s|] == s
    ensures Contains(r, x, deref, hash)
  {
    if Contains(s, x, deref, hash) then s
    else assert (s + [x])[|s|] == x; s + [x]
  }

  /** The set obtained by inserting `xs` in order into an empty set. */
  function Collect<T(!new), H(==)>(xs: seq<ByAddr<T>>, deref: T -> Pointer, hash: ByAddr<T> -> H): seq<ByAddr<T>> {
    if xs == [] then [] else Insert(Collect(xs[..|xs| - 1], deref, hash), xs[|xs| - 1], deref, hash)
  }

  /** The identity keys of the elements. */
  function Keys<T(!new)>(s: seq<ByAddr<T>>, deref: T -> Pointer): set<Addr> {
    set i | 0 <= i < |s| :: Key(s[i], deref)
  }

  /** No two stored elements are equal: the set holds one element per address. */
  ghost predicate Distinct<T(!new)>(s: seq<ByAddr<T>>, deref: T -> Pointer) {
    forall i, j :: 0 <= i < j < |s| ==> !Eq(s[i], s[j], deref)
  }

  /** The thin-address hash, fed into any hasher, meets the hash contract. */
  lemma HashMeetsContract<T(!new), H>(deref: T -> Pointer, finish: seq<Word> -> H)
    ensures HashAgrees(deref, (w: ByAddr<T>) => finish(Hash(w, deref, [])))
  {
    forall x: ByAddr<T>, y: ByAddr<T> | Eq(x, y, deref)
      ensures finish(Hash(x, deref, [])) == finish(Hash(y, deref, []))
    {
      HashAgreesWithEq(x, y, deref, []);
    }
  }

  /**
   * The source's hash, fed into any hasher, meets the hash contract when
   * every target is sized: thin pointers carry no metadata to tell apart.
   */
  lemma AsWrittenHashMeetsContractForThin<T(!new), H>(deref: T -> Pointer, finish: seq<Word> -> H)
    requires forall t :: deref(t).meta == NoMetadata
    ensures HashAgrees(deref, (w: ByAddr<T>) => finish(HashAsWritten(w, deref, [])))
  {
    forall x: ByAddr<T>, y: ByAddr<T> | Eq(x, y, deref)
      ensures finish(HashAsWritten(x, deref, [])) == finish(HashAsWritten(y, deref, []))
    {
      HashAsWrittenAgreesOnEqualMetadata(x, y, deref, []);
    }
  }

  /** Under the hash contract a lookup succeeds exactly when the query's address is stored. */
  lemma ContainsIffKeyStored<T(!new), H>(s: seq<ByAddr<T>>, q: ByAddr<T>, deref: T -> Pointer, hash: ByAddr<T> -> H)
    requires HashAgrees(deref, hash)
    ensures Contains(s, q, deref, hash) <==> Key(q, deref) in Keys(s, deref)
  {
    if Key(q, deref) in Keys(s, deref) {
      var i :| 0 <= i < |s| && Key(s[i], deref) == Key(q, deref);
      assert hash(s[i]) == hash(q);
    }
  }

  /** Distinct elements have distinct keys, so there are as many elements as keys. */
  lemma {:induction false} DistinctSize<T(!new)>(s: seq<ByAddr<T>>, deref: T -> Pointer)
    requires Distinct(s, deref)
    ensures |Keys(s, deref)| == |s|
  {
    if s != [] {
      var init := s[..|s| - 1];
      var last := s[|s| - 1];
      assert Distinct(init, deref);
      DistinctSize(init, deref);
      assert Keys(s, deref) == Keys(init, deref) + {Key(last, deref)} by {
        forall a | a in Keys(s, deref) ensures a in Keys(init, deref) + {Key(last, deref)} {
          var i :| 0 <= i < |s| && Key(s[i], deref) == a;
          if i < |s| - 1 { assert init[i] == s[i]; }
        }
      }
      forall i | 0 <= i < |init| ensures Key(init[i], deref) != Key(last, deref) {
        assert !Eq(s[i], s[|s| - 1], deref);
      }
    }
  }

  /** An insertion keeps the set free of equal elements and adds the element's key. */
  lemma InsertKeepsDistinct<T(!new), H>(s: seq<ByAddr<T>>, x: ByAddr<T>, deref: T -> Pointer, hash: ByAddr<T> -> H)
    requires HashAgrees(deref, hash)
    requires Distinct(s, deref)
    ensures Distinct(Insert(s, x, deref, hash), deref)
    ensures Keys(Insert(s, x, deref, hash), deref) == Keys(s, deref) + {Key(x, deref)}
  {
    ContainsIffKeyStored(s, x, deref, hash);
    var r := Insert(s, x, deref, hash);
    if !Contains(s, x, deref, hash) {
      assert r == s + [x];
      forall i, j | 0 <= i < j < |r| ensures !Eq(r[i], r[j], deref) {
        if j == |s| {
          assert Key(r[i], deref) in Keys(s, deref) by { assert r[i] == s[i]; }
        }
      }
      assert Keys(r, deref) == Keys(s, deref) + {Key(x, deref)} by {
        forall a | a in Keys(r, deref) ensures a in Keys(s, deref) + {Key(x, deref)} {
          var i :| 0 <= i < |r| && Key(r[i], deref) == a;
          if i < |s| { assert r[i] == s[i]; }
        }
        forall a | a in Keys(s, deref) ensures a in Keys(r, deref) {
          var i :| 0 <= i < |s| && Key(s[i], deref) == a;
          assert r[i] == s[i];
        }
        assert r[|s|] == x;
      }
    }
  }

  /**
   * Inserting a sequence of wrappers keeps exactly one element per distinct
   * target address, whatever the targets hold, and every inserted address
   * is found again.
   */
  lemma {:induction false} CollectKeepsOnePerAddress<T(!new), H>(xs: seq<ByAddr<T>>, deref: T -> Pointer, hash: ByAddr<T> -> H)
    requires HashAgrees(deref, hash)
    ensures Distinct(Collect(xs, deref, hash), deref)
    ensures Keys(Collect(xs, deref, hash), deref) == Keys(xs, deref)
    ensures |Collect(xs, deref, hash)| == |Keys(xs, deref)|
  {
    var r := Collect(xs, deref, hash);
    if xs != [] {
      var init := xs[..|xs| - 1];
      var last := xs[|xs| - 1];
      CollectKeepsOnePerAddress(init, deref, hash);
      InsertKeepsDistinct(Collect(init, deref, hash), last, deref, hash);
      assert Keys(xs, deref) == Keys(init, deref) + {Key(last, deref)} by {
        forall a | a in Keys(xs, deref) ensures a in Keys(init, deref) + {Key(last, deref)} {
          var i :| 0 <= i < |xs| && Key(xs[i], deref) == a;
          if i < |xs| - 1 { assert init[i] == xs[i]; }
        }
        forall a | a in Keys(init, deref) ensures a in Keys(xs, deref) {
          var i :| 0 <= i < |init| && Key(init[i], deref) == a;
          assert xs[i] == init[i];
        }
      }
    }
    DistinctSize(r, deref);
  }

  /**
   * Three heap cells each holding 5, wrapped as `&i32` references (thin
   * pointers, here their addresses) and inserted with the source's own
   * hash, give a set of three elements; a wrapper around a fresh reference
   * to the first cell is found in it.
   */
  lemma ThreeCellsHoldingFive(finish: seq<Word> -> int)
    ensures var heap: map<Addr, int> := map[16 := 5, 32 := 5, 48 := 5];
            var deref := (a: Addr) => Pointer(a, NoMetadata);
            var hash := (w: ByAddr<Addr>) => finish(HashAsWritten(w, deref, []));
            var cells := [From(16), From(32), From(48)];
            && (forall i :: 0 <= i < 3 ==> Live(heap, cells[i], deref) && TargetOf(heap, cells[i], deref) == 5)
            && |Collect(cells, deref, hash)| == 3
            && Contains(Collect(cells, deref, hash), From(16), deref, hash)
  {
    var deref := (a: Addr) => Pointer(a, NoMetadata);
    var hash := (w: ByAddr<Addr>) => finish(HashAsWritten(w, deref, []));
    var cells: seq<ByAddr<Addr>> := [From(16), From(32), From(48)];
    assert forall a: Addr :: deref(a).meta == NoMetadata;
    AsWrittenHashMeetsContractForThin(deref, finish);
    CollectKeepsOnePerAddress(cells, deref, hash);
    assert Keys(cells, deref) == {16, 32, 48} by {
      assert Key(cells[0], deref) == 16 && Key(cells[1], deref) == 32 && Key(cells[2], deref) == 48;
    }
    ContainsIffKeyStored(Collect(cells, deref, hash), From(16), deref, hash);
  }

  /**
   * With the source's hash, which also hashes the metadata, a set of slice
   * wrappers misses a query that is `eq` to a stored element, and inserting
   * that query stores a second, equal element.
   */
  lemma AsWrittenHashBreaksSet()
    ensures var deref := (p: Pointer) => p;
            var hash := (w: ByAddr<Pointer>) => HashAsWritten(w, deref, []);
            var stored := From(Pointer(4096, SliceLength(3)));
            var query := From(Pointer(4096, SliceLength(2)));
            && Eq(stored, query, deref)
            && !Contains([stored], query, deref, hash)
            && Insert([stored], query, deref, hash) == [stored, query]
            && !Distinct(Insert([stored], query, deref, hash), deref)
            && !HashAgrees(deref, hash)
  {
    var deref := (p: Pointer) => p;
    var hash := (w: ByAddr<Pointer>) => HashAsWritten(w, deref, []);
    var stored := From(Pointer(4096, SliceLength(3)));
    var query := From(Pointer(4096, SliceLength(2)));
    HashAsWrittenSplitsEqualWrappers(stored, query, deref, []);
    assert hash(stored) != hash(query);
    assert !Contains([stored], query, deref, hash) by {
      assert forall i :: 0 <= i < |[stored]| ==> [stored][i] == stored;
    }
    assert Eq(stored, query, deref) && hash(stored) != hash(query);
    assert Insert([stored], query, deref, hash) == [stored, query];
    assert !Distinct(Insert([stored], query, deref, hash), deref) by {
      var r := Insert([stored], query, deref, hash);
      assert r[0] == stored && r[1] == query;
      assert Eq(r[0], r[1], deref);
    }
    assert !HashAgrees(deref, hash);
  }
}

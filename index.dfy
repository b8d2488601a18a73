// The serial-number index of the book store: a fixed table of buckets,
// each bucket a chain of serial numbers, the bucket chosen by `sn % Size`.
// A chain is modelled as a sequence, head first; walking the chain is a loop
// over that sequence.
module Index {

  /** Number of buckets in the table. */
  const Size: nat := 10007

  /** The bucket a serial number belongs to; always a valid bucket index. */
  function Hash(sn: nat): (k: nat)
    ensures k < Size
  {
    sn % Size
  }

  /** No serial occurs twice in one chain. */
  predicate NoDuplicates(chain: seq<nat>) {
    forall i, j :: 0 <= i < j < |chain| ==> chain[i] != chain[j]
  }

  class SerialIndex {
    /** The bucket table; the array itself is never replaced. */
    const buckets: array<seq<nat>>
    /** The set of serials the index holds (public view). */
    ghost var Elems: set<nat>

    /** Every serial sits in the bucket of its hash, chains hold no duplicates,
        and Elems is exactly what the chains hold. */
    ghost predicate Valid()
      reads this, buckets
    {
      && buckets.Length == Size
      && (forall k, i :: 0 <= k < Size && 0 <= i < |buckets[k]| ==> Hash(buckets[k][i]) == k)
      && (forall k :: 0 <= k < Size ==> NoDuplicates(buckets[k]))
      && (forall sn :: sn in Elems <==> sn in buckets[Hash(sn)])
    }

    /** An empty table: every chain is empty. */
    constructor ()
      ensures Valid() && fresh(buckets)
      ensures Elems == {}
      ensures forall k :: 0 <= k < Size ==> buckets[k] == []
    {
      buckets := new seq<nat>[Size](_ => []);
      Elems := {};
    }

    /** Membership test: walks the chain of the serial's bucket. */
    method Query(sn: nat) returns (found: bool)
      requires Valid()
      ensures found <==> sn in Elems
    {
      var chain := buckets[Hash(sn)];
      var i := 0;
      while i < |chain|
        invariant 0 <= i <= |chain|
        invariant sn !in chain[..i]
      {
        if chain[i] == sn {
          return true;
        }
        i := i + 1;
      }
      assert chain[..i] == chain;
      return false;
    }

    /** Adds a serial at the tail of its chain, unless the chain already holds it. */
    method Append(sn: nat)
      requires Valid()
      modifies this, buckets
      ensures Valid()
      ensures Elems == old(Elems) + {sn}
      ensures sn in old(Elems) ==> buckets[Hash(sn)] == old(buckets[Hash(sn)])
      ensures sn !in old(Elems) ==> buckets[Hash(sn)] == old(buckets[Hash(sn)]) + [sn]
      ensures forall k :: 0 <= k < Size && k != Hash(sn) ==> buckets[k] == old(buckets[k])
    {
      var key := Hash(sn);
      var chain := buckets[key];
      var i := 0;
      while i < |chain|
        invariant 0 <= i <= |chain|
        invariant sn !in chain[..i]
      {
        if chain[i] == sn {
          return;
        }
        i := i + 1;
      }
      assert chain[..i] == chain;
      var grown := chain + [sn];
      assert NoDuplicates(grown);
      buckets[key] := grown;
      Elems := Elems + {sn};
      forall sn' ensures sn' in Elems <==> sn' in buckets[Hash(sn')] {
        if Hash(sn') == key {
          assert sn' in grown <==> sn' in chain || sn' == sn;
        }
      }
    }

    /** Unlinks a serial from its chain; a serial that is absent changes nothing.
        The remaining serials of the chain keep their order. */
    method Remove(sn: nat)
      requires Valid()
      modifies this, buckets
      ensures Valid()
      ensures Elems == old(Elems) - {sn}
      ensures sn !in old(Elems) ==> buckets[Hash(sn)] == old(buckets[Hash(sn)])
      ensures sn in old(Elems) ==>
        exists i :: 0 <= i < |old(buckets[Hash(sn)])| && old(buckets[Hash(sn)])[i] == sn &&
          buckets[Hash(sn)] == old(buckets[Hash(sn)])[..i] + old(buckets[Hash(sn)])[i + 1..]
      ensures forall k :: 0 <= k < Size && k != Hash(sn) ==> buckets[k] == old(buckets[k])
    {
      var key := Hash(sn);
      var chain := buckets[key];
      var i := 0;
      while i < |chain| && chain[i] != sn
        invariant 0 <= i <= |chain|
        invariant sn !in chain[..i]
      {
        i := i + 1;
      }
      if i == |chain| {
        assert chain[..i] == chain;
        return;
      }
      var shrunk := chain[..i] + chain[i + 1..];
      forall p, q | 0 <= p < q < |shrunk| ensures shrunk[p] != shrunk[q] {
        var p', q' := if p < i then p else p + 1, if q < i then q else q + 1;
        assert shrunk[p] == chain[p'] && shrunk[q] == chain[q'];
      }
      forall x ensures x in shrunk <==> x in chain && x != sn {
        if x in chain && x != sn {
          var m :| 0 <= m < |chain| && chain[m] == x;
          if m < i { assert shrunk[m] == x; } else { assert shrunk[m - 1] == x; }
        }
      }
      buckets[key] := shrunk;
      Elems := Elems - {sn};
    }
  }
}

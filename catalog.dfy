// Values of the book store and the reference meaning of its one entry point:
// records, result codes, operation flags, and `Apply`, which says what an
// operation does to an abstract store (the record list, the count and the set
// of serials the index holds).
module Catalog {

  datatype Option<T> = None | Some(value: T)

  /** One book record. The name is a value: the store keeps its own copy. */
  datatype Book = Book(sn: nat, name: string, price: nat, quantity: nat)

  /** Outcome of an operation, with the integer the program returns for it. */
  datatype Status = Success | InvalidArg | BookNonexist | BookExist | MapInconsist {
    function Code(): (c: int)
      ensures c <= 0 && (c == 0 <==> this == Success)
    {
      match this
      case Success => 0
      case InvalidArg => -1
      case BookNonexist => -2
      case BookExist => -3
      case MapInconsist => -4
    }
  }

  /** Distinct outcomes are reported with distinct integers. */
  lemma CodesDistinct(a: Status, b: Status)
    ensures a.Code() == b.Code() ==> a == b
  {
  }

  // Operation flags, one bit each, as the bit pattern of the program's `int`.
  const NewBook: bv32 := 1
  const DelBook: bv32 := 2
  const UpdName: bv32 := 4
  const UpdPrice: bv32 := 8
  const UpdQuant: bv32 := 16
  const QryBook: bv32 := 32

  predicate Has(opflag: bv32, bit: bv32) {
    opflag & bit != 0
  }

  /** Which branch of the entry point a flag word selects. */
  datatype OpKind = Rejected | Delete | Insert | Query | Update

  /** The dispatch of the entry point: delete is tested first, then insert,
      then query; every other non-zero word is an update. */
  function Classify(opflag: bv32): (k: OpKind)
    ensures k == Rejected <==>
      || opflag == 0
      || (Has(opflag, DelBook) && opflag != DelBook)
      || (Has(opflag, NewBook) && opflag != NewBook)
      || (Has(opflag, QryBook) && opflag != QryBook)
    ensures k == Delete <==> opflag == DelBook
    ensures k == Insert <==> opflag == NewBook
    ensures k == Query <==> opflag == QryBook
    ensures k == Update <==>
      opflag != 0 && !Has(opflag, DelBook) && !Has(opflag, NewBook) && !Has(opflag, QryBook)
  {
    if opflag == 0 then Rejected
    else if Has(opflag, DelBook) then (if opflag != DelBook then Rejected else Delete)
    else if Has(opflag, NewBook) then (if opflag != NewBook then Rejected else Insert)
    else if Has(opflag, QryBook) then (if opflag != QryBook then Rejected else Query)
    else Update
  }

  // ---------------------------------------------------------------------
  // The record list

  /** The serials a record list holds. */
  function Serials(books: seq<Book>): set<nat> {
    if books == [] then {} else {books[0].sn} + Serials(books[1..])
  }

  lemma {:induction false} SerialsMembership(books: seq<Book>, sn: nat)
    ensures sn in Serials(books) <==> exists i :: 0 <= i < |books| && books[i].sn == sn
  {
    if books != [] {
      SerialsMembership(books[1..], sn);
      if sn in Serials(books[1..]) {
        var i :| 0 <= i < |books[1..]| && books[1..][i].sn == sn;
        assert books[i + 1].sn == sn;
      }
      forall i | 0 < i < |books| && books[i].sn == sn ensures sn in Serials(books[1..]) {
        assert books[1..][i - 1].sn == sn;
      }
    }
  }

  /** No two records share a serial. */
  predicate DistinctSerials(books: seq<Book>) {
    forall i, j :: 0 <= i < j < |books| ==> books[i].sn != books[j].sn
  }

  /** `i` is where a walk from the head first meets serial `sn`. */
  predicate FirstAt(books: seq<Book>, sn: nat, i: nat) {
    i < |books| && books[i].sn == sn && forall j :: 0 <= j < i ==> books[j].sn != sn
  }

  /** The first record with serial `sn`, walking from the head. */
  function Lookup(books: seq<Book>, sn: nat): (r: Option<Book>)
    ensures r.Some? <==> sn in Serials(books)
    ensures r.Some? ==> r.value in books && r.value.sn == sn
  {
    if books == [] then None
    else if books[0].sn == sn then Some(books[0])
    else Lookup(books[1..], sn)
  }

  /** The list with the first record of serial `sn` unlinked: one record
      shorter when the serial is present, the same list when it is absent. */
  function Without(books: seq<Book>, sn: nat): (r: seq<Book>)
    ensures sn !in Serials(books) ==> r == books
    ensures |r| == if sn in Serials(books) then |books| - 1 else |books|
  {
    if books == [] then []
    else if books[0].sn == sn then books[1..]
    else [books[0]] + Without(books[1..], sn)
  }

  /** A record with the fields selected by `opflag` taken from `data`; it
      keeps its serial, and a word with no update bit changes nothing. */
  function Patch(b: Book, data: Book, opflag: bv32): (r: Book)
    ensures r.sn == b.sn
    ensures opflag & (UpdName | UpdPrice | UpdQuant) == 0 ==> r == b
  {
    Book(b.sn,
         if Has(opflag, UpdName) then data.name else b.name,
         if Has(opflag, UpdPrice) then data.price else b.price,
         if Has(opflag, UpdQuant) then data.quantity else b.quantity)
  }

  /** The list with the first record of serial `data.sn` patched: the same
      length, and the same list when the serial is absent. */
  function Updated(books: seq<Book>, data: Book, opflag: bv32): (r: seq<Book>)
    ensures |r| == |books|
    ensures data.sn !in Serials(books) ==> r == books
  {
    if books == [] then []
    else if books[0].sn == data.sn then [Patch(books[0], data, opflag)] + books[1..]
    else [books[0]] + Updated(books[1..], data, opflag)
  }

  lemma {:induction false} LookupAt(books: seq<Book>, sn: nat, i: nat)
    requires FirstAt(books, sn, i)
    ensures Lookup(books, sn) == Some(books[i])
  {
    if i > 0 {
      LookupAt(books[1..], sn, i - 1);
    }
  }

  lemma {:induction false} WithoutAt(books: seq<Book>, sn: nat, i: nat)
    requires FirstAt(books, sn, i)
    ensures Without(books, sn) == books[..i] + books[i + 1..]
  {
    if i > 0 {
      WithoutAt(books[1..], sn, i - 1);
      assert books[1..][..i - 1] == books[1..i];
      assert books[1..][i..] == books[i + 1..];
      assert [books[0]] + books[1..i] == books[..i];
    }
  }

  lemma {:induction false} UpdatedAt(books: seq<Book>, data: Book, opflag: bv32, i: nat)
    requires FirstAt(books, data.sn, i)
    ensures Updated(books, data, opflag) == books[i := Patch(books[i], data, opflag)]
  {
    if i > 0 {
      UpdatedAt(books[1..], data, opflag, i - 1);
    }
  }

  /** Unlinking one record from a list of distinct serials removes exactly that
      serial and keeps the others distinct. */
  lemma {:induction false} WithoutKeepsDistinct(books: seq<Book>, sn: nat)
    requires DistinctSerials(books)
    ensures Serials(Without(books, sn)) == Serials(books) - {sn}
    ensures DistinctSerials(Without(books, sn))
    ensures |Without(books, sn)| == if sn in Serials(books) then |books| - 1 else |books|
  {
    if books != [] {
      WithoutKeepsDistinct(books[1..], sn);
      SerialsMembership(books[1..], books[0].sn);
      if books[0].sn != sn {
        var rest := Without(books[1..], sn);
        SerialsMembership(rest, books[0].sn);
        forall i, j | 0 <= i < j < |[books[0]] + rest|
          ensures ([books[0]] + rest)[i].sn != ([books[0]] + rest)[j].sn
        {
          if i == 0 {
            assert ([books[0]] + rest)[j] == rest[j - 1];
          }
        }
      }
    }
  }

  /** Patching a record changes no serial and no length. */
  lemma {:induction false} UpdatedKeepsSerials(books: seq<Book>, data: Book, opflag: bv32)
    ensures |Updated(books, data, opflag)| == |books|
    ensures forall i :: 0 <= i < |books| ==> Updated(books, data, opflag)[i].sn == books[i].sn
  {
    if books != [] && books[0].sn != data.sn {
      UpdatedKeepsSerials(books[1..], data, opflag);
      var r := Updated(books, data, opflag);
      forall i | 0 < i < |books| ensures r[i].sn == books[i].sn {
        assert r[i] == Updated(books[1..], data, opflag)[i - 1];
      }
    }
  }

  lemma SameSerials(a: seq<Book>, b: seq<Book>)
    requires |a| == |b|
    requires forall i :: 0 <= i < |a| ==> a[i].sn == b[i].sn
    ensures Serials(a) == Serials(b)
    decreases |a|
  {
    if a != [] {
      SameSerials(a[1..], b[1..]);
    }
  }

  // ---------------------------------------------------------------------
  // The abstract store and the meaning of the entry point

  /** The list (head first), the count `n` and the serials in the index. */
  datatype Store = Store(books: seq<Book>, n: int, index: set<nat>)

  /** Status, store afterwards, and the caller's record afterwards. */
  datatype Outcome = Outcome(status: Status, store: Store, out: Book)

  /** The invariant the two structures must keep between operations. */
  predicate Consistent(s: Store) {
    && s.n == |s.books|
    && DistinctSerials(s.books)
    && s.index == Serials(s.books)
  }

  const Empty: Store := Store([], 0, {})

  /** Delete branch: index check, list walk, unlink. A failure changes nothing. */
  function ApplyDelete(s: Store, data: Book): (o: Outcome)
    ensures o.out == data
    ensures o.status != Success ==> o.store == s
    ensures o.status == Success <==> data.sn in s.index && data.sn in Serials(s.books)
  {
    if data.sn !in s.index then Outcome(BookNonexist, s, data)
    else if Lookup(s.books, data.sn).None? then Outcome(MapInconsist, s, data)
    else Outcome(Success, Store(Without(s.books, data.sn), s.n - 1, s.index - {data.sn}), data)
  }

  /** Insert branch: index check, then the record at the head. A failure
      changes nothing. */
  function ApplyInsert(s: Store, data: Book): (o: Outcome)
    ensures o.out == data
    ensures o.status != Success ==> o.store == s
    ensures o.status == Success <==> data.sn !in s.index
    ensures o.status == Success ==>
      |o.store.books| == |s.books| + 1 && o.store.books[0] == data && o.store.books[1..] == s.books
  {
    if data.sn in s.index then Outcome(BookExist, s, data)
    else Outcome(Success, Store([data] + s.books, s.n + 1, s.index + {data.sn}), data)
  }

  /** Query branch: index check, list walk, copy out. It never changes the store. */
  function ApplyQuery(s: Store, data: Book): (o: Outcome)
    ensures o.store == s
    ensures o.status != Success ==> o.out == data
    ensures o.status == Success <==> data.sn in s.index && data.sn in Serials(s.books)
    ensures o.status == Success ==> o.out in s.books
  {
    if data.sn !in s.index then Outcome(BookNonexist, s, data)
    else match Lookup(s.books, data.sn)
      case None => Outcome(MapInconsist, s, data)
      case Some(b) => Outcome(Success, s, Book(data.sn, b.name, b.price, b.quantity))
  }

  /** Update branch: index check, list walk, patch. A failure changes nothing,
      and the count and index never change. */
  function ApplyUpdate(s: Store, data: Book, opflag: bv32): (o: Outcome)
    ensures o.out == data
    ensures o.status != Success ==> o.store == s
    ensures o.status == Success <==> data.sn in s.index && data.sn in Serials(s.books)
    ensures o.store.n == s.n && o.store.index == s.index && |o.store.books| == |s.books|
  {
    if data.sn !in s.index then Outcome(BookNonexist, s, data)
    else if Lookup(s.books, data.sn).None? then Outcome(MapInconsist, s, data)
    else Outcome(Success, Store(Updated(s.books, data, opflag), s.n, s.index), data)
  }

  /** What one call of the entry point does, for any store, consistent or not:
      the index is asked first, and a serial the index holds but the list walk
      does not find is reported as MapInconsist, with nothing changed. */
  function Apply(s: Store, data: Book, opflag: bv32): (o: Outcome)
    ensures o.status != Success ==> o.store == s
    ensures opflag != QryBook ==> o.out == data
    ensures o.status == InvalidArg <==> Classify(opflag) == Rejected
  {
    match Classify(opflag)
    case Rejected => Outcome(InvalidArg, s, data)
    case Delete => ApplyDelete(s, data)
    case Insert => ApplyInsert(s, data)
    case Query => ApplyQuery(s, data)
    case Update => ApplyUpdate(s, data, opflag)
  }

  // ---------------------------------------------------------------------
  // Properties of the entry point

  /** A flag word that is zero, or that combines delete, insert or query with
      any other bit, is rejected and changes nothing. */
  lemma RejectedFlagsChangeNothing(s: Store, data: Book, opflag: bv32)
    requires || opflag == 0
             || (Has(opflag, DelBook) && opflag != DelBook)
             || (Has(opflag, NewBook) && opflag != NewBook)
             || (Has(opflag, QryBook) && opflag != QryBook)
    ensures Apply(s, data, opflag) == Outcome(InvalidArg, s, data)
  {
  }

  /** Insert: a serial already indexed is refused with nothing changed;
      otherwise the record goes to the head, the count and index grow, and the
      store stays consistent. */
  lemma InsertMeaning(s: Store, data: Book)
    requires Consistent(s)
    ensures var o := Apply(s, data, NewBook);
      && (data.sn in Serials(s.books) ==> o == Outcome(BookExist, s, data))
      && (data.sn !in Serials(s.books) ==>
            && o.status == Success && o.out == data
            && o.store.books == [data] + s.books
            && o.store.n == s.n + 1
            && o.store.index == s.index + {data.sn}
            && Consistent(o.store))
  {
    var o := Apply(s, data, NewBook);
    if data.sn !in Serials(s.books) {
      SerialsMembership(s.books, data.sn);
      assert Serials(o.store.books) == {data.sn} + Serials(s.books) by {
        assert o.store.books[1..] == s.books;
      }
      forall i, j | 0 <= i < j < |o.store.books| ensures o.store.books[i].sn != o.store.books[j].sn {
        if i == 0 {
          assert o.store.books[j] == s.books[j - 1];
        } else {
          assert o.store.books[i] == s.books[i - 1] && o.store.books[j] == s.books[j - 1];
        }
      }
    }
  }

  /** Delete: an absent serial is reported with nothing changed; a present one
      is unlinked at the place the walk finds it, the others keep their order,
      the index loses the serial, the count drops and consistency is kept. */
  lemma DeleteMeaning(s: Store, data: Book)
    requires Consistent(s)
    ensures var o := Apply(s, data, DelBook);
      && (data.sn !in Serials(s.books) ==> o == Outcome(BookNonexist, s, data))
      && (data.sn in Serials(s.books) ==>
            && o.status == Success && o.out == data
            && (exists i: nat :: FirstAt(s.books, data.sn, i) &&
                  o.store.books == s.books[..i] + s.books[i + 1..])
            && o.store.n == s.n - 1
            && o.store.index == s.index - {data.sn}
            && Consistent(o.store))
  {
    if data.sn in Serials(s.books) {
      var i := FindFirst(s.books, data.sn);
      WithoutAt(s.books, data.sn, i);
      WithoutKeepsDistinct(s.books, data.sn);
    }
  }

  /** Update: an absent serial is reported; for a present one only the fields
      whose bits are set change, in that record alone; the serial, the count,
      the index and every other record stay as they were. */
  lemma UpdateMeaning(s: Store, data: Book, opflag: bv32)
    requires Consistent(s)
    requires Classify(opflag) == Update
    ensures var o := Apply(s, data, opflag);
      && (data.sn !in Serials(s.books) ==> o == Outcome(BookNonexist, s, data))
      && (data.sn in Serials(s.books) ==>
            && o.status == Success && o.out == data
            && o.store.n == s.n && o.store.index == s.index
            && |o.store.books| == |s.books|
            && (forall j :: 0 <= j < |s.books| && s.books[j].sn != data.sn ==>
                  o.store.books[j] == s.books[j])
            && (forall j :: 0 <= j < |s.books| && s.books[j].sn == data.sn ==>
                  && o.store.books[j].sn == data.sn
                  && o.store.books[j].name == (if Has(opflag, UpdName) then data.name else s.books[j].name)
                  && o.store.books[j].price == (if Has(opflag, UpdPrice) then data.price else s.books[j].price)
                  && o.store.books[j].quantity == (if Has(opflag, UpdQuant) then data.quantity else s.books[j].quantity))
            && Consistent(o.store))
  {
    if data.sn in Serials(s.books) {
      var i := FindFirst(s.books, data.sn);
      UpdatedAt(s.books, data, opflag, i);
      var o := Apply(s, data, opflag);
      forall j | 0 <= j < |s.books| && s.books[j].sn == data.sn ensures j == i {
      }
      UpdatedKeepsSerials(s.books, data, opflag);
      SameSerials(o.store.books, s.books);
    }
  }

  /** Query: a present serial yields that record's name, price and quantity;
      an absent one is reported; neither changes the store. */
  lemma QueryMeaning(s: Store, data: Book)
    requires Consistent(s)
    ensures var o := Apply(s, data, QryBook);
      && o.store == s
      && (data.sn !in Serials(s.books) ==> o.status == BookNonexist && o.out == data)
      && (data.sn in Serials(s.books) ==> o.status == Success && o.out in s.books)
      && (forall j :: 0 <= j < |s.books| && s.books[j].sn == data.sn ==>
            o.status == Success && o.out == s.books[j])
  {
    if data.sn in Serials(s.books) {
      var i := FindFirst(s.books, data.sn);
      LookupAt(s.books, data.sn, i);
      forall j | 0 <= j < |s.books| && s.books[j].sn == data.sn ensures j == i {
      }
      assert Apply(s, data, QryBook).out == s.books[i];
    } else {
      SerialsMembership(s.books, data.sn);
    }
  }

  /** The first position of a serial the list holds. */
  lemma FindFirst(books: seq<Book>, sn: nat) returns (i: nat)
    requires sn in Serials(books)
    ensures FirstAt(books, sn, i)
  {
    SerialsMembership(books, sn);
    var k :| 0 <= k < |books| && books[k].sn == sn;
    i := 0;
    while books[i].sn != sn
      invariant i <= k
      invariant forall j :: 0 <= j < i ==> books[j].sn != sn
      decreases k - i
    {
      i := i + 1;
    }
  }

  /** A consistent store stays consistent under every operation, and the
      MapInconsist outcome never arises from it. */
  lemma {:induction false} ApplyKeepsConsistent(s: Store, data: Book, opflag: bv32)
    requires Consistent(s)
    ensures Consistent(Apply(s, data, opflag).store)
    ensures Apply(s, data, opflag).status != MapInconsist
  {
    match Classify(opflag)
    case Rejected =>
    case Delete => DeleteMeaning(s, data);
    case Insert => InsertMeaning(s, data);
    case Query => QueryMeaning(s, data);
    case Update => UpdateMeaning(s, data, opflag);
  }

  /** MapInconsist is reported only when the index holds a serial the list
      lacks, and then nothing is changed. */
  lemma InconsistencyIsDetected(s: Store, data: Book, opflag: bv32)
    ensures Apply(s, data, opflag).status == MapInconsist ==>
      && data.sn in s.index && data.sn !in Serials(s.books)
      && Apply(s, data, opflag).store == s
  {
  }
  /** A stored record is what a query for its serial yields. */
  lemma QueryFindsStored(s: Store, data: Book, j: nat)
    requires Consistent(s)
    requires j < |s.books| && s.books[j].sn == data.sn
    ensures Apply(s, data, QryBook) == Outcome(Success, s, s.books[j])
  {
    QueryMeaning(s, data);
  }

  /** Inserting the records one after another, each at the head. */
  function InsertAll(s: Store, recs: seq<Book>): Store
    decreases |recs|
  {
    if recs == [] then s else InsertAll(Apply(s, recs[0], NewBook).store, recs[1..])
  }

  /** Inserting records whose serials are distinct and new gives a consistent
      store whose count grew by their number, that still holds every record it
      held, and that holds each inserted record as it was written. */
  lemma {:induction false} InsertAllKeepsRecords(s: Store, recs: seq<Book>)
    requires Consistent(s)
    requires DistinctSerials(recs)
    requires forall i :: 0 <= i < |recs| ==> recs[i].sn !in Serials(s.books)
    ensures var r := InsertAll(s, recs);
      && Consistent(r)
      && r.n == s.n + |recs|
      && (forall b :: b in s.books ==> b in r.books)
      && (forall i :: 0 <= i < |recs| ==> recs[i] in r.books)
    decreases |recs|
  {
    if recs != [] {
      InsertMeaning(s, recs[0]);
      var s1 := Apply(s, recs[0], NewBook).store;
      var rest := recs[1..];
      forall i | 0 <= i < |rest| ensures rest[i].sn !in Serials(s1.books) {
        assert rest[i] == recs[i + 1];
      }
      InsertAllKeepsRecords(s1, rest);
      var r := InsertAll(s, recs);
      assert r == InsertAll(s1, rest);
      forall i | 0 <= i < |recs| ensures recs[i] in r.books {
        if i == 0 {
          assert recs[0] == s1.books[0];
        } else {
          assert recs[i] == rest[i - 1];
        }
      }
    }
  }

  /** From an empty store, inserting records with distinct serials leaves the
      count equal to their number, and a query for each serial yields that
      record's fields. */
  lemma InsertedRecordsAreQueryable(recs: seq<Book>)
    requires DistinctSerials(recs)
    ensures var r := InsertAll(Empty, recs);
      && r.n == |recs| && |r.books| == |recs|
      && forall i :: 0 <= i < |recs| ==>
           Apply(r, Book(recs[i].sn, [], 0, 0), QryBook) == Outcome(Success, r, recs[i])
  {
    InsertAllKeepsRecords(Empty, recs);
    var r := InsertAll(Empty, recs);
    forall i | 0 <= i < |recs|
      ensures Apply(r, Book(recs[i].sn, [], 0, 0), QryBook) == Outcome(Success, r, recs[i])
    {
      var j :| 0 <= j < |r.books| && r.books[j] == recs[i];
      QueryFindsStored(r, Book(recs[i].sn, [], 0, 0), j);
    }
  }
}

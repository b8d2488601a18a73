// The book list: a list of records (head first), its count and its serial
// index, changed in place by the one entry point `Op`.
module Store {
  import opened Catalog
  import opened Index
  import DataFile

  class BookList {
    var n: nat
    var name: string
    var books: seq<Book>
    /** The index this list keeps in step with; the pointer is never replaced. */
    const index: SerialIndex

    /** The list, the count and the indexed serials as one value. */
    ghost function Abstract(): Store
      reads this, index
    {
      Store(books, n, index.Elems)
    }

    /** The index is well formed and agrees with the list; the count is the
        length of the list; serials in the list are distinct. */
    ghost predicate Valid()
      reads this, index, index.buckets
    {
      index.Valid() && Consistent(Abstract())
    }

    /** An empty list with an empty index. */
    constructor (listName: string)
      ensures Valid() && fresh(index) && fresh(index.buckets)
      ensures books == [] && n == 0 && name == listName
    {
      n := 0;
      name := listName;
      books := [];
      index := new SerialIndex();
    }

    /** The lines the save routine writes for this list; the count it declares
        is the number of record lines that follow. */
    function SavedLines(): (lines: seq<string>)
      reads this, index, index.buckets
      requires Valid()
      ensures |lines| == n + 2
      ensures lines[0] == DataFile.HeaderLine()
      ensures lines[1] == DataFile.CountLine(name, n)
      ensures forall i :: 0 <= i < n ==> lines[i + 2] == DataFile.RecordLine(books[i])
    {
      DataFile.SerialiseLayout(name, n, books);
      DataFile.Serialise(name, n, books)
    }

    /** The entry point: the flag word selects delete, insert, query or update
        of the record whose serial `data` carries. Returns the status and the
        caller's record afterwards (on a successful query, the stored fields). */
    method Op(data: Book, opflag: bv32) returns (status: Status, out: Book)
      requires Valid()
      modifies this, index, index.buckets
      ensures Valid() && name == old(name)
      ensures Outcome(status, Abstract(), out) == Apply(old(Abstract()), data, opflag)
    {
      ghost var before := Abstract();
      ApplyKeepsConsistent(before, data, opflag);
      out := data;
      if opflag == 0 {
        status := InvalidArg;
      } else if opflag & DelBook != 0 {
        if opflag ^ DelBook != 0 {
          status := InvalidArg;
        } else {
          status := Delete(data);
        }
      } else if opflag & NewBook != 0 {
        if opflag ^ NewBook != 0 {
          status := InvalidArg;
        } else {
          status := Insert(data);
        }
      } else if opflag & QryBook != 0 {
        if opflag ^ QryBook != 0 {
          status := InvalidArg;
        } else {
          status, out := Query(data);
        }
      } else {
        status := Update(data, opflag);
      }
    }

    /** Delete branch. */
    method Delete(data: Book) returns (status: Status)
      requires Valid()
      modifies this, index, index.buckets
      ensures index.Valid() && name == old(name)
      ensures Outcome(status, Abstract(), data) == ApplyDelete(old(Abstract()), data)
    {
      var present := index.Query(data.sn);
      if !present {
        return BookNonexist;
      }
      // The head exists: the index holds the serial, so the list holds it too.
      if books[0].sn == data.sn {
        WithoutAt(books, data.sn, 0);
        books := books[1..];
        index.Remove(data.sn);
        n := n - 1;
        return Success;
      }
      var i := 0;
      while i < |books| && books[i].sn != data.sn
        invariant 0 <= i <= |books|
        invariant forall j :: 0 <= j < i ==> books[j].sn != data.sn
      {
        i := i + 1;
      }
      if i == |books| {
        SerialsMembership(books, data.sn);
        return MapInconsist;
      }
      WithoutAt(books, data.sn, i);
      books := books[..i] + books[i + 1..];
      index.Remove(data.sn);
      n := n - 1;
      return Success;
    }

    /** Insert branch: the record (with its own copy of the name) becomes the head. */
    method Insert(data: Book) returns (status: Status)
      requires index.Valid()
      modifies this, index, index.buckets
      ensures index.Valid() && name == old(name)
      ensures Outcome(status, Abstract(), data) == ApplyInsert(old(Abstract()), data)
    {
      var present := index.Query(data.sn);
      if present {
        return BookExist;
      }
      index.Append(data.sn);
      books := [data] + books;
      n := n + 1;
      return Success;
    }

    /** Query branch: copies out the stored name, price and quantity. */
    method Query(data: Book) returns (status: Status, out: Book)
      requires index.Valid()
      ensures Outcome(status, Abstract(), out) == ApplyQuery(Abstract(), data)
    {
      out := data;
      var present := index.Query(data.sn);
      if !present {
        return BookNonexist, out;
      }
      var i := 0;
      while i < |books| && books[i].sn != data.sn
        invariant 0 <= i <= |books|
        invariant forall j :: 0 <= j < i ==> books[j].sn != data.sn
      {
        i := i + 1;
      }
      if i == |books| {
        SerialsMembership(books, data.sn);
        return MapInconsist, out;
      }
      LookupAt(books, data.sn, i);
      out := Book(data.sn, books[i].name, books[i].price, books[i].quantity);
      return Success, out;
    }

    /** Update branch: overwrites the fields whose bits are set. */
    method Update(data: Book, opflag: bv32) returns (status: Status)
      requires index.Valid()
      modifies this
      ensures name == old(name)
      ensures Outcome(status, Abstract(), data) == ApplyUpdate(old(Abstract()), data, opflag)
    {
      var present := index.Query(data.sn);
      if !present {
        return BookNonexist;
      }
      var i := 0;
      while i < |books| && books[i].sn != data.sn
        invariant 0 <= i <= |books|
        invariant forall j :: 0 <= j < i ==> books[j].sn != data.sn
      {
        i := i + 1;
      }
      if i == |books| {
        SerialsMembership(books, data.sn);
        return MapInconsist;
      }
      UpdatedAt(books, data, opflag, i);
      var current := books[i];
      if opflag & UpdName != 0 {
        current := current.(name := data.name);
      }
      if opflag & UpdPrice != 0 {
        current := current.(price := data.price);
      }
      if opflag & UpdQuant != 0 {
        current := current.(quantity := data.quantity);
      }
      assert current == Patch(books[i], data, opflag);
      LookupAt(books, data.sn, i);
      books := books[i := current];
      return Success;
    }
  }
}

# bookman: the indexed book store

This project models the core of `bookman`, a small bookstore ledger written in C.
The store has two parts that must stay in step:

- a **book list**: a singly linked list of records `(sn, name, price, quantity)`
  with a count `n`;
- a **serial index**: a table of 10007 buckets, each a chain of serial numbers.
  A serial belongs to bucket `sn % 10007`.

One entry point, `blist_op`, takes a bit-flag word and either inserts a record
at the head, deletes one, updates any mix of name, price and quantity, or
queries one. It always asks the index first. If the index holds a serial that
the list walk then fails to find, it returns `MAP_INCONSIST`. The model also
covers the line layout the save routine writes.

Files:

- `index.dfy` (module `Index`): class `SerialIndex`. Its `buckets` field is an
  `array<seq<nat>>` of length 10007, one chain per bucket, head first. A ghost
  set `Elems` is its public view. `Valid()` says three things: every serial sits
  in the bucket of its hash, no chain holds a serial twice, and `Elems` is what
  the chains hold. `Query`, `Append` and `Remove` walk a chain with a loop.
- `catalog.dfy` (module `Catalog`): the values and the reference meaning.
  - Values: `Book`, `Status` (with the program's integer codes), the six flag
    bits and `Classify`, the flag dispatch.
  - `Apply`: what one call does to an abstract `Store` (list, count and set of
    indexed serials). It is defined for every store, consistent or not.
  - Lemmas: what each operation means, and that `Consistent` (index = serials
    of the list, `n` = length, serials distinct) is preserved.
- `store.dfy` (module `Store`): class `BookList` with fields `n`, `name`,
  `books: seq<Book>` and `index: SerialIndex`. `Op` is `blist_op`. It
  dispatches on the flags to one method per branch, and each branch walks the
  list with a loop. Every method is proved equal to `Apply` on the old state.
- `datafile.dfy` (module `DataFile`): the text the save routine writes, as a
  pure function from list name, count and records to lines.

Modelling decisions:

- `opflag` is a `bv32`: the bit pattern of the C `int`. The test
  `opflag ^ X` is non-zero exactly when `opflag != X`, and the model writes it
  with `^` as the code does.
- The update branch takes every non-zero word without the delete, insert or
  query bit. A word such as `64`, which has no `UPD_*` bit, therefore reaches
  the update branch. If the serial is present it returns `SUCCESS` and changes
  nothing. The model keeps this behaviour.
- The record name is a value (`string`), so the store's copy is independent of
  the caller's. This covers the `malloc`/`strcpy` copy on insert and the name
  replacement on update.
- The delete, query and update branches first search for the record, then change
  it. The C code changes the record inside the loop and returns from there; the
  effect is the same.
- `Op` requires `Valid()`. The delete branch reads the list head without a
  null check, and that is safe only when the index agrees with the list. The
  model reads `books[0]` there unguarded, and the verifier proves it in bounds
  from the invariant. `ApplyKeepsConsistent` shows that `MAP_INCONSIST` never
  arises from a consistent store. `InconsistencyIsDetected` shows that when
  `MAP_INCONSIST` is returned, nothing has changed.
- The index chains follow the intended behaviour:
  - the query walk advances along the chain. As written, `snmap_query` never
    advances, so it loops forever on a chain whose head is not the serial
    (bookman.c:675-681);
  - append compares every node, including the last. As written, a one-node
    chain is compared (bookman.c:649), but in a chain of two or more nodes
    the last node is never compared (bookman.c:654-663);
  - remove stops after unlinking the serial. As written, a match at the head
    is unlinked and the call returns (bookman.c:697-701), but after a match
    further down the walk goes on through the freed node (bookman.c:709-715).

## Model

| member | source | states |
|---|---|---|
| Index.Hash | bookman.c:598-601 | the bucket of a serial is always below the table size 10007, so every bucket access is in bounds |
| Index.SerialIndex.constructor | bookman.c:603-612 | a new index has all chains empty and holds no serial |
| Index.SerialIndex.Query | bookman.c:671-683 | the chain walk answers true exactly when the serial is in the index |
| Index.SerialIndex.Append | bookman.c:641-669 | a serial already in its chain leaves the chain unchanged; otherwise it is added at the tail of its own bucket; all other buckets are unchanged; afterwards the index holds the serial; the index invariant is kept |
| Index.SerialIndex.Remove | bookman.c:685-718 | an absent serial changes nothing; a present one is unlinked from its chain, and the rest of that chain keeps its order; other buckets are unchanged; afterwards the index lacks the serial |
| Catalog.Status.Code | bookman.c:15-19 | the return codes are 0 for success and negative for each failure, and 0 only for success |
| Catalog.CodesDistinct | bookman.c:15-19 | distinct outcomes are reported with distinct integers |
| Catalog.Classify | bookman.c:461-470 | a zero word, or a delete/insert/query bit combined with any other bit, is rejected; exactly the single words DEL_BOOK, NEW_BOOK and QRY_BOOK select delete, insert and query; every other non-zero word without those bits selects update |
| Catalog.Lookup | bookman.c:547-558 | the walk finds a record exactly when the serial is in the list, and what it finds is a record of the list with that serial |
| Catalog.Without | bookman.c:478-505 | definition of the unlink; an absent serial leaves the list as it is, a present one shortens it by one; characterised by WithoutAt and WithoutKeepsDistinct |
| Catalog.Patch | bookman.c:574-587 | definition of the field overwrite; the serial is kept and a word with no update bit changes nothing; characterised by UpdateMeaning |
| Catalog.Updated | bookman.c:568-590 | definition of the update walk; the length is kept and an absent serial changes nothing; characterised by UpdatedAt and UpdatedKeepsSerials |
| Catalog.ApplyDelete | bookman.c:471-509 | definition of the delete branch; the caller's record is untouched, a failure changes nothing, and success happens exactly when both index and list hold the serial; characterised by DeleteMeaning |
| Catalog.ApplyInsert | bookman.c:517-533 | definition of the insert branch; the caller's record is untouched, a failure changes nothing, success happens exactly when the index lacks the serial, and then the record is the new head in front of the old list; characterised by InsertMeaning |
| Catalog.ApplyQuery | bookman.c:542-559 | definition of the query branch; the store never changes, a failure leaves the caller's record as it is, success happens exactly when both index and list hold the serial, and then a stored record is returned; characterised by QueryMeaning |
| Catalog.ApplyUpdate | bookman.c:562-593 | definition of the update branch; the caller's record is untouched, a failure changes nothing, count, index and length never change, success happens exactly when both index and list hold the serial; characterised by UpdateMeaning |
| Catalog.Apply | bookman.c:459-594 | definition of the entry point on an abstract store; a failure changes nothing, only a query changes the caller's record, and INVALID_ARG is returned exactly for the rejected flag words; characterised by the Meaning lemmas and ApplyKeepsConsistent |
| Catalog.LookupAt | bookman.c:548-556 | the record the walk yields is the one at the first position holding the serial |
| Catalog.WithoutAt | bookman.c:478-505 | unlinking the first record with the serial equals splicing out that position, the records before and after keeping their order |
| Catalog.UpdatedAt | bookman.c:568-590 | the update patches exactly the record at the first position holding the serial |
| Catalog.WithoutKeepsDistinct | bookman.c:478-505 | in a list of distinct serials, unlinking removes exactly that serial, shortens the list by one when it was present and keeps the serials distinct |
| Catalog.UpdatedKeepsSerials | bookman.c:572-590 | an update changes neither the length of the list nor the serial at any position |
| Catalog.RejectedFlagsChangeNothing | bookman.c:461-470 | the four rejected flag patterns return INVALID_ARG and leave list, count, index and caller's record unchanged (also bookman.c:511-516 and bookman.c:535-539) |
| Catalog.InsertMeaning | bookman.c:511-534 | inserting an indexed serial returns BOOK_EXIST with nothing changed; otherwise it returns SUCCESS, puts the record at the head, raises the count by one, adds the serial to the index and keeps the store consistent |
| Catalog.DeleteMeaning | bookman.c:465-510 | deleting an absent serial returns BOOK_NONEXIST with nothing changed; deleting a present one returns SUCCESS, splices out its first position keeping the others' order, drops the serial from the index, lowers the count and keeps the store consistent |
| Catalog.UpdateMeaning | bookman.c:560-593 | updating an absent serial returns BOOK_NONEXIST with nothing changed; for a present one only the flagged fields of that record change, while its serial, its unflagged fields, every other record, the count and the index stay the same |
| Catalog.QueryMeaning | bookman.c:535-559 | a query never changes the store; an absent serial returns BOOK_NONEXIST, and a present one returns SUCCESS with exactly the stored record |
| Catalog.ApplyKeepsConsistent | bookman.c:459-594 | every operation on a consistent store yields a consistent store and never returns MAP_INCONSIST |
| Catalog.InconsistencyIsDetected | bookman.c:508 | MAP_INCONSIST is returned only when the index holds a serial the list lacks, and then nothing is changed (also bookman.c:559 and bookman.c:592) |
| Catalog.QueryFindsStored | bookman.c:542-556 | in a consistent store, querying the serial of any stored record returns SUCCESS and that record |
| Catalog.InsertAllKeepsRecords | bookman.c:517-533 | inserting records with distinct new serials one after another keeps the store consistent, raises the count by their number, keeps every earlier record and stores each new one as given |
| Catalog.InsertedRecordsAreQueryable | bookman.c:517-558 | starting empty, after inserting records with distinct serials the count equals their number and querying any of their serials returns that record |
| Store.BookList.constructor | bookman.c:427-437 | a new list is empty, has count 0 and a fresh empty index |
| Store.BookList.SavedLines | bookman.c:721-770 | the lines saved for a valid list start with the format line, declare a count equal to the number of record lines that follow, one line per record in list order |
| Store.BookList.Op | bookman.c:459-594 | the status, the new list, count and index, and the caller's record all equal the reference meaning on the old state, and the store invariant is kept |
| Store.BookList.Delete | bookman.c:471-509 | the delete branch (index check, head case, walk, splice, index removal, count decrement) matches the reference meaning |
| Store.BookList.Insert | bookman.c:517-533 | the insert branch (index check, index append, prepend, count increment) matches the reference meaning |
| Store.BookList.Query | bookman.c:542-559 | the query walk returns exactly the reference meaning's status and copied-out fields, including MAP_INCONSIST when the index and the list disagree |
| Store.BookList.Update | bookman.c:562-593 | the update walk overwrites exactly the flagged fields of the found record and matches the reference meaning |
| DataFile.Decimal | bookman.c:758 | a written number is a non-empty run of decimal digits with no leading zero except for 0 |
| DataFile.DecimalDenotesValue | bookman.c:758 | the digits written for a number denote that number |
| DataFile.HeaderLine | bookman.c:736 | definition of the format line; it splits into the two fields `bookman` and the version |
| DataFile.HeaderText | bookman.c:22 | the format line for version 0.0.1 is `bookman 0.0.1` |
| DataFile.CountLine | bookman.c:744 | definition of the list line; for a list name without spaces it splits into the two fields name and count |
| DataFile.RecordLine | bookman.c:758 | definition of a record line; for a name without spaces it splits into exactly the four fields serial, name, price, quantity |
| DataFile.RecordLineFields | bookman.c:758 | the four fields of a record line whose name has no space are the name and three digit strings that denote the record's serial, price and quantity |
| DataFile.RecordLines | bookman.c:756-769 | definition of the record part; one line per record |
| DataFile.Serialise | bookman.c:736-769 | definition of the whole file; two lines more than records, the first the format line; characterised by SerialiseLayout |
| DataFile.SerialiseLayout | bookman.c:736-769 | the file is the format line, then the list name and count, then one record line per record in list order |

## Left out

- The interactive shell (`main`) is not modelled: reading commands, tokenising them, parsing numbers and printing messages are input and output around `blist_op`.
- `error_die` is not modelled: it terminates the process.
- Allocation and release (`book_create`, `snmap_node_create`, `book_destroy`, `blist_destroy`, `snmap_destroy`) are not modelled. Dafny values and garbage collection take their place, and creation is the two constructors.
- File input and output are not modelled: `fopen`, `fprintf`, `fscanf`, `fclose` and `errno`. `save_data` is modelled only as the text it writes, `DataFile.Serialise`.
- `read_data` is not modelled. It does not read what `save_data` writes: it expects another format tag, reads records from standard input, and passes the count by value. So no save/load round trip is claimed.
- The save loop never moves to the next record. The model writes each record once, as intended.
- Sorting and selling appear only in the help text. The source has no implementation of them.
- Serials, prices, quantities and the count are unbounded `nat`s. The model does not capture the 32-bit `unsigned int` range or the `%d`/unsigned mismatch in printing.
- The list name's and book name's bound of 256 characters is left to the shell and not modelled.
- Store.BookList.Op: requires the store invariant. The C delete branch reads the head of an empty list when the index and list disagree, and its behaviour there is undefined; `Apply` reports `MAP_INCONSIST` for that case instead.
- The C defects in the chain code are not reproduced: the query loop never advances; append skips the last node of a chain of two or more nodes; remove walks on through a freed node after a match that is not at the head. The same goes for the name-update allocation, which is one byte short. The intended behaviour is modelled instead.

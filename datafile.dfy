// The line layout of the data file the store saves: a format line with the
// version, a line with the list name and count, then one line per record in
// list order. Only the text is modelled; opening, writing and closing the file
// are not.
module DataFile {
  import opened Catalog

  const Version: string := "0.0.1"

  predicate IsDigits(s: string) {
    forall i :: 0 <= i < |s| ==> '0' <= s[i] <= '9'
  }

  function DigitChar(d: nat): (c: char)
    requires d < 10
  {
    ('0' as int + d) as char
  }

  /** The decimal text `%d` writes for a non-negative value: digits only,
      never empty, and no leading zero except for zero itself. */
  function Decimal(x: nat): (s: string)
    ensures |s| > 0 && IsDigits(s)
    ensures s[0] == '0' ==> x == 0 && s == "0"
  {
    if x < 10 then [DigitChar(x)] else Decimal(x / 10) + [DigitChar(x % 10)]
  }

  /** The number a string of decimal digits denotes. */
  function Value(s: string): nat
    requires IsDigits(s)
  {
    if s == [] then 0 else Value(s[..|s| - 1]) * 10 + (s[|s| - 1] as int - '0' as int)
  }

  /** The decimal text denotes the value it was written for. */
  lemma {:induction false} DecimalDenotesValue(x: nat)
    ensures Value(Decimal(x)) == x
  {
    if x >= 10 {
      DecimalDenotesValue(x / 10);
      var s := Decimal(x);
      assert s[..|s| - 1] == Decimal(x / 10);
    }
  }

  /** Space-separated fields of a line (an empty field between adjacent spaces). */
  function Split(s: string): (r: seq<string>)
    ensures |r| > 0
  {
    if s == [] then [[]]
    else
      var rest := Split(s[1..]);
      if s[0] == ' ' then [[]] + rest else [[s[0]] + rest[0]] + rest[1..]
  }

  lemma {:induction false} SplitNoSpace(a: string)
    requires ' ' !in a
    ensures Split(a) == [a]
  {
    if a != [] {
      SplitNoSpace(a[1..]);
      assert [a[0]] + a[1..] == a;
    }
  }

  lemma {:induction false} SplitJoin(a: string, b: string)
    requires ' ' !in a
    ensures Split(a + " " + b) == [a] + Split(b)
  {
    if a == [] {
      assert a + " " + b == [' '] + b;
      assert (a + " " + b)[1..] == b;
    } else {
      SplitJoin(a[1..], b);
      assert (a + " " + b)[1..] == a[1..] + " " + b;
      assert [a[0]] + a[1..] == a;
    }
  }

  lemma DigitsHaveNoSpace(s: string)
    requires IsDigits(s)
    ensures ' ' !in s
  {
  }

  /** The format line: the two fields `bookman` and the version. */
  function HeaderLine(): (line: string)
    ensures Split(line) == ["bookman", Version]
  {
    SplitNoSpace(Version);
    SplitJoin("bookman", Version);
    assert "bookman " + Version == "bookman" + " " + Version;
    "bookman " + Version
  }

  /** The format line as written for version 0.0.1. */
  lemma HeaderText()
    ensures HeaderLine() == "bookman 0.0.1"
  {
  }

  /** The list line: for a list name without spaces, the two fields name and count. */
  function CountLine(listName: string, n: nat): (line: string)
    ensures ' ' !in listName ==> Split(line) == [listName, Decimal(n)]
  {
    var count := Decimal(n);
    DigitsHaveNoSpace(count);
    SplitNoSpace(count);
    if ' ' in listName then listName + " " + count
    else
      SplitJoin(listName, count);
      listName + " " + count
  }

  /** `<sn> <name> <price> <quantity>`: for a name without spaces, exactly
      those four fields. */
  function RecordLine(b: Book): (line: string)
    ensures ' ' !in b.name ==>
      Split(line) == [Decimal(b.sn), b.name, Decimal(b.price), Decimal(b.quantity)]
  {
    var sn, pr, qt := Decimal(b.sn), Decimal(b.price), Decimal(b.quantity);
    DigitsHaveNoSpace(sn);
    DigitsHaveNoSpace(pr);
    DigitsHaveNoSpace(qt);
    SplitNoSpace(qt);
    SplitJoin(pr, qt);
    SplitJoin(sn, b.name + " " + (pr + " " + qt));
    var line := sn + " " + b.name + " " + pr + " " + qt;
    assert line == sn + " " + (b.name + " " + (pr + " " + qt));
    if ' ' in b.name then line
    else
      SplitJoin(b.name, pr + " " + qt);
      line
  }

  /** The number fields of a record line denote the record's serial, price
      and quantity. */
  lemma RecordLineFields(b: Book)
    requires ' ' !in b.name
    ensures var fields := Split(RecordLine(b));
      && |fields| == 4 && fields[1] == b.name
      && IsDigits(fields[0]) && Value(fields[0]) == b.sn
      && IsDigits(fields[2]) && Value(fields[2]) == b.price
      && IsDigits(fields[3]) && Value(fields[3]) == b.quantity
  {
    DecimalDenotesValue(b.sn);
    DecimalDenotesValue(b.price);
    DecimalDenotesValue(b.quantity);
  }

  /** One line per record, walking the list from the head. */
  function RecordLines(books: seq<Book>): (lines: seq<string>)
    ensures |lines| == |books|
  {
    if books == [] then [] else [RecordLine(books[0])] + RecordLines(books[1..])
  }

  /** The whole file, line by line: the format line, the list line, and one
      line per record. */
  function Serialise(listName: string, n: nat, books: seq<Book>): (lines: seq<string>)
    ensures |lines| == |books| + 2
    ensures lines[0] == HeaderLine()
  {
    [HeaderLine(), CountLine(listName, n)] + RecordLines(books)
  }

  /** The file holds the format line, the count line and then, in list order,
      exactly one line per record. */
  lemma {:induction false} SerialiseLayout(listName: string, n: nat, books: seq<Book>)
    ensures var lines := Serialise(listName, n, books);
      && |lines| == |books| + 2
      && lines[0] == HeaderLine()
      && lines[1] == CountLine(listName, n)
      && forall i :: 0 <= i < |books| ==> lines[i + 2] == RecordLine(books[i])
  {
    RecordLinesAt(books);
  }

  lemma {:induction false} RecordLinesAt(books: seq<Book>)
    ensures |RecordLines(books)| == |books|
    ensures forall i :: 0 <= i < |books| ==> RecordLines(books)[i] == RecordLine(books[i])
  {
    if books != [] {
      RecordLinesAt(books[1..]);
      forall i | 0 < i < |books| ensures RecordLines(books)[i] == RecordLine(books[i]) {
        assert RecordLines(books)[i] == RecordLines(books[1..])[i - 1];
      }
    }
  }
}

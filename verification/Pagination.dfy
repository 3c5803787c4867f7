/**
 The paginated list queries: which ORDER BY is chosen, which rows a page holds, and the numbers that
 are sent with it.

 A row gives a rank to each column, so that comparing ranks is comparing values as the database does
 (NULLs included). Rows that agree on every ORDER BY column may come back in any order, and in a
 different one for each query.
 */
module Pagination {
  import opened Common

  /** Columns belong to the listed model or to the `sort_model` that the query joins. */
  datatype Owner = Own | Joined

  datatype Column = Column(owner: Owner, name: string)

  datatype OrderKey = OrderKey(column: Column, ascending: bool)

  type Row = map<Column, int>

  /** The sortable names of the model, and of the separate `sort_model` when there is one. */
  datatype Tables = Tables(own: set<string>, joined: Option<set<string>>)

  datatype Params = Params(page: int, limit: int, sort: Option<string>, order: Option<string>)

  datatype Response = Response(
    total: nat, page: int, limit: int, items: seq<Row>, hasNext: bool, hasPrevious: bool, totalPages: int)

  datatype Failure = NegativeLimit | ZeroDivision

  datatype Result<+T> = Ok(value: T) | Err(failure: Failure)

  const ID: Column := Column(Own, "id")

  // ---------------------------------------------------------------- the chosen order

  /** What `_sort_column` finds in one model. */
  function SortColumn(names: set<string>, owner: Owner, name: string): Option<Column> {
    if name in names then Some(Column(owner, name)) else None
  }

  /** `x or y` on optional text: an absent and an empty text are both passed over. */
  function Or(text: Option<string>, otherwise: string): string {
    if text.None? || text.value == "" then otherwise else text.value
  }

  /** The column a name stands for: the `sort_model`'s if it has one, else the model's. */
  function Resolve(tables: Tables, name: string): Option<Column> {
    if tables.joined.Some? && name in tables.joined.value then
      Some(Column(Joined, name))
    else
      SortColumn(tables.own, Own, name)
  }

  function Fallback(tables: Tables): Option<Column> {
    if "id" in tables.own then Some(ID) else SortColumn(tables.own, Own, "created_at")
  }

  function AsKeys(column: Option<Column>, ascending: bool): seq<OrderKey> {
    if column.Some? then [OrderKey(column.value, ascending)] else []
  }

  /** The ORDER BY list for a requested name. */
  function Chosen(tables: Tables, name: string, ascending: bool): seq<OrderKey> {
    var column := Resolve(tables, name);
    if column.None? then
      AsKeys(Fallback(tables), ascending)
    else if name == "id" || name == "created_at" then
      AsKeys(column, ascending)
    else
      AsKeys(column, ascending) + AsKeys(Fallback(tables), false)
  }

  method ChooseOrder(tables: Tables, params: Params, defaultSort: string, defaultOrder: string)
      returns (keys: seq<OrderKey>)
    ensures keys == Chosen(tables, Or(params.sort, defaultSort), Or(params.order, defaultOrder) == "asc")
  {
    var sortAttr := Or(params.sort, defaultSort);
    var orderType := Or(params.order, defaultOrder);
    var sortColumn;
    if tables.joined.Some? {
      sortColumn := SortColumn(tables.joined.value, Joined, sortAttr);
    } else {
      sortColumn := SortColumn(tables.own, Own, sortAttr);
    }
    if sortColumn.None? && tables.joined.Some? {
      sortColumn := SortColumn(tables.own, Own, sortAttr);
    }
    if sortColumn.None? {
      sortAttr := "id";
      sortColumn := SortColumn(tables.own, Own, "id");
      if sortColumn.None? {
        sortColumn := SortColumn(tables.own, Own, "created_at");
      }
    }
    keys := [];
    if sortColumn.Some? {
      keys := keys + [OrderKey(sortColumn.value, orderType == "asc")];
      if sortAttr != "id" && sortAttr != "created_at" {
        var secondary := SortColumn(tables.own, Own, "id");
        if secondary.None? {
          secondary := SortColumn(tables.own, Own, "created_at");
        }
        if secondary.Some? {
          keys := keys + [OrderKey(secondary.value, false)];
        }
      }
    }
  }

  ghost predicate HasId(keys: seq<OrderKey>) {
    exists k :: 0 <= k < |keys| && keys[k].column == ID
  }

  /** The request is ordered by a column named "id" or "created_at" that is not the model's own id. */
  predicate Untied(tables: Tables, name: string) {
    && Resolve(tables, name).Some?
    && (name == "created_at" || (name == "id" && Resolve(tables, name) != Some(ID)))
  }

  lemma ChosenHasId(tables: Tables, name: string, ascending: bool)
    requires "id" in tables.own
    ensures HasId(Chosen(tables, name, ascending)) <==> !Untied(tables, name)
  {
    var keys := Chosen(tables, name, ascending);
    if !Untied(tables, name) {
      assert keys[|keys| - 1].column == ID;
    }
  }

  // ---------------------------------------------------------------- sorted permutations

  function Value(row: Row, column: Column): int {
    if column in row then row[column] else 0
  }

  predicate Precedes(keys: seq<OrderKey>, a: Row, b: Row) {
    keys != [] &&
    var x, y := Value(a, keys[0].column), Value(b, keys[0].column);
    if x == y then Precedes(keys[1..], a, b) else (x < y) == keys[0].ascending
  }

  ghost predicate Sorted(keys: seq<OrderKey>, s: seq<Row>) {
    forall i, j :: 0 <= i < j < |s| ==> !Precedes(keys, s[j], s[i])
  }

  /** What the database may return for these rows and this ORDER BY. */
  ghost predicate IsOrder(keys: seq<OrderKey>, rows: seq<Row>, s: seq<Row>) {
    multiset(s) == multiset(rows) && Sorted(keys, s)
  }

  ghost predicate UniqueIds(rows: seq<Row>) {
    forall i, j :: 0 <= i < j < |rows| ==> Value(rows[i], ID) != Value(rows[j], ID)
  }

  lemma {:induction false} PrecedesIsStrict(keys: seq<OrderKey>, a: Row, b: Row)
    ensures !(Precedes(keys, a, b) && Precedes(keys, b, a))
    ensures !Precedes(keys, a, b) && !Precedes(keys, b, a) ==>
              forall k :: 0 <= k < |keys| ==> Value(a, keys[k].column) == Value(b, keys[k].column)
  {
    if keys == [] {
    } else {
      PrecedesIsStrict(keys[1..], a, b);
    }
  }

  lemma {:induction false} PrecedesIsTransitive(keys: seq<OrderKey>, a: Row, b: Row, c: Row)
    requires !Precedes(keys, b, a) && !Precedes(keys, c, b)
    ensures !Precedes(keys, c, a)
  {
    if keys == [] {
    } else {
      var x, y, z := Value(a, keys[0].column), Value(b, keys[0].column), Value(c, keys[0].column);
      if x == y && y == z {
        PrecedesIsTransitive(keys[1..], a, b, c);
      }
    }
  }

  /** One order that the database may return: there is always at least one. */
  ghost function SomeOrder(keys: seq<OrderKey>, rows: seq<Row>): seq<Row> {
    if rows == [] then [] else Insert(keys, rows[0], SomeOrder(keys, rows[1..]))
  }

  ghost function Insert(keys: seq<OrderKey>, row: Row, s: seq<Row>): (t: seq<Row>)
    ensures multiset(t) == multiset(s) + multiset{row}
  {
    if s == [] || Precedes(keys, row, s[0]) then
      [row] + s
    else
      assert s == [s[0]] + s[1..];
      [s[0]] + Insert(keys, row, s[1..])
  }

  lemma {:induction false} InsertKeepsSorted(keys: seq<OrderKey>, row: Row, s: seq<Row>)
    requires Sorted(keys, s)
    ensures Sorted(keys, Insert(keys, row, s))
  {
    var t := Insert(keys, row, s);
    if s == [] {
    } else if Precedes(keys, row, s[0]) {
      PrecedesIsStrict(keys, row, s[0]);
      forall j | 0 <= j < |s|
        ensures !Precedes(keys, s[j], row)
      {
        if j > 0 {
          PrecedesIsTransitive(keys, row, s[0], s[j]);
        }
      }
    } else {
      var rest := Insert(keys, row, s[1..]);
      InsertKeepsSorted(keys, row, s[1..]);
      forall j | 0 <= j < |rest|
        ensures !Precedes(keys, rest[j], s[0])
      {
        assert rest[j] in multiset(rest);
        assert rest[j] == row || rest[j] in s[1..];
      }
    }
  }

  lemma {:induction false} SomeOrderIsOrder(keys: seq<OrderKey>, rows: seq<Row>)
    ensures IsOrder(keys, rows, SomeOrder(keys, rows))
  {
    if rows == [] {
    } else {
      SomeOrderIsOrder(keys, rows[1..]);
      InsertKeepsSorted(keys, rows[0], SomeOrder(keys, rows[1..]));
      assert rows == [rows[0]] + rows[1..];
    }
  }

  lemma SameIdSameRow(rows: seq<Row>, a: Row, b: Row)
    requires UniqueIds(rows) && a in multiset(rows) && b in multiset(rows)
    requires Value(a, ID) == Value(b, ID)
    ensures a == b
  {
    var i :| 0 <= i < |rows| && rows[i] == a;
    var j :| 0 <= j < |rows| && rows[j] == b;
    assert i == j;
  }

  ghost predicate OneRowAnId(rows: multiset<Row>) {
    forall a, b :: a in rows && b in rows && Value(a, ID) == Value(b, ID) ==> a == b
  }

  /** With the id among the ORDER BY columns there is at most one order. */
  lemma {:induction false} OnlyOneOrder(keys: seq<OrderKey>, s: seq<Row>, t: seq<Row>)
    requires HasId(keys) && OneRowAnId(multiset(s))
    requires multiset(s) == multiset(t) && Sorted(keys, s) && Sorted(keys, t)
    ensures s == t
    decreases |s|
  {
    assert |s| == |multiset(s)| && |t| == |multiset(t)|;
    if s == [] {
    } else {
      SameFirst(keys, s, t);
      SplitFirst(s);
      SplitFirst(t);
      OnlyOneOrder(keys, s[1..], t[1..]);
    }
  }

  lemma SplitFirst(s: seq<Row>)
    requires s != []
    ensures s == [s[0]] + s[1..]
    ensures multiset(s[1..]) == multiset(s) - multiset{s[0]}
    ensures multiset(s[1..]) <= multiset(s)
  {
    assert s == [s[0]] + s[1..];
  }

  lemma SameFirst(keys: seq<OrderKey>, s: seq<Row>, t: seq<Row>)
    requires HasId(keys) && OneRowAnId(multiset(s)) && s != [] && t != []
    requires multiset(s) == multiset(t) && Sorted(keys, s) && Sorted(keys, t)
    ensures s[0] == t[0]
  {
    assert s[0] in multiset(t) && t[0] in multiset(s);
    var i :| 0 <= i < |s| && s[i] == t[0];
    var j :| 0 <= j < |t| && t[j] == s[0];
    PrecedesIsStrict(keys, s[0], t[0]);
    assert !Precedes(keys, t[0], s[0]) && !Precedes(keys, s[0], t[0]);
    assert Value(s[0], ID) == Value(t[0], ID);
  }

  /** The ORDER BY admits exactly one order of any rows with unique ids. */
  lemma TheOrder(keys: seq<OrderKey>, rows: seq<Row>, s: seq<Row>)
    requires HasId(keys) && UniqueIds(rows)
    ensures IsOrder(keys, rows, s) <==> s == SomeOrder(keys, rows)
  {
    var t := SomeOrder(keys, rows);
    SomeOrderIsOrder(keys, rows);
    if IsOrder(keys, rows, s) {
      forall a, b | a in multiset(s) && b in multiset(s) && Value(a, ID) == Value(b, ID)
        ensures a == b
      {
        SameIdSameRow(rows, a, b);
      }
      OnlyOneOrder(keys, s, t);
    }
  }

  // ---------------------------------------------------------------- pages

  function Offset(page: int, limit: int): int {
    (page - 1) * limit
  }

  /** The first `n` places of a list, or all of them. */
  function Cut(n: int, s: seq<Row>): (k: nat)
    ensures k <= |s|
  {
    if n < 0 then 0 else if n < |s| then n else |s|
  }

  /** OFFSET and LIMIT on an ordered list. */
  function Slice(s: seq<Row>, page: int, limit: int): seq<Row>
    requires page >= 1 && limit >= 0
  {
    var offset := Offset(page, limit);
    s[Cut(offset, s)..Cut(offset + limit, s)]
  }

  /** Python's `//`. */
  function FloorDiv(a: int, b: int): int
    requires b != 0
  {
    if b > 0 then a / b else (-a) / (-b)
  }

  function TotalPages(total: nat, limit: int): int
    requires total > 0 ==> limit != 0
  {
    if total > 0 then FloorDiv(total + limit - 1, limit) else 0
  }

  /** Queries for every page; each may see its own order of the rows. */
  ghost predicate Served(keys: seq<OrderKey>, rows: seq<Row>, limit: int, pages: seq<seq<Row>>)
    requires limit >= 1
  {
    && |pages| == TotalPages(|rows|, limit)
    && forall i :: 0 <= i < |pages| ==> ServedPage(keys, rows, limit, i + 1, pages[i])
  }

  ghost predicate ServedPage(keys: seq<OrderKey>, rows: seq<Row>, limit: int, page: int, items: seq<Row>)
    requires limit >= 1 && page >= 1
  {
    exists s :: IsOrder(keys, rows, s) && items == Slice(s, page, limit)
  }

  function Concat(pages: seq<seq<Row>>): seq<Row> {
    if pages == [] then [] else Concat(pages[..|pages| - 1]) + pages[|pages| - 1]
  }

  lemma {:induction false} SlicesConcat(s: seq<Row>, limit: int, pages: seq<seq<Row>>)
    requires limit >= 1
    requires forall i :: 0 <= i < |pages| ==> pages[i] == Slice(s, i + 1, limit)
    ensures Concat(pages) == s[..Cut(Offset(|pages| + 1, limit), s)]
  {
    if pages == [] {
    } else {
      SlicesConcat(s, limit, pages[..|pages| - 1]);
      NextSlice(s, |pages|, limit);
    }
  }

  lemma NextSlice(s: seq<Row>, page: int, limit: int)
    requires page >= 1 && limit >= 1
    ensures s[..Cut(Offset(page, limit), s)] + Slice(s, page, limit) == s[..Cut(Offset(page + 1, limit), s)]
  {
    assert Offset(page + 1, limit) == Offset(page, limit) + limit;
    var from, to := Cut(Offset(page, limit), s), Cut(Offset(page, limit) + limit, s);
    assert s[..from] + s[from..to] == s[..to];
  }

  /** `total_pages` is the least number of pages that hold all the rows. */
  lemma TotalPagesCover(total: nat, limit: int)
    requires limit >= 1
    ensures IsPageCount(total, limit, TotalPages(total, limit))
  {
    if total > 0 {
      var n, r := (total + limit - 1) / limit, (total + limit - 1) % limit;
      assert n * limit + r == total + limit - 1;
      assert n * limit == (n - 1) * limit + limit;
    }
  }

  /**
   With the id among the ORDER BY columns the pages of any queries, in page order, are the one order
   cut in pieces: no row is repeated and none is missed.
   */
  lemma PagesPartition(keys: seq<OrderKey>, rows: seq<Row>, limit: int, pages: seq<seq<Row>>)
    requires HasId(keys) && UniqueIds(rows) && limit >= 1 && Served(keys, rows, limit, pages)
    ensures Concat(pages) == SomeOrder(keys, rows)
    ensures multiset(Concat(pages)) == multiset(rows)
  {
    var order := SomeOrder(keys, rows);
    SomeOrderIsOrder(keys, rows);
    forall i | 0 <= i < |pages|
      ensures pages[i] == Slice(order, i + 1, limit)
    {
      var s :| IsOrder(keys, rows, s) && pages[i] == Slice(s, i + 1, limit);
      TheOrder(keys, rows, s);
    }
    SlicesConcat(order, limit, pages);
    TotalPagesCover(|rows|, limit);
    assert |order| == |multiset(order)| == |multiset(rows)| == |rows|;
  }

  ghost predicate AlwaysPartition(keys: seq<OrderKey>) {
    forall rows, limit, pages ::
      UniqueIds(rows) && limit >= 1 && Served(keys, rows, limit, pages) ==>
        multiset(Concat(pages)) == multiset(rows)
  }

  lemma {:induction false} IdIsUnseen(keys: seq<OrderKey>, a: Row, b: Row)
    requires !HasId(keys)
    requires forall column :: column != ID ==> Value(a, column) == Value(b, column)
    ensures !Precedes(keys, a, b)
  {
    if keys == [] {
    } else {
      assert keys[0].column != ID;
      forall k | 0 <= k < |keys| - 1
        ensures keys[1..][k].column != ID
      {
        assert keys[1..][k] == keys[k + 1];
      }
      IdIsUnseen(keys[1..], a, b);
    }
  }

  /** Without the id: two rows on two pages, where one of them comes twice and the other never. */
  lemma PagesMayRepeat(keys: seq<OrderKey>)
      returns (rows: seq<Row>, pages: seq<seq<Row>>)
    requires !HasId(keys)
    ensures UniqueIds(rows) && Served(keys, rows, 1, pages)
    ensures |rows| == 2 && pages == [[rows[0]], [rows[0]]]
  {
    var a, b: Row := map[ID := 0], map[ID := 1];
    rows, pages := [a, b], [[a], [a]];
    IdIsUnseen(keys, a, b);
    IdIsUnseen(keys, b, a);
    assert multiset([b, a]) == multiset(rows);
    assert IsOrder(keys, rows, [a, b]) && IsOrder(keys, rows, [b, a]);
    assert Slice([a, b], 1, 1) == [a] && Slice([b, a], 2, 1) == [a];
    assert ServedPage(keys, rows, 1, 1, pages[0]) && ServedPage(keys, rows, 1, 2, pages[1]);
  }

  /** The pages of a list partition it for every table content exactly when the chosen order is tied by the id. */
  lemma PagesPartitionWhen(tables: Tables, name: string, ascending: bool)
    requires "id" in tables.own
    ensures AlwaysPartition(Chosen(tables, name, ascending)) <==> !Untied(tables, name)
  {
    var keys := Chosen(tables, name, ascending);
    ChosenHasId(tables, name, ascending);
    if HasId(keys) {
      forall rows, limit, pages | UniqueIds(rows) && limit >= 1 && Served(keys, rows, limit, pages)
        ensures multiset(Concat(pages)) == multiset(rows)
      {
        PagesPartition(keys, rows, limit, pages);
      }
    } else {
      var rows, pages := PagesMayRepeat(keys);
      assert pages[..1] == [pages[0]];
      assert Concat(pages[..1]) == pages[0];
      assert Concat(pages) == [rows[0], rows[0]];
      assert rows == [rows[0], rows[1]];
      assert rows[1] in multiset(rows) && rows[1] !in multiset(Concat(pages));
    }
  }

  // ---------------------------------------------------------------- the response

  /** `n` is the least number of pages that hold all the rows. */
  predicate IsPageCount(total: nat, limit: int, n: int) {
    n >= 0 && n * limit >= total && (n > 0 ==> (n - 1) * limit < total)
  }

  /** The response repeats what it is given; for a page it says how many there are, and whether there is a next one. */
  method BuildPaginatedResponse(params: Params, total: nat, items: seq<Row>) returns (r: Result<Response>)
    ensures r.Err? <==> total > 0 && params.limit == 0
    ensures r.Err? ==> r.failure == ZeroDivision
    ensures r.Ok? ==>
              && r.value.total == total && r.value.items == items
              && r.value.page == params.page && r.value.limit == params.limit
              && (r.value.hasPrevious <==> params.page > 1)
              && (total == 0 ==> r.value.totalPages == 0)
    ensures r.Ok? && params.limit >= 1 ==> IsPageCount(total, params.limit, r.value.totalPages)
    ensures params.limit >= 1 && params.page >= 1 ==> r.Ok? && (r.value.hasNext <==> params.page < r.value.totalPages)
    ensures params.limit <= 0 && r.Ok? ==> (r.value.hasNext <==> params.page * params.limit < total)
  {
    var totalPages := 0;
    if total > 0 {
      if params.limit == 0 {
        return Err(ZeroDivision);
      }
      totalPages := FloorDiv(total + params.limit - 1, params.limit);
    }
    if params.limit >= 1 {
      TotalPagesCover(total, params.limit);
      if params.page >= 1 {
        PageNumbers(total, params.page, params.limit);
      }
    }
    assert Offset(params.page, params.limit) + params.limit == params.page * params.limit;
    r := Ok(Response(total, params.page, params.limit, items,
                     Offset(params.page, params.limit) + params.limit < total,
                     params.page > 1, totalPages));
  }

  /** There is only one such number. */
  lemma OnePageCount(total: nat, limit: int, m: int, n: int)
    requires limit >= 1 && IsPageCount(total, limit, m) && IsPageCount(total, limit, n)
    ensures m == n
  {
    InOrder(m, n - 1, limit);
    InOrder(n, m - 1, limit);
  }

  /**
   The whole query. `database` answers an ORDER BY with the rows in some order; a negative LIMIT is an
   error there.
   */
  method PaginateQuery(tables: Tables, params: Params, defaultSort: string, defaultOrder: string,
      rows: seq<Row>, database: seq<OrderKey> -> seq<Row>)
      returns (r: Result<Response>)
    requires params.page >= 1 && params.limit <= 1000
    requires forall keys :: IsOrder(keys, rows, database(keys))
    ensures params.limit < 0 ==> r == Err(NegativeLimit)
    ensures params.limit == 0 ==> if rows == [] then r.Ok? else r == Err(ZeroDivision)
    ensures params.limit >= 1 ==> r.Ok?
    ensures r.Ok? ==> r.value.total == |rows| && r.value.page == params.page && r.value.limit == params.limit
    ensures params.limit >= 1 ==>
              var keys := Chosen(tables, Or(params.sort, defaultSort), Or(params.order, defaultOrder) == "asc");
              && ServedPage(keys, rows, params.limit, params.page, r.value.items)
              && r.value.totalPages == TotalPages(|rows|, params.limit)
              && (r.value.hasNext <==> params.page < r.value.totalPages)
              && (r.value.hasPrevious <==> params.page > 1)
              && (r.value.items != [] <==> params.page <= r.value.totalPages)
  {
    var keys := ChooseOrder(tables, params, defaultSort, defaultOrder);
    if params.limit < 0 {
      return Err(NegativeLimit);
    }
    var ordered := database(keys);
    assert IsOrder(keys, rows, ordered);
    assert |ordered| == |multiset(ordered)| == |multiset(rows)| == |rows|;
    var items := Slice(ordered, params.page, params.limit);
    r := BuildPaginatedResponse(params, |rows|, items);
    if params.limit >= 1 {
      PageNumbers(|rows|, params.page, params.limit);
      TotalPagesCover(|rows|, params.limit);
      OnePageCount(|rows|, params.limit, r.value.totalPages, TotalPages(|rows|, params.limit));
    }
  }

  /** There is a next page exactly when the next offset is in the list, and a page is empty exactly past the last. */
  lemma PageNumbers(total: nat, page: int, limit: int)
    requires page >= 1 && limit >= 1
    ensures Offset(page, limit) >= 0
    ensures Offset(page, limit) + limit < total <==> page < TotalPages(total, limit)
    ensures Offset(page, limit) < total <==> page <= TotalPages(total, limit)
  {
    var n := TotalPages(total, limit);
    TotalPagesCover(total, limit);
    assert Offset(page, limit) >= 0;
    assert page * limit == Offset(page, limit) + limit;
    InOrder(page, n, limit);
    InOrder(n, page - 1, limit);
    InOrder(n, page, limit);
    InOrder(page, n - 1, limit);
    InOrder(page - 1, n - 1, limit);
  }

  lemma InOrder(a: int, b: int, limit: int)
    requires limit >= 1
    ensures a <= b <==> a * limit <= b * limit
  {
    assert (b - a) * limit == b * limit - a * limit;
  }

  // ---------------------------------------------------------------- what the caller asked for

  /** The sort or order of a request: what the caller sent, or the default when that is absent or empty. */
  predicate Asked(sent: Option<string>, otherwise: string, text: string) {
    if sent in [None, Some("")] then text == otherwise else sent == Some(text)
  }

  /** The column that rows are sorted by first, if the request names one that can be sorted by. */
  predicate SortsBy(tables: Tables, name: string, column: Column) {
    && column.name == name
    && match column.owner
       case Joined => tables.joined.Some? && name in tables.joined.value
       case Own => name in tables.own && (tables.joined.None? || name !in tables.joined.value)
  }

  /** The values of `column` go up, or down. */
  ghost predicate Goes(s: seq<Row>, column: Column, up: bool) {
    forall i, j :: 0 <= i < j < |s| ==>
      if up then Value(s[i], column) <= Value(s[j], column) else Value(s[i], column) >= Value(s[j], column)
  }

  lemma FirstKeyGoes(keys: seq<OrderKey>, s: seq<Row>)
    requires keys != [] && Sorted(keys, s)
    ensures Goes(s, keys[0].column, keys[0].ascending)
  {
    forall i, j | 0 <= i < j < |s|
      ensures keys[0].ascending ==> Value(s[i], keys[0].column) <= Value(s[j], keys[0].column)
      ensures !keys[0].ascending ==> Value(s[i], keys[0].column) >= Value(s[j], keys[0].column)
    {
      assert !Precedes(keys, s[j], s[i]);
    }
  }

  lemma SecondKeyGoes(keys: seq<OrderKey>, s: seq<Row>, i: nat, j: nat)
    requires |keys| == 2 && Sorted(keys, s) && i < j < |s|
    requires Value(s[i], keys[0].column) == Value(s[j], keys[0].column)
    ensures var x, y := Value(s[i], keys[1].column), Value(s[j], keys[1].column);
            if keys[1].ascending then x <= y else x >= y
  {
    assert !Precedes(keys, s[j], s[i]);
    assert Precedes(keys, s[j], s[i]) == Precedes(keys[1..], s[j], s[i]);
    assert keys[1..][0] == keys[1];
  }

  /** The column that stands in for an unknown one and breaks ties: the model's id, or else its `created_at`. */
  predicate IsStandby(tables: Tables, column: Column) {
    && column.owner == Own && column.name in tables.own
    && (column.name == "id" || (column.name == "created_at" && "id" !in tables.own))
  }

  /**
   The request is honoured by every order that the database may return: the values of the column it names go up for
   "asc" and down for anything else, and rows with equal values have their ids going down (unless the
   column is an "id" or "created_at"). A name that cannot be sorted by stands for the id.
   */
  lemma SortedAsAsked(tables: Tables, params: Params, defaultSort: string, defaultOrder: string, name: string,
                      order: string, column: Column, rows: seq<Row>, s: seq<Row>)
    requires Asked(params.sort, defaultSort, name) && Asked(params.order, defaultOrder, order)
    requires SortsBy(tables, name, column)
             || (IsStandby(tables, column) && forall c :: !SortsBy(tables, name, c))
    requires var keys := Chosen(tables, Or(params.sort, defaultSort), Or(params.order, defaultOrder) == "asc");
             IsOrder(keys, rows, s)
    ensures Goes(s, column, order == "asc")
    ensures name !in ["id", "created_at"] && SortsBy(tables, name, column) ==>
              forall i, j, tie :: 0 <= i < j < |s| && Value(s[i], column) == Value(s[j], column)
                                  && IsStandby(tables, tie) ==>
                Value(s[i], tie) >= Value(s[j], tie)
  {
    var keys := Chosen(tables, Or(params.sort, defaultSort), Or(params.order, defaultOrder) == "asc");
    assert !SortsBy(tables, name, Column(Joined, name)) && !SortsBy(tables, name, Column(Own, name)) ==>
        Resolve(tables, name) == None;
    assert keys != [] && keys[0] == OrderKey(column, order == "asc");
    FirstKeyGoes(keys, s);
    if name !in ["id", "created_at"] && SortsBy(tables, name, column) {
      forall i, j, tie | 0 <= i < j < |s| && Value(s[i], column) == Value(s[j], column) && IsStandby(tables, tie)
        ensures Value(s[i], tie) >= Value(s[j], tie)
      {
        assert keys == [OrderKey(column, order == "asc"), OrderKey(tie, false)];
        SecondKeyGoes(keys, s, i, j);
      }
    }
  }
}

/**
 * The queries the JPA repository answers over the employees table: lookup by
 * id, the derived existsByEmail query, the row order of findAll, and paging.
 * The table is a finite map from id to row; nextId is the identity column's
 * next value.
 */
module Store {
  import opened Wrappers
  import opened Fields
  import opened Entity

  /**
   * What the table always satisfies: ids start at 1 and lie below the next
   * identity value, each row carries its own key as id, every row passed
   * validation when it was saved, and non-null emails are unique.
   */
  predicate TableInvariant(t: Table, nextId: nat) {
    && nextId >= 1
    && (forall k :: k in t ==> 1 <= k < nextId && t[k].id == Some(k) && ValidRow(t[k]))
    && UniqueEmails(t)
  }

  /** The empty table with identity value 1, as the schema starts. */
  lemma EmptyTableInvariant()
    ensures TableInvariant(map[], 1)
  {
  }

  /** The next identity value is free, and stays free of clashes when it advances. */
  lemma NextIdIsFree(t: Table, nextId: nat)
    requires TableInvariant(t, nextId)
    ensures nextId !in t
    ensures TableInvariant(t, nextId + 1)
  {
  }

  /** findById. */
  function FindById(t: Table, id: nat): (r: Option<Employee>)
    ensures r.Some? <==> id in t
    ensures r.Some? ==> r.value == t[id]
  {
    if id in t then Some(t[id]) else None
  }

  /**
   * existsByEmail, a derived query: some row has exactly this email. A null
   * argument becomes an IS NULL condition, so it asks for a row without email.
   */
  predicate EmailInUse(t: Table, email: Option<string>)
    ensures !EmailInUse(t, email) ==> !EmailClash(t, email, None)
  {
    exists k :: k in t && t[k].email == email
  }

  /** Saving a row with this email would break the unique constraint: another row already has it. */
  predicate EmailClash(t: Table, email: Option<string>, self: Option<nat>) {
    email.Some? && exists k :: k in t && Some(k) != self && t[k].email == email
  }

  /** The keys of t below n, in increasing order. */
  function SortedKeys(t: Table, n: nat): (ks: seq<nat>)
    decreases n
  {
    if n == 0 then [] else SortedKeys(t, n - 1) + (if n - 1 in t then [n - 1] else [])
  }

  /** SortedKeys lists exactly the keys of t below n, in strictly increasing order. */
  lemma {:induction false} SortedKeysExact(t: Table, n: nat)
    ensures forall i :: 0 <= i < |SortedKeys(t, n)| ==> SortedKeys(t, n)[i] in t && SortedKeys(t, n)[i] < n
    ensures forall k :: k in t && k < n ==> k in SortedKeys(t, n)
    ensures forall i, j :: 0 <= i < j < |SortedKeys(t, n)| ==> SortedKeys(t, n)[i] < SortedKeys(t, n)[j]
    decreases n
  {
    if n > 0 {
      SortedKeysExact(t, n - 1);
    }
  }

  /** The keys of t below n, as a set. */
  function KeysBelow(t: Table, n: nat): set<nat> {
    set k | k in t.Keys && k < n
  }

  /** Raising the bound by one adds the key n to the keys below it, when t has it. */
  lemma KeysBelowStep(t: Table, n: nat)
    ensures KeysBelow(t, n + 1) == KeysBelow(t, n) + (if n in t then {n} else {})
  {
  }

  /** SortedKeys lists each key below n once. */
  lemma {:induction false} SortedKeysCount(t: Table, n: nat)
    ensures |SortedKeys(t, n)| == |KeysBelow(t, n)|
    decreases n
  {
    if n == 0 {
      assert KeysBelow(t, 0) == {};
    } else {
      SortedKeysCount(t, n - 1);
      KeysBelowStep(t, n - 1);
      assert n - 1 !in KeysBelow(t, n - 1);
    }
  }

  /**
   * findAll(): every row. The query carries no ORDER BY, so the database
   * chooses the order; the model fixes increasing id order.
   */
  function Rows(t: Table, nextId: nat): (rows: seq<Employee>)
    ensures |rows| == |KeysBelow(t, nextId)|
    ensures forall i :: 0 <= i < |rows| ==> rows[i] in t.Values
  {
    var ks := SortedKeys(t, nextId);
    SortedKeysExact(t, nextId);
    SortedKeysCount(t, nextId);
    seq(|ks|, i requires 0 <= i < |ks| => t[ks[i]])
  }

  /** The model's findAll() lists each stored row exactly once, in id order, and nothing else. */
  lemma RowsAreTable(t: Table, nextId: nat)
    requires TableInvariant(t, nextId)
    ensures |Rows(t, nextId)| == |t|
    ensures forall k :: k in t ==> t[k] in Rows(t, nextId)
    ensures forall i :: 0 <= i < |Rows(t, nextId)| ==> StoredRow(t, Rows(t, nextId)[i])
    ensures forall i, j :: 0 <= i < j < |Rows(t, nextId)| ==>
      Rows(t, nextId)[i].id.Some? && Rows(t, nextId)[j].id.Some?
      && Rows(t, nextId)[i].id.value < Rows(t, nextId)[j].id.value
  {
    var ks := SortedKeys(t, nextId);
    var rows := Rows(t, nextId);
    SortedKeysExact(t, nextId);
    SortedKeysCount(t, nextId);
    assert KeysBelow(t, nextId) == t.Keys;
    assert |t| == |t.Keys|;
    forall k | k in t
      ensures t[k] in rows
    {
      var i :| 0 <= i < |ks| && ks[i] == k;
      assert rows[i] == t[k];
    }
  }

  /** A page request: zero-based page index, page size of at least one, sort property. */
  datatype PageRequest = PageRequest(page: nat, size: nat, sortBy: string)

  predicate WellFormedRequest(req: PageRequest) {
    req.size >= 1
  }

  /** A page of results with the metadata Spring Data's Page carries. */
  datatype Page<T> = Page(content: seq<T>, number: nat, size: nat, totalElements: nat)

  function Min(a: int, b: int): int {
    if a <= b then a else b
  }

  /** The largest Java int: JPA takes a page's offset as an int. */
  const MaxInt: nat := 2147483647

  /** The offset of a page request fits the int that JPA's first-result parameter takes. */
  predicate OffsetFits(req: PageRequest) {
    req.page * req.size <= MaxInt
  }

  /** The slice of items that page `page` of size `size` holds. */
  function PageOf<T>(items: seq<T>, page: nat, size: nat): (c: seq<T>)
    ensures |c| <= size
    ensures forall x :: x in c ==> x in items
  {
    var start := page * size;
    if start >= |items| then [] else items[start .. Min(start + size, |items|)]
  }

  /** A page holds `size` items, fewer on the last page, none past the end, in their order. */
  lemma PageContents<T>(items: seq<T>, page: nat, size: nat)
    ensures |PageOf(items, page, size)| == if page * size >= |items| then 0 else Min(size, |items| - page * size)
    ensures forall i :: 0 <= i < |PageOf(items, page, size)| ==> PageOf(items, page, size)[i] == items[page * size + i]
  {
  }

  /** Paging loses and duplicates nothing: item i sits on page i / size at position i % size. */
  lemma PagesTile<T>(items: seq<T>, size: nat, i: nat)
    requires size >= 1 && i < |items|
    ensures var p := i / size;
      i % size < |PageOf(items, p, size)| && PageOf(items, p, size)[i % size] == items[i]
  {
  }

  /** A row that is stored under its own id. */
  predicate StoredRow(t: Table, e: Employee) {
    e.id.Some? && e.id.value in t && t[e.id.value] == e
  }

  /** A page of stored rows holds only stored rows. */
  lemma PageOfStoredRows(t: Table, rows: seq<Employee>, page: nat, size: nat)
    requires forall i :: 0 <= i < |rows| ==> StoredRow(t, rows[i])
    ensures forall i :: 0 <= i < |PageOf(rows, page, size)| ==> StoredRow(t, PageOf(rows, page, size)[i])
  {
  }

  /** The properties a row can be sorted by. */
  predicate IsEmployeeProperty(s: string) {
    s in {"id", "name", "email", "department", "salary", "joiningDate"}
  }
}

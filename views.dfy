/**
 * The server's views over the two tables: the item listing and its ordering, item creation
 * with the history upsert, the two history queries and the reorder endpoint.
 * The database is the class `Backend`; its queries are functions of the tables.
 */
module Views {
  import opened Common
  import opened Text
  import opened Schema
  import opened Sorting
  import Seqs

  /** The history search returns at most this many rows. */
  const SuggestionLimit: nat := 5

  /** The body of the reorder endpoint's reply. */
  const StatusOk: string := "ok"

  predicate KeysBelow<T>(table: map<nat, T>, bound: nat) {
    forall k :: k in table ==> k < bound
  }

  /** The rows with a primary key below `bound`, in ascending key order. */
  function Rows<T(==)>(table: map<nat, T>, bound: nat): (r: seq<T>)
    ensures forall i :: 0 <= i < |r| ==> r[i] in table.Values
    ensures forall k :: k in table && k < bound ==> table[k] in r
    ensures |r| == |set k | k in table && k < bound|
  {
    if bound == 0 then []
    else
      var k := bound - 1;
      var below := set j | j in table && j < k;
      var all := set j | j in table && j < bound;
      assert |all| == |below| + (if k in table then 1 else 0) by {
        if k in table {
          assert all == below + {k} && k !in below;
        } else {
          assert all == below;
        }
      }
      Rows(table, k) + (if k in table then [table[k]] else [])
  }

  lemma {:induction false} RowsBelow<T>(table: map<nat, T>, bound: nat, i: nat)
    requires i < |Rows(table, bound)|
    ensures exists k :: k in table && k < bound && table[k] == Rows(table, bound)[i]
  {
    var front := Rows(table, bound - 1);
    if i < |front| {
      RowsBelow(table, bound - 1, i);
    } else {
      assert table[bound - 1] == Rows(table, bound)[i];
    }
  }

  /** With distinct records, the rows have no duplicates. */
  lemma {:induction false} RowsNoDuplicates<T>(table: map<nat, T>, bound: nat)
    requires Injective(table)
    ensures Seqs.NoDuplicates(Rows(table, bound))
  {
    if bound > 0 {
      var k := bound - 1;
      var front := Rows(table, k);
      RowsNoDuplicates(table, k);
      if k in table {
        forall i | 0 <= i < |front| ensures front[i] != table[k] {
          RowsBelow(table, k, i);
        }
      }
    }
  }

  lemma RowsCount<T>(table: map<nat, T>, bound: nat)
    requires KeysBelow(table, bound)
    ensures |set k | k in table && k < bound| == |table|
  {
    assert (set k | k in table && k < bound) == table.Keys;
  }

  /* ---------------------------------------------------------------- items */

  /** `order_by('order', 'added_at')`. */
  predicate ListedBefore(a: GroceryItem, b: GroceryItem) {
    a.order < b.order || (a.order == b.order && a.addedAt <= b.addedAt)
  }

  lemma ListedBeforeIsTotalPreorder()
    ensures TotalPreorder(ListedBefore)
  {
  }

  /**
   * The item listing: every row exactly once, ascending by `order` and, among equal
   * `order`, by `added_at`.
   */
  function ItemListing(items: map<nat, GroceryItem>, bound: nat): (r: seq<GroceryItem>)
    requires KeysBelow(items, bound)
    ensures |r| == |items|
    ensures forall i :: 0 <= i < |r| ==> r[i] in items.Values
    ensures forall k :: k in items ==> items[k] in r
    ensures forall i, j :: 0 <= i < j < |r| ==>
      r[i].order < r[j].order || (r[i].order == r[j].order && r[i].addedAt <= r[j].addedAt)
    ensures KeyedById(items) ==> Seqs.NoDuplicates(r)
  {
    ListedBeforeIsTotalPreorder();
    RowsCount(items, bound);
    var rows := Rows(items, bound);
    var r := SortBy(rows, ListedBefore);
    assert KeyedById(items) ==> Seqs.NoDuplicates(r) by {
      if KeyedById(items) {
        assert Injective(items);
        RowsNoDuplicates(items, bound);
        Seqs.NoDuplicatesSubMultiset(r, rows);
      }
    }
    r
  }

  datatype CreateError = InvalidField(field: string) | NotUnique

  predicate HasItem(items: map<nat, GroceryItem>, name: string, listName: string) {
    exists k :: k in items && items[k].name == name && items[k].listName == listName
  }

  /**
   * Validation of a create request against the declared field constraints and the
   * `(name, list_name)` uniqueness; the accepted record is the request with its defaults.
   */
  function ValidateCreate(items: map<nat, GroceryItem>, request: ItemRequest, id: nat, now: int): (r: Result<GroceryItem, CreateError>)
    ensures r.Ok? <==> ItemFieldsOk(NewItem(id, request, now)) && !HasItem(items, request.name, NewItem(id, request, now).listName)
    ensures r.Ok? ==> r.value == NewItem(id, request, now)
    ensures r == Err(NotUnique) ==> HasItem(items, request.name, NewItem(id, request, now).listName)
  {
    var item := NewItem(id, request, now);
    if !(0 < |item.name| <= NameMaxLength) then Err(InvalidField("name"))
    else if item.order < 0 then Err(InvalidField("order"))
    else if !IsListChoice(item.listName) then Err(InvalidField("list_name"))
    else if HasItem(items, item.name, item.listName) then Err(NotUnique)
    else Ok(item)
  }

  /** An accepted record under a fresh id keeps the item table's invariant. */
  lemma CreateKeepsItemTable(items: map<nat, GroceryItem>, request: ItemRequest, id: nat, now: int)
    requires ItemTableOk(items) && id !in items
    requires ValidateCreate(items, request, id, now).Ok?
    ensures ItemTableOk(items[id := ValidateCreate(items, request, id, now).value])
  {
  }

  /**
   * The request the client sends carries only a name; it is accepted exactly when the name is
   * non-empty, fits in 255 characters and is not yet in list "paris", and the record is unchecked,
   * at order 0, in list "paris".
   */
  lemma NameOnlyRequest(items: map<nat, GroceryItem>, name: string, id: nat, now: int)
    ensures var r := ValidateCreate(items, ItemRequest(name, None, None, None), id, now);
      && (r.Ok? <==> 0 < |name| <= NameMaxLength && !HasItem(items, name, "paris"))
      && (r.Ok? ==> r.value == GroceryItem(id, name, now, false, 0, "paris"))
  {
  }

  /* -------------------------------------------------------------- history */

  predicate HasHistoryName(history: map<nat, GroceryHistory>, name: string) {
    exists k :: k in history && history[k].name == name
  }

  /**
   * `update_or_create(name=...)`: the row with that name gets `last_added` refreshed
   * (the field is `auto_now`); without one, a row is inserted under `freshId`.
   */
  function UpsertHistory(history: map<nat, GroceryHistory>, name: string, now: int, freshId: nat): (r: map<nat, GroceryHistory>)
    requires freshId !in history
    ensures exists k :: k in r && r[k].name == name && r[k].lastAdded == now
    ensures r.Keys == if HasHistoryName(history, name) then history.Keys else history.Keys + {freshId}
    ensures forall k :: k in history && history[k].name != name ==> r[k] == history[k]
    ensures forall k :: k in history ==> r[k].id == history[k].id && r[k].name == history[k].name
    ensures HistoryTableOk(history) && 0 < |name| <= NameMaxLength ==> HistoryTableOk(r)
  {
    if HasHistoryName(history, name) then
      var r := map k | k in history :: if history[k].name == name then history[k].(lastAdded := now) else history[k];
      var w :| w in history && history[w].name == name;
      assert w in r && r[w].name == name;
      r
    else
      var r := history[freshId := GroceryHistory(freshId, name, now)];
      assert freshId in r;
      r
  }

  /** After an upsert there is exactly one history row with the name, whether or not it existed. */
  lemma UpsertLeavesOneRow(history: map<nat, GroceryHistory>, name: string, now: int, freshId: nat)
    requires HistoryTableOk(history) && 0 < |name| <= NameMaxLength && freshId !in history
    ensures var r := UpsertHistory(history, name, now, freshId);
      exists k :: k in r && r[k].name == name && forall j :: j in r && r[j].name == name ==> j == k
  {
    var r := UpsertHistory(history, name, now, freshId);
    var k :| k in r && r[k].name == name && r[k].lastAdded == now;
    assert UniqueHistoryName(r);
  }

  /** `order_by('-last_added')`. */
  predicate NewerFirst(a: GroceryHistory, b: GroceryHistory) {
    a.lastAdded >= b.lastAdded
  }

  lemma NewerFirstIsTotalPreorder()
    ensures TotalPreorder(NewerFirst)
  {
  }

  /** `rows` reordered newest first: the same rows, each at least as new as any after it. */
  function NewestFirst(rows: seq<GroceryHistory>): (r: seq<GroceryHistory>)
    ensures multiset(r) == multiset(rows)
    ensures |r| == |rows|
    ensures forall i :: 0 <= i < |r| ==> r[i] in rows
    ensures forall i :: 0 <= i < |rows| ==> rows[i] in r
    ensures forall i, j :: 0 <= i < j < |r| ==> r[i].lastAdded >= r[j].lastAdded
  {
    NewerFirstIsTotalPreorder();
    SortBy(rows, NewerFirst)
  }

  /** The full history, newest first. */
  function AllHistory(history: map<nat, GroceryHistory>, bound: nat): (r: seq<GroceryHistory>)
    requires KeysBelow(history, bound)
    ensures |r| == |history|
    ensures forall i :: 0 <= i < |r| ==> r[i] in history.Values
    ensures forall k :: k in history ==> history[k] in r
    ensures forall i, j :: 0 <= i < j < |r| ==> r[i].lastAdded >= r[j].lastAdded
    ensures HistoryKeyedById(history) ==> Seqs.NoDuplicates(r)
  {
    RowsCount(history, bound);
    var rows := Rows(history, bound);
    var r := NewestFirst(rows);
    assert HistoryKeyedById(history) ==> Seqs.NoDuplicates(r) by {
      if HistoryKeyedById(history) {
        assert Injective(history);
        RowsNoDuplicates(history, bound);
        Seqs.NoDuplicatesSubMultiset(r, rows);
      }
    }
    r
  }

  /**
   * At most five of `rows`, newest first; a row is left out only when five rows at least as
   * new were kept.
   */
  function NewestFive(rows: seq<GroceryHistory>): (r: seq<GroceryHistory>)
    ensures |r| <= SuggestionLimit && |r| <= |rows|
    ensures forall i :: 0 <= i < |r| ==> r[i] in rows
    ensures multiset(r) <= multiset(rows)
    ensures forall i, j :: 0 <= i < j < |r| ==> r[i].lastAdded >= r[j].lastAdded
    ensures forall x :: x in rows && x !in r ==>
      |r| == SuggestionLimit && forall i :: 0 <= i < |r| ==> r[i].lastAdded >= x.lastAdded
  {
    var sorted := NewestFirst(rows);
    var n := if |sorted| < SuggestionLimit then |sorted| else SuggestionLimit;
    NewestPrefix(rows, sorted, n);
    sorted[..n]
  }

  /** A prefix of the rows in newest-first order holds the newest of them. */
  lemma NewestPrefix(rows: seq<GroceryHistory>, sorted: seq<GroceryHistory>, n: nat)
    requires multiset(sorted) == multiset(rows) && |sorted| == |rows|
    requires forall i, j :: 0 <= i < j < |sorted| ==> sorted[i].lastAdded >= sorted[j].lastAdded
    requires n == if |sorted| < SuggestionLimit then |sorted| else SuggestionLimit
    ensures var r := sorted[..n];
      && |r| <= SuggestionLimit && |r| <= |rows|
      && (forall i :: 0 <= i < |r| ==> r[i] in rows)
      && (forall i, j :: 0 <= i < j < |r| ==> r[i].lastAdded >= r[j].lastAdded)
      && multiset(r) <= multiset(rows)
      && (forall x :: x in rows && x !in r ==>
            |r| == SuggestionLimit && forall i :: 0 <= i < |r| ==> r[i].lastAdded >= x.lastAdded)
  {
    var r := sorted[..n];
    Seqs.PrefixSubMultiset(sorted, n);
    forall i, j | 0 <= i < j < |r| ensures r[i].lastAdded >= r[j].lastAdded {
      assert r[i] == sorted[i] && r[j] == sorted[j];
    }
    forall i | 0 <= i < |r| ensures r[i] in rows {
      assert r[i] in multiset(r);
    }
    forall x | x in rows && x !in r
      ensures |r| == SuggestionLimit && forall i :: 0 <= i < |r| ==> r[i].lastAdded >= x.lastAdded
    {
      assert x in multiset(sorted);
      KeptAtLeastAsNew(sorted, n, x);
    }
  }

  /** In newest-first order, every row of a prefix is at least as new as a row after it. */
  lemma KeptAtLeastAsNew(sorted: seq<GroceryHistory>, n: nat, x: GroceryHistory)
    requires forall i, j :: 0 <= i < j < |sorted| ==> sorted[i].lastAdded >= sorted[j].lastAdded
    requires n <= |sorted| && x in sorted && x !in sorted[..n]
    ensures n < |sorted|
    ensures forall i :: 0 <= i < n ==> sorted[i].lastAdded >= x.lastAdded
  {
    var p :| 0 <= p < |sorted| && sorted[p] == x;
    assert sorted[..|sorted|] == sorted;
  }

  /** Taking the newest five repeats no row. */
  lemma NewestFiveNoDuplicates(rows: seq<GroceryHistory>)
    requires Seqs.NoDuplicates(rows)
    ensures Seqs.NoDuplicates(NewestFive(rows))
  {
    Seqs.NoDuplicatesSubMultiset(NewestFive(rows), rows);
  }

  /** The history rows whose name starts with `text`, ignoring case. */
  function Matching(history: map<nat, GroceryHistory>, bound: nat, text: string): (r: seq<GroceryHistory>)
    ensures forall i :: 0 <= i < |r| ==> r[i] in history.Values && StartsWithIgnoringCase(r[i].name, text)
    ensures forall k :: k in history && k < bound && StartsWithIgnoringCase(history[k].name, text) ==> history[k] in r
    ensures HistoryKeyedById(history) ==> Seqs.NoDuplicates(r)
  {
    var rows := Rows(history, bound);
    var r := Seqs.Filter(rows, (h: GroceryHistory) => StartsWithIgnoringCase(h.name, text));
    MatchingFacts(history, bound, text, rows, r);
    r
  }

  /** The proof behind `Matching`'s contract, for the filtered rows `r`. */
  lemma MatchingFacts(history: map<nat, GroceryHistory>, bound: nat, text: string, rows: seq<GroceryHistory>, r: seq<GroceryHistory>)
    requires rows == Rows(history, bound)
    requires r == Seqs.Filter(rows, (h: GroceryHistory) => StartsWithIgnoringCase(h.name, text))
    ensures forall k :: k in history && k < bound && StartsWithIgnoringCase(history[k].name, text) ==> history[k] in r
    ensures HistoryKeyedById(history) ==> Seqs.NoDuplicates(r)
  {
    if HistoryKeyedById(history) {
      assert Injective(history);
      RowsNoDuplicates(history, bound);
      Seqs.NoDuplicatesSubMultiset(r, rows);
    }
    forall k | k in history && k < bound && StartsWithIgnoringCase(history[k].name, text)
      ensures history[k] in r
    {
      var p :| 0 <= p < |rows| && rows[p] == history[k];
    }
  }

  /**
   * The suggestion search: nothing for an absent or empty `q`; otherwise at most five rows
   * whose name starts with `q` ignoring case, newest first, and a matching row is left out
   * only when five rows at least as new were returned.
   */
  function SearchHistory(history: map<nat, GroceryHistory>, bound: nat, q: Option<string>): (r: seq<GroceryHistory>)
    requires KeysBelow(history, bound)
    ensures q.GetOr("") == "" ==> r == []
    ensures |r| <= SuggestionLimit
    ensures forall i :: 0 <= i < |r| ==> r[i] in history.Values && StartsWithIgnoringCase(r[i].name, q.GetOr(""))
    ensures forall i, j :: 0 <= i < j < |r| ==> r[i].lastAdded >= r[j].lastAdded
    ensures forall k :: k in history && q.GetOr("") != "" && StartsWithIgnoringCase(history[k].name, q.GetOr("")) && history[k] !in r ==>
      |r| == SuggestionLimit && forall i :: 0 <= i < |r| ==> r[i].lastAdded >= history[k].lastAdded
    ensures HistoryKeyedById(history) ==> forall i, j :: 0 <= i < j < |r| ==> r[i] != r[j]
  {
    var text := q.GetOr("");
    if text == "" then []
    else
      SearchMatches(history, bound, text);
      NewestFive(Matching(history, bound, text))
  }

  /** What the search returns for a non-empty `text`, stated for `SearchHistory`'s contract. */
  lemma SearchMatches(history: map<nat, GroceryHistory>, bound: nat, text: string)
    requires KeysBelow(history, bound)
    ensures var r := NewestFive(Matching(history, bound, text));
      && (forall i :: 0 <= i < |r| ==> r[i] in history.Values && StartsWithIgnoringCase(r[i].name, text))
      && (forall k :: k in history && StartsWithIgnoringCase(history[k].name, text) && history[k] !in r ==>
            |r| == SuggestionLimit && forall i :: 0 <= i < |r| ==> r[i].lastAdded >= history[k].lastAdded)
      && (HistoryKeyedById(history) ==> forall i, j :: 0 <= i < j < |r| ==> r[i] != r[j])
  {
    var matches := Matching(history, bound, text);
    var r := NewestFive(matches);
    if HistoryKeyedById(history) {
      NewestFiveNoDuplicates(matches);
    }
    forall k | k in history && StartsWithIgnoringCase(history[k].name, text) && history[k] !in r
      ensures |r| == SuggestionLimit && forall i :: 0 <= i < |r| ==> r[i].lastAdded >= history[k].lastAdded
    {
      assert history[k] in matches;
    }
  }

  /* -------------------------------------------------------------- reorder */

  /** The last position of `id` in `ids`, or -1 when it does not occur. */
  function LastIndexOf(ids: seq<int>, id: int): (p: int)
    ensures id in ids ==> 0 <= p < |ids| && ids[p] == id && forall j :: p < j < |ids| ==> ids[j] != id
    ensures id !in ids ==> p == -1
  {
    if ids == [] then -1
    else if ids[|ids| - 1] == id then |ids| - 1
    else
      var front := ids[..|ids| - 1];
      assert ids == front + [ids[|ids| - 1]];
      LastIndexOf(front, id)
  }

  /**
   * The table after the reorder loop has run over `ids`: an item whose id occurs gets as
   * `order` its last position in `ids`; nothing else changes.
   */
  function Reordered(items: map<nat, GroceryItem>, ids: seq<int>): (r: map<nat, GroceryItem>)
    ensures r.Keys == items.Keys
    ensures forall k :: k in items && k !in ids ==> r[k] == items[k]
    ensures forall k :: k in items ==> r[k] == items[k].(order := r[k].order)
    ensures forall k, p :: k in items && 0 <= p < |ids| && ids[p] == k && (forall j :: p < j < |ids| ==> ids[j] != k) ==> r[k].order == p
    ensures ItemTableOk(items) ==> ItemTableOk(r)
  {
    ReorderedEntries(items, ids)
  }

  /**
   * The definition behind `Reordered`, without its contract, so that the loop's step lemma
   * reasons about single entries only.
   */
  function ReorderedEntries(items: map<nat, GroceryItem>, ids: seq<int>): map<nat, GroceryItem> {
    map k | k in items :: if k in ids then items[k].(order := LastIndexOf(ids, k)) else items[k]
  }

  /** With no ids (the key is absent from the request) the table is left as it was. */
  lemma ReorderedNothing(items: map<nat, GroceryItem>)
    ensures Reordered(items, []) == items
  {
  }

  /** One more step of the loop extends the processed prefix of `ids` by one position. */
  lemma ReorderedStep(items: map<nat, GroceryItem>, ids: seq<int>, position: nat)
    requires position < |ids|
    ensures var before := ReorderedEntries(items, ids[..position]);
      var id := ids[position];
      ReorderedEntries(items, ids[..position + 1]) ==
        if id >= 0 && id in before then before[id := before[id].(order := position)] else before
  {
    var prefix := ids[..position + 1];
    var front := ids[..position];
    var id := ids[position];
    assert prefix == front + [id];
    var before := ReorderedEntries(items, front);
    var after := ReorderedEntries(items, prefix);
    var expected := if id >= 0 && id in before then before[id := before[id].(order := position)] else before;
    forall k | k in items ensures after[k] == expected[k] {
      if k == id {
        assert prefix[position] == k;
      } else {
        LastIndexOfSkipsLast(front, id, k);
      }
    }
    assert after.Keys == expected.Keys;
  }

  /** Appending a different id changes neither the presence nor the last position of `k`. */
  lemma LastIndexOfSkipsLast(front: seq<int>, id: int, k: int)
    requires k != id
    ensures k in front + [id] <==> k in front
    ensures LastIndexOf(front + [id], k) == LastIndexOf(front, k)
  {
    assert (front + [id])[..|front|] == front;
  }

  /* ------------------------------------------------------------- database */

  /** The database: both tables and the next primary key of each (keys are never reused). */
  class Backend {
    var items: map<nat, GroceryItem>
    var history: map<nat, GroceryHistory>
    var nextItemId: nat
    var nextHistoryId: nat

    /** Both tables meet their constraints, and the next primary key of each is still unused. */
    predicate Valid()
      reads this
      ensures Valid() ==> nextItemId !in items && nextHistoryId !in history
    {
      && ItemTableOk(items) && KeysBelow(items, nextItemId)
      && HistoryTableOk(history) && KeysBelow(history, nextHistoryId)
    }

    constructor ()
      ensures Valid()
      ensures items == map[] && history == map[]
    {
      items, history := map[], map[];
      nextItemId, nextHistoryId := 1, 1;
    }

    /**
     * Create an item (`perform_create`): on a valid request the record is stored under a fresh
     * id and the history is upserted with its name; on an invalid one nothing changes.
     */
    method Create(request: ItemRequest, now: int) returns (r: Result<GroceryItem, CreateError>)
      requires Valid()
      modifies this
      ensures Valid()
      ensures r == ValidateCreate(old(items), request, old(nextItemId), now)
      ensures r.Ok? ==> && old(nextItemId) !in old(items)
                        && items == old(items)[old(nextItemId) := r.value]
                        && history == UpsertHistory(old(history), r.value.name, now, old(nextHistoryId))
      ensures r.Err? ==> items == old(items) && history == old(history)
    {
      r := ValidateCreate(items, request, nextItemId, now);
      if r.Ok? {
        CreateKeepsItemTable(items, request, nextItemId, now);
        items := items[nextItemId := r.value];
        nextItemId := nextItemId + 1;
        var inserted := !HasHistoryName(history, r.value.name);
        history := UpsertHistory(history, r.value.name, now, nextHistoryId);
        if inserted {
          nextHistoryId := nextHistoryId + 1;
        }
      }
    }

    /**
     * `reorder_items`: for each position of `ids`, in order, the item with that id (if any) gets
     * `order = position`; an absent `ids` is the empty list. The reply is always "ok".
     */
    method Reorder(ids: Option<seq<int>>) returns (status: string)
      requires Valid()
      modifies this
      ensures Valid()
      ensures status == StatusOk
      ensures items == Reordered(old(items), ids.GetOr([]))
      ensures history == old(history)
    {
      var list := ids.GetOr([]);
      assert ReorderedEntries(items, list[..0]) == items;
      for position := 0 to |list|
        invariant items == ReorderedEntries(old(items), list[..position])
        invariant history == old(history)
        invariant nextItemId == old(nextItemId) && nextHistoryId == old(nextHistoryId)
      {
        ReorderedStep(old(items), list, position);
        var itemId := list[position];
        if itemId >= 0 && itemId in items {
          items := items[itemId := items[itemId].(order := position)];
        }
      }
      assert list[..|list|] == list;
      status := StatusOk;
    }
  }
}

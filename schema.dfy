/**
 * The two tables of the store (`GroceryItem` and `GroceryHistory`): the records, their field
 * defaults and value domains, and the table invariants that the declared constraints impose.
 * A table is a map from primary key to record; timestamps are plain integers supplied by a clock.
 */
module Schema {
  import opened Common

  const NameMaxLength: nat := 255
  const ListNameMaxLength: nat := 50

  const Paris: string := "paris"
  const Saussaye: string := "saussaye"
  const DefaultListName: string := Paris

  /** The `choices` of `list_name`. */
  predicate IsListChoice(listName: string) {
    listName == Paris || listName == Saussaye
  }

  /** A row of the item table, with the fields the serializer exposes. */
  datatype GroceryItem = GroceryItem(
    id: nat,
    name: string,
    addedAt: int,
    checked: bool,
    order: int,
    listName: string)

  /** A row of the history table: a name once added, and when it was last added. */
  datatype GroceryHistory = GroceryHistory(id: nat, name: string, lastAdded: int)

  /** The field constraints of one item row. */
  predicate ItemFieldsOk(item: GroceryItem) {
    && 0 < |item.name| <= NameMaxLength
    && item.order >= 0
    && IsListChoice(item.listName)
    && |item.listName| <= ListNameMaxLength
  }

  /** Each record is stored under its own id. */
  predicate KeyedById(items: map<nat, GroceryItem>) {
    forall k :: k in items ==> items[k].id == k
  }

  /** `unique_together = ("name", "list_name")`: exact, case-sensitive pairs. */
  predicate UniqueNameInList(items: map<nat, GroceryItem>) {
    forall a, b :: a in items && b in items && items[a].name == items[b].name && items[a].listName == items[b].listName ==> a == b
  }

  /** Distinct keys hold distinct records. */
  predicate Injective<T(==)>(table: map<nat, T>) {
    forall a, b :: a in table && b in table && table[a] == table[b] ==> a == b
  }

  /**
   * The item table's declared constraints; a table meeting them never holds the same record
   * under two keys.
   */
  predicate ItemTableOk(items: map<nat, GroceryItem>)
    ensures ItemTableOk(items) ==> Injective(items)
  {
    && KeyedById(items)
    && (forall k :: k in items ==> ItemFieldsOk(items[k]))
    && UniqueNameInList(items)
  }

  /** Each history record is stored under its own id. */
  predicate HistoryKeyedById(history: map<nat, GroceryHistory>) {
    forall k :: k in history ==> history[k].id == k
  }

  /** `name` is declared `unique=True` in the history table. */
  predicate UniqueHistoryName(history: map<nat, GroceryHistory>) {
    forall a, b :: a in history && b in history && history[a].name == history[b].name ==> a == b
  }

  /**
   * The history table's declared constraints; a table meeting them never holds the same record
   * under two keys.
   */
  predicate HistoryTableOk(history: map<nat, GroceryHistory>)
    ensures HistoryTableOk(history) ==> Injective(history)
  {
    && HistoryKeyedById(history)
    && (forall k :: k in history ==> 0 < |history[k].name| <= NameMaxLength)
    && UniqueHistoryName(history)
  }

  /** What a client may put in the body of a create request; an absent field takes its default. */
  datatype ItemRequest = ItemRequest(
    name: string,
    checked: Option<bool>,
    order: Option<int>,
    listName: Option<string>)

  /** The record a create request describes, with `added_at` taken from the clock and the declared defaults. */
  function NewItem(id: nat, request: ItemRequest, now: int): (item: GroceryItem)
    ensures item.id == id && item.name == request.name && item.addedAt == now
    ensures request.checked.None? ==> !item.checked
    ensures request.order.None? ==> item.order == 0
    ensures request.listName.None? ==> item.listName == "paris"
    ensures request.checked.Some? ==> item.checked == request.checked.value
    ensures request.order.Some? ==> item.order == request.order.value
    ensures request.listName.Some? ==> item.listName == request.listName.value
  {
    GroceryItem(id, request.name, now,
      request.checked.GetOr(false),
      request.order.GetOr(0),
      request.listName.GetOr(DefaultListName))
  }
}

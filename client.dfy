/**
 * The browser client: the list it shows, the text being typed and the suggestions under it,
 * and the state transitions that follow each request's outcome. Requests are not performed
 * here: a method returns what it would send, and takes the outcome of the request as input.
 */
module Client {
  import opened Common
  import opened Text
  import opened Schema
  import Seqs
  import Views

  /** A record as the server returns it. */
  type Item = GroceryItem

  const DuplicateAlert: string := "Cet article est déjà dans la liste !"
  const AddFailedAlert: string := "Erreur lors de l’ajout. L’article est peut-être déjà présent."

  /* ---------------------------------------------------------- formatDate */

  /**
   * What `new Date(dateString)` yields: no string at all (empty, null or undefined), an
   * unparseable string, or a day of the month (1-31) and a 0-based month (0-11).
   */
  datatype DateField = Missing | Unparseable | Parsed(day: int, monthIndex: int)

  /** Two decimal digits reading back as `n`. */
  function TwoDigits(n: nat): (r: string)
    requires n < 100
    ensures |r| == 2 && AllDigits(r) && DigitsValue(r) == n
  {
    var digits := Decimal(n);
    if n < 10 then
      LeadingZero(digits);
      assert PadTwo(digits) == "0" + digits;
      PadTwo(digits)
    else
      PadTwo(digits)
  }

  /**
   * `formatDate`: "" when there is no date; otherwise the zero-padded day, '/', and the
   * zero-padded 1-based month. An unparseable date prints as "NaN/NaN".
   */
  function FormatDate(date: DateField): (r: string)
    requires date.Parsed? ==> 1 <= date.day <= 31 && 0 <= date.monthIndex <= 11
    ensures date.Missing? <==> r == ""
    ensures date.Unparseable? ==> r == "NaN/NaN"
    ensures date.Parsed? ==>
      && |r| == 5 && r[2] == '/'
      && AllDigits(r[..2]) && DigitsValue(r[..2]) == date.day
      && AllDigits(r[3..]) && DigitsValue(r[3..]) == date.monthIndex + 1
  {
    match date
    case Missing => ""
    case Unparseable => "NaN/NaN"
    case Parsed(day, monthIndex) =>
      var d, m := TwoDigits(day), TwoDigits(monthIndex + 1);
      var r := d + "/" + m;
      assert r[..2] == d && r[3..] == m;
      r
  }

  /* ------------------------------------------------------------- addItem */

  /** The duplicate check: some shown item's name, lower-cased, equals the trimmed input lower-cased. */
  predicate IsDuplicate(items: seq<Item>, input: string) {
    exists i :: 0 <= i < |items| && Lower(items[i].name) == Lower(Trim(input))
  }

  datatype AddCheck = Blank | Duplicate | Send(body: string)

  /**
   * What submitting the form does before any request: nothing for blank input, a notice for a
   * duplicate, otherwise a create request whose name is the input exactly as typed.
   */
  function CheckAdd(items: seq<Item>, input: string): (c: AddCheck)
    ensures c == Blank <==> AllWhitespace(input)
    ensures c == Duplicate <==> !AllWhitespace(input) && IsDuplicate(items, input)
    ensures c.Send? ==> c.body == input && !AllWhitespace(input)
  {
    if Trim(input) == "" then Blank
    else if IsDuplicate(items, input) then Duplicate
    else Send(input)
  }

  /**
   * Why a create request failed, as the `catch` sees it: the JSON error body of a rejected
   * request (with the messages of its `name` field, if any), or a JavaScript error thrown by
   * `fetch` or by parsing the reply, whose `name` is its class name ("TypeError", ...).
   */
  datatype AddFailure = ErrorBody(nameMessages: Option<seq<string>>) | Thrown(errorName: string)

  datatype AddOutcome = Created(record: Item) | Failed(failure: AddFailure)

  /** The reply is an error body whose first message about the name is non-empty. */
  predicate HasNameMessage(failure: AddFailure) {
    failure.ErrorBody? && failure.nameMessages.Some? && |failure.nameMessages.value| > 0 &&
    failure.nameMessages.value[0] != ""
  }

  /** `err?.name?.[0] || default`, as written: on a thrown error it reads the first letter of its class name. */
  function AddFailureAlertAsWritten(failure: AddFailure): (alert: string)
    ensures failure.Thrown? && failure.errorName != "" ==> alert == [failure.errorName[0]]
    ensures HasNameMessage(failure) ==> alert == failure.nameMessages.value[0]
    ensures failure.ErrorBody? && !HasNameMessage(failure) ==> alert == AddFailedAlert
  {
    match failure
    case ErrorBody(messages) =>
      if messages.Some? && |messages.value| > 0 && messages.value[0] != "" then messages.value[0] else AddFailedAlert
    case Thrown(errorName) =>
      if errorName != "" then [errorName[0]] else AddFailedAlert
  }

  /** A failed request while the network is down alerts just "T". */
  lemma NetworkFailureAlertsOneLetter()
    ensures AddFailureAlertAsWritten(Thrown("TypeError")) == "T"
    ensures AddFailureAlertAsWritten(Thrown("TypeError")) != AddFailedAlert
  {
  }

  /** The alert the code intends: the server's first message about the name, or the generic notice. */
  function AddFailureAlert(failure: AddFailure): (alert: string)
    ensures alert != ""
    ensures failure.Thrown? ==> alert == AddFailedAlert
    ensures alert == AddFailedAlert || (failure.ErrorBody? && failure.nameMessages.Some? &&
      |failure.nameMessages.value| > 0 && alert == failure.nameMessages.value[0])
    ensures HasNameMessage(failure) ==> alert == failure.nameMessages.value[0]
    ensures !HasNameMessage(failure) ==> alert == AddFailedAlert
  {
    match failure
    case ErrorBody(messages) =>
      if messages.Some? && |messages.value| > 0 && messages.value[0] != "" then messages.value[0] else AddFailedAlert
    case Thrown(_) => AddFailedAlert
  }

  /** The two agree on every reply from the server; they differ only on thrown errors. */
  lemma AlertsAgreeOnServerReplies(failure: AddFailure)
    requires failure.ErrorBody?
    ensures AddFailureAlert(failure) == AddFailureAlertAsWritten(failure)
  {
  }

  /* --------------------------------------------------------- list updates */

  /**
   * The list without the items that have `id`, the others in their original order and as
   * often as the list holds them.
   */
  function WithoutId(items: seq<Item>, id: nat): (r: seq<Item>)
    ensures forall i :: 0 <= i < |r| ==> r[i].id != id && r[i] in items
    ensures forall i :: 0 <= i < |items| && items[i].id != id ==> items[i] in r
    ensures forall x :: multiset(r)[x] == if x.id != id then multiset(items)[x] else 0
    ensures Seqs.IsSubsequence(r, items)
  {
    var keep := (x: Item) => x.id != id;
    Seqs.FilterIsSubsequence(items, keep);
    Seqs.FilterCounts(items, keep);
    Seqs.Filter(items, keep)
  }

  /** The list with every item that has `id` replaced by `updated`, the others where they were. */
  function ReplaceById(items: seq<Item>, id: nat, updated: Item): (r: seq<Item>)
    ensures |r| == |items|
    ensures forall i :: 0 <= i < |items| ==> r[i] == if items[i].id == id then updated else items[i]
  {
    Seqs.Map(items, (x: Item) => if x.id == id then updated else x)
  }

  /** The unchecked items, in their original order and as often as the list holds them. */
  function Unchecked(items: seq<Item>): (r: seq<Item>)
    ensures forall i :: 0 <= i < |r| ==> !r[i].checked && r[i] in items
    ensures forall i :: 0 <= i < |items| && !items[i].checked ==> items[i] in r
    ensures forall x :: multiset(r)[x] == if !x.checked then multiset(items)[x] else 0
    ensures Seqs.IsSubsequence(r, items)
  {
    var keep := (x: Item) => !x.checked;
    Seqs.FilterIsSubsequence(items, keep);
    Seqs.FilterCounts(items, keep);
    Seqs.Filter(items, keep)
  }

  /**
   * The ids of the checked items, in list order: one DELETE request each. Position by position
   * they are the ids of the checked items, which `Seqs.Filter` keeps in order and with their
   * multiplicities.
   */
  function CheckedIds(items: seq<Item>): (ids: seq<nat>)
    ensures var checked := Seqs.Filter(items, IsChecked);
      |ids| == |checked| && forall i :: 0 <= i < |ids| ==> ids[i] == checked[i].id
    ensures |ids| + |Unchecked(items)| == |items|
    ensures forall i :: 0 <= i < |ids| ==> exists j :: 0 <= j < |items| && items[j].checked && items[j].id == ids[i]
    ensures forall j :: 0 <= j < |items| && items[j].checked ==> items[j].id in ids
    ensures Seqs.IsSubsequence(ids, Seqs.Map(items, IdOf))
  {
    var ids := Seqs.Map(Seqs.Filter(items, IsChecked), IdOf);
    Seqs.FilterPartition(items, IsChecked, (x: Item) => !x.checked);
    Seqs.MapFilterIsSubsequence(items, IsChecked, IdOf);
    CheckedIdsCover(items);
    ids
  }

  /** Every checked item's id is among the ids of the checked items. */
  lemma CheckedIdsCover(items: seq<Item>)
    ensures forall j :: 0 <= j < |items| && items[j].checked ==> items[j].id in Seqs.Map(Seqs.Filter(items, IsChecked), IdOf)
  {
    var checked := Seqs.Filter(items, IsChecked);
    var ids := Seqs.Map(checked, IdOf);
    forall j | 0 <= j < |items| && items[j].checked ensures items[j].id in ids {
      var p :| 0 <= p < |checked| && checked[p] == items[j];
      assert ids[p] == items[j].id;
    }
  }

  predicate IsChecked(item: Item) {
    item.checked
  }

  function IdOf(item: Item): nat {
    item.id
  }

  /** The "Delete all checked" button is shown when some item is checked. */
  predicate HasChecked(items: seq<Item>) {
    exists i :: 0 <= i < |items| && items[i].checked
  }

  /** The button is shown exactly when pressing it would send at least one request. */
  lemma ButtonShownIffDeletes(items: seq<Item>)
    ensures HasChecked(items) <==> |CheckedIds(items)| > 0
  {
    if HasChecked(items) {
      var j :| 0 <= j < |items| && items[j].checked;
      assert items[j].id in CheckedIds(items);
    }
  }

  /** After deleting the checked items, none is left and the button is gone. */
  lemma NoCheckedAfterDeleteAll(items: seq<Item>)
    ensures !HasChecked(Unchecked(items))
    ensures Unchecked(Unchecked(items)) == Unchecked(items)
  {
    Seqs.FilterIdempotent(items, (x: Item) => !x.checked);
  }

  /** Deleting the same id twice is deleting it once. */
  lemma DeleteIdempotent(items: seq<Item>, id: nat)
    ensures WithoutId(WithoutId(items, id), id) == WithoutId(items, id)
  {
    Seqs.FilterIdempotent(items, (x: Item) => x.id != id);
  }

  /** Replacing a record by one with the same id changes nothing outside that id. */
  lemma {:induction false} ReplaceKeepsOthers(items: seq<Item>, id: nat, updated: Item)
    requires updated.id == id
    ensures WithoutId(ReplaceById(items, id, updated), id) == WithoutId(items, id)
  {
    if items != [] {
      ReplaceKeepsOthers(items[1..], id, updated);
      assert ReplaceById(items, id, updated)[1..] == ReplaceById(items[1..], id, updated);
    }
  }

  /** Checking an item that is in the list makes the button appear. */
  lemma CheckingShowsButton(items: seq<Item>, id: nat, updated: Item)
    requires exists i :: 0 <= i < |items| && items[i].id == id
    requires updated.checked
    ensures HasChecked(ReplaceById(items, id, updated))
  {
    var i :| 0 <= i < |items| && items[i].id == id;
    assert ReplaceById(items, id, updated)[i].checked;
  }

  /** The suggestion query: the trimmed input, or no request when it is blank. */
  function SuggestionQuery(input: string): (q: Option<string>)
    ensures q.None? <==> AllWhitespace(input)
    ensures q.Some? ==> q.value == Trim(input)
    ensures q.Some? ==> q.value != "" && !IsWhitespace(q.value[0]) && !IsWhitespace(q.value[|q.value| - 1])
  {
    if |Trim(input)| > 0 then Some(Trim(input)) else None
  }

  /* -------------------------------------------- client and server together */

  /**
   * When the shown list holds every row of the server and the typed name has no surrounding
   * whitespace, a name the client sends is never a `(name, "paris")` pair the server holds.
   */
  lemma SentTrimmedNameIsNew(table: map<nat, Item>, items: seq<Item>, input: string)
    requires forall k :: k in table ==> table[k] in items
    requires CheckAdd(items, input).Send? && Trim(input) == input
    ensures !Views.HasItem(table, input, DefaultListName)
  {
  }

  /**
   * Without the premise above the client lets a near-duplicate through: with " milk" shown,
   * typing "milk" is sent, and in this model, which validates names as received (without the
   * framework's whitespace trimming), the server accepts it beside " milk".
   */
  lemma UntrimmedNamesSlipThrough()
    ensures var shown := GroceryItem(1, " milk", 0, false, 0, Paris);
      && CheckAdd([shown], "milk") == Send("milk")
      && Views.ValidateCreate(map[1 := shown], ItemRequest("milk", None, None, None), 2, 0).Ok?
  {
    var shown := GroceryItem(1, " milk", 0, false, 0, Paris);
    TrimmedAlready("milk");
    assert |Lower(" milk")| == 5 && |Lower("milk")| == 4;
    assert !IsDuplicate([shown], "milk");
  }

  /**
   * And the client refuses names the server would take: a "Milk" in list "saussaye" blocks
   * "milk", which the server would store in list "paris".
   */
  lemma ClientStricterThanServer()
    ensures var shown := GroceryItem(1, "Milk", 0, false, 0, Saussaye);
      && CheckAdd([shown], "milk") == Duplicate
      && Views.ValidateCreate(map[1 := shown], ItemRequest("milk", None, None, None), 2, 0).Ok?
  {
    var shown := GroceryItem(1, "Milk", 0, false, 0, Saussaye);
    TrimmedAlready("milk");
    assert Lower("Milk") == Lower("milk") by {
      var upper, lower := Lower("Milk"), Lower("milk");
      assert LowerChar('M') == 'm';
      assert upper[0] == lower[0] && upper[1] == lower[1] && upper[2] == lower[2] && upper[3] == lower[3];
    }
    assert IsDuplicate([shown], "milk") by {
      assert [shown][0].name == "Milk";
    }
    assert !Views.HasItem(map[1 := shown], "milk", Paris) by {
      assert "Milk"[0] != "milk"[0];
    }
  }

  /* --------------------------------------------------------------- state */

  /** The component's state: the shown list, the text field and the suggestion list. */
  class App {
    var items: seq<Item>
    var input: string
    var suggestions: seq<GroceryHistory>

    constructor ()
      ensures items == [] && input == "" && suggestions == []
    {
      items, input, suggestions := [], "", [];
    }

    /** The initial load replaces the list by the server's listing. */
    method LoadItems(listing: seq<Item>)
      modifies this
      ensures items == listing && input == old(input) && suggestions == old(suggestions)
    {
      items := listing;
    }

    /** Typing in the field. */
    method SetInput(value: string)
      modifies this
      ensures input == value && items == old(items) && suggestions == old(suggestions)
    {
      input := value;
    }

    /**
     * The effect that runs when `input` changes: blank input clears the suggestions without a
     * request; otherwise the trimmed input is sent as `q` and the reply, if any, is shown.
     */
    method RefreshSuggestions(reply: Option<seq<GroceryHistory>>) returns (query: Option<string>)
      modifies this
      ensures query == SuggestionQuery(old(input))
      ensures query.None? ==> suggestions == []
      ensures query.Some? ==> suggestions == reply.GetOr(old(suggestions))
      ensures items == old(items) && input == old(input)
    {
      query := SuggestionQuery(input);
      if query.None? {
        suggestions := [];
      } else if reply.Some? {
        suggestions := reply.value;
      }
    }

    /**
     * `addItem`: blank input does nothing; a duplicate only raises a notice; otherwise the raw
     * input is sent, and on success the record is appended, the field cleared and the
     * suggestions hidden, while on failure only a notice is raised.
     */
    method AddItem(outcome: AddOutcome) returns (request: Option<string>, alert: Option<string>)
      modifies this
      ensures request.Some? <==> CheckAdd(old(items), old(input)).Send?
      ensures request.Some? ==> request.value == old(input)
      ensures request.None? ==> items == old(items) && input == old(input) && suggestions == old(suggestions)
      ensures CheckAdd(old(items), old(input)) == Blank ==> alert == None
      ensures CheckAdd(old(items), old(input)) == Duplicate ==> alert == Some(DuplicateAlert)
      ensures request.Some? && outcome.Created? ==>
        items == old(items) + [outcome.record] && input == "" && suggestions == [] && alert == None
      ensures request.Some? && outcome.Failed? ==>
        items == old(items) && input == old(input) && suggestions == old(suggestions) &&
        alert == Some(AddFailureAlert(outcome.failure))
    {
      match CheckAdd(items, input)
      case Blank =>
        request, alert := None, None;
      case Duplicate =>
        request, alert := None, Some(DuplicateAlert);
      case Send(body) =>
        request := Some(body);
        match outcome
        case Created(record) =>
          items, input, suggestions := items + [record], "", [];
          alert := None;
        case Failed(failure) =>
          alert := Some(AddFailureAlert(failure));
    }

    /**
     * `deleteItem`: once the DELETE request resolves (whatever its status) the items with that
     * id are dropped; if the request rejects (network failure) nothing changes.
     */
    method DeleteItem(id: nat, resolved: bool)
      modifies this
      ensures items == if resolved then WithoutId(old(items), id) else old(items)
      ensures input == old(input) && suggestions == old(suggestions)
    {
      if resolved {
        items := WithoutId(items, id);
      }
    }

    /**
     * `toggleChecked`: sends the negation of the `checked` it is given; the record in the reply
     * replaces every item with that id. No reply (network failure) changes nothing.
     */
    method ToggleChecked(id: nat, checked: bool, reply: Option<Item>) returns (patch: bool)
      modifies this
      ensures patch == !checked
      ensures items == if reply.Some? then ReplaceById(old(items), id, reply.value) else old(items)
      ensures input == old(input) && suggestions == old(suggestions)
    {
      patch := !checked;
      if reply.Some? {
        items := ReplaceById(items, id, reply.value);
      }
    }

    /**
     * `deleteAllChecked`: one DELETE per checked item, in list order; once all have resolved
     * the list keeps exactly its unchecked items, in order. If any request rejects, the combined
     * promise rejects and the list is unchanged, even though other deletes may have reached the
     * server.
     */
    method DeleteAllChecked(allResolved: bool) returns (deletes: seq<nat>)
      modifies this
      ensures deletes == CheckedIds(old(items))
      ensures items == if allResolved then Unchecked(old(items)) else old(items)
      ensures input == old(input) && suggestions == old(suggestions)
    {
      deletes := CheckedIds(items);
      if allResolved {
        items := Unchecked(items);
      }
    }

    /** `handleSuggestion`: the picked name becomes the input and the suggestions close. */
    method HandleSuggestion(name: string)
      modifies this
      ensures input == name && suggestions == [] && items == old(items)
    {
      input, suggestions := name, [];
    }

    /** Whether the "Delete all checked" button is rendered. */
    function ShowDeleteAllChecked(): (shown: bool)
      reads this
      ensures shown <==> |CheckedIds(items)| > 0
    {
      ButtonShownIffDeletes(items);
      HasChecked(items)
    }
  }
}

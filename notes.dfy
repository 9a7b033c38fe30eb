/** The notes panel: two free-text notes, a budget list and a shopping
    list, edited through the panel's handlers. */
module Notes {
  import opened Common
  import opened Lists

  /** A budget line. The amount is kept as the text typed into the amount
      box: its conversion to a floating-point number is not modelled. */
  datatype BudgetItem = BudgetItem(id: int, item: string, amount: string)

  datatype ShoppingItem = ShoppingItem(id: int, item: string, checked: bool)

  /** The two free-text notes the text areas edit. */
  datatype TextField = TransportNotes | GeneralNotes

  function BudgetId(b: BudgetItem): int {
    b.id
  }

  function ShoppingId(s: ShoppingItem): int {
    s.id
  }

  /* ---------- the list operations ---------- */

  /** The items whose id is not `id`, in order. */
  function Delete<T>(s: seq<T>, idOf: T -> int, id: int): (r: seq<T>)
    ensures |r| <= |s|
  {
    Filter(s, (x: T) => idOf(x) != id)
  }

  /** Deleting removes exactly the items with that id. */
  lemma {:induction false} DeleteExact<T>(s: seq<T>, idOf: T -> int, id: int, x: T)
    ensures x in Delete(s, idOf, id) <==> x in s && idOf(x) != id
  {
    if x in Delete(s, idOf, id) {
      FilterSound(s, (x: T) => idOf(x) != id, x);
    }
    if x in s && idOf(x) != id {
      FilterComplete(s, (x: T) => idOf(x) != id, x);
    }
  }

  /** Deleting keeps the other items in their order. */
  lemma {:induction false} DeleteOrder<T>(s: seq<T>, idOf: T -> int, id: int)
    ensures Subseq(Delete(s, idOf, id), s)
  {
    FilterOrder(s, (x: T) => idOf(x) != id);
  }

  /** Deleting an id that no item has changes nothing. */
  lemma {:induction false} DeleteAbsent<T>(s: seq<T>, idOf: T -> int, id: int)
    requires forall i :: 0 <= i < |s| ==> idOf(s[i]) != id
    ensures Delete(s, idOf, id) == s
  {
    FilterAll(s, (x: T) => idOf(x) != id);
  }

  /** Deleting the item just added under a fresh id gives back the list as
      it was. */
  lemma {:induction false} DeleteAfterAdd<T>(s: seq<T>, idOf: T -> int, x: T)
    requires forall i :: 0 <= i < |s| ==> idOf(s[i]) != idOf(x)
    ensures Delete(s + [x], idOf, idOf(x)) == s
  {
    var p := (y: T) => idOf(y) != idOf(x);
    FilterAppend(s, [x], p);
    FilterAll(s, p);
    assert Front([x]) == [];
  }

  /** Deleting twice is deleting once. */
  lemma {:induction false} DeleteTwice<T>(s: seq<T>, idOf: T -> int, id: int)
    ensures Delete(Delete(s, idOf, id), idOf, id) == Delete(s, idOf, id)
  {
    var d := Delete(s, idOf, id);
    forall i | 0 <= i < |d|
      ensures idOf(d[i]) != id
    {
      DeleteExact(s, idOf, id, d[i]);
    }
    DeleteAbsent(d, idOf, id);
  }

  /** toggleShoppingItem's map: the items with that id have their check
      mark flipped. */
  function Toggled(items: seq<ShoppingItem>, id: int): (r: seq<ShoppingItem>)
    ensures |r| == |items|
  {
    seq(|items|, i requires 0 <= i < |items| =>
      if items[i].id == id then items[i].(checked := !items[i].checked) else items[i])
  }

  /** Toggling changes only the check mark, and only on the items with that
      id; every other item stays as it was. */
  lemma {:induction false} ToggledChanges(items: seq<ShoppingItem>, id: int, i: nat)
    requires i < |items|
    ensures Toggled(items, id)[i].id == items[i].id && Toggled(items, id)[i].item == items[i].item
    ensures Toggled(items, id)[i].checked != items[i].checked <==> items[i].id == id
  {
  }

  /** Toggling the same id twice restores the list. */
  lemma {:induction false} ToggleTwice(items: seq<ShoppingItem>, id: int)
    ensures Toggled(Toggled(items, id), id) == items
  {
    var t := Toggled(items, id);
    assert forall i :: 0 <= i < |items| ==> Toggled(t, id)[i] == items[i];
  }

  /** Toggling an id that no item has changes nothing. */
  lemma {:induction false} ToggleAbsent(items: seq<ShoppingItem>, id: int)
    requires forall i :: 0 <= i < |items| ==> items[i].id != id
    ensures Toggled(items, id) == items
  {
  }

  /* ---------- the panel ---------- */

  class NotesModal {
    var transport: string
    var general: string
    var budget: seq<BudgetItem>
    var shopping: seq<ShoppingItem>
    /** The budget form's two input boxes. */
    var budgetItemInput: string
    var budgetAmountInput: string
    /** The shopping form's input box. */
    var shoppingInput: string

    /** A panel with no saved notes: empty texts, empty lists and empty
        input boxes. */
    constructor()
      ensures transport == [] && general == [] && budget == [] && shopping == []
      ensures budgetItemInput == [] && budgetAmountInput == [] && shoppingInput == []
    {
      transport := [];
      general := [];
      budget := [];
      shopping := [];
      budgetItemInput := [];
      budgetAmountInput := [];
      shoppingInput := [];
    }

    /** handleTextChange: the named note takes the new text; nothing else
        changes. */
    method HandleTextChange(field: TextField, value: string)
      modifies this
      ensures field == TransportNotes ==> transport == value && general == old(general)
      ensures field == GeneralNotes ==> general == value && transport == old(transport)
      ensures budget == old(budget) && shopping == old(shopping)
      ensures budgetItemInput == old(budgetItemInput) && budgetAmountInput == old(budgetAmountInput)
      ensures shoppingInput == old(shoppingInput)
    {
      match field
      case TransportNotes => transport := value;
      case GeneralNotes => general := value;
    }

    /** Typing into the budget form's item box. */
    method SetBudgetItemInput(value: string)
      modifies this
      ensures budgetItemInput == value && budgetAmountInput == old(budgetAmountInput)
      ensures transport == old(transport) && general == old(general)
      ensures budget == old(budget) && shopping == old(shopping) && shoppingInput == old(shoppingInput)
    {
      budgetItemInput := value;
    }

    /** Typing into the budget form's amount box. */
    method SetBudgetAmountInput(value: string)
      modifies this
      ensures budgetAmountInput == value && budgetItemInput == old(budgetItemInput)
      ensures transport == old(transport) && general == old(general)
      ensures budget == old(budget) && shopping == old(shopping) && shoppingInput == old(shoppingInput)
    {
      budgetAmountInput := value;
    }

    /** Typing into the shopping form's box. */
    method SetShoppingInput(value: string)
      modifies this
      ensures shoppingInput == value
      ensures budgetItemInput == old(budgetItemInput) && budgetAmountInput == old(budgetAmountInput)
      ensures transport == old(transport) && general == old(general)
      ensures budget == old(budget) && shopping == old(shopping)
    {
      shoppingInput := value;
    }

    /** addBudgetItem: with an empty item or amount box nothing happens;
        otherwise one item with the boxes' contents and the id `now` is
        appended and both boxes are cleared. */
    method AddBudgetItem(now: int)
      modifies this
      ensures old(budgetItemInput) == [] || old(budgetAmountInput) == [] ==>
        budget == old(budget) && budgetItemInput == old(budgetItemInput) && budgetAmountInput == old(budgetAmountInput)
      ensures old(budgetItemInput) != [] && old(budgetAmountInput) != [] ==>
        budget == old(budget) + [BudgetItem(now, old(budgetItemInput), old(budgetAmountInput))]
        && budgetItemInput == [] && budgetAmountInput == []
      ensures transport == old(transport) && general == old(general)
      ensures shopping == old(shopping) && shoppingInput == old(shoppingInput)
    {
      if budgetItemInput == [] || budgetAmountInput == [] {
        return;
      }
      var newItem := BudgetItem(now, budgetItemInput, budgetAmountInput);
      budget := budget + [newItem];
      budgetItemInput := [];
      budgetAmountInput := [];
    }

    /** deleteBudgetItem: the budget loses the items with that id. */
    method DeleteBudgetItem(id: int)
      modifies this
      ensures budget == Delete(old(budget), BudgetId, id)
      ensures transport == old(transport) && general == old(general) && shopping == old(shopping)
      ensures budgetItemInput == old(budgetItemInput) && budgetAmountInput == old(budgetAmountInput)
      ensures shoppingInput == old(shoppingInput)
    {
      budget := Delete(budget, BudgetId, id);
    }

    /** addShoppingItem: an input that is empty once trimmed adds nothing;
        otherwise an unchecked item holding the input as typed, untrimmed,
        is appended under the id `now`, and the box is cleared. */
    method AddShoppingItem(now: int)
      modifies this
      ensures Trim(old(shoppingInput)) == [] ==> shopping == old(shopping) && shoppingInput == old(shoppingInput)
      ensures Trim(old(shoppingInput)) != [] ==>
        shopping == old(shopping) + [ShoppingItem(now, old(shoppingInput), false)] && shoppingInput == []
      ensures transport == old(transport) && general == old(general) && budget == old(budget)
      ensures budgetItemInput == old(budgetItemInput) && budgetAmountInput == old(budgetAmountInput)
    {
      if Trim(shoppingInput) == [] {
        return;
      }
      var newItem := ShoppingItem(now, shoppingInput, false);
      shopping := shopping + [newItem];
      shoppingInput := [];
    }

    /** toggleShoppingItem: the items with that id flip their check mark. */
    method ToggleShoppingItem(id: int)
      modifies this
      ensures shopping == Toggled(old(shopping), id)
      ensures transport == old(transport) && general == old(general) && budget == old(budget)
      ensures budgetItemInput == old(budgetItemInput) && budgetAmountInput == old(budgetAmountInput)
      ensures shoppingInput == old(shoppingInput)
    {
      shopping := Toggled(shopping, id);
    }

    /** deleteShoppingItem: the shopping list loses the items with that
        id. */
    method DeleteShoppingItem(id: int)
      modifies this
      ensures shopping == Delete(old(shopping), ShoppingId, id)
      ensures transport == old(transport) && general == old(general) && budget == old(budget)
      ensures budgetItemInput == old(budgetItemInput) && budgetAmountInput == old(budgetAmountInput)
      ensures shoppingInput == old(shoppingInput)
    {
      shopping := Delete(shopping, ShoppingId, id);
    }
  }
}

/**
 * The shopping list as the page keeps it: the items in display order, the
 * stored snapshot, and whether the "all fetched" message is showing.  Each
 * handler of the page becomes a method; the user's answers to `confirm` and
 * `prompt` are its inputs.
 */
module ShoppingList {
  import opened Wrappers
  import opened Text
  import opened Catalog
  import opened Quantity
  import opened Items
  import opened Snapshot

  /** Where on an item a click landed. */
  datatype Button = CheckButton | RemoveButton | IncreaseButton | DecreaseButton | Elsewhere

  /** The quantity step a click asks for. */
  function AdjustmentOf(button: Button): Adjustment
  {
    match button
    case IncreaseButton => Increase
    case DecreaseButton => Decrease
    case _ => Keep
  }

  /** How a request to add a product ended. */
  datatype AddOutcome =
    | BlankName          // the trimmed name was empty: an alert, nothing added
    | DuplicateDeclined  // the name is already listed and the user declined to add it again
    | AwaitingQuantity   // no answer so far ended the quantity prompt: nothing added yet
    | Added              // one new item at the end of the list

  /** The item `addProduct` appends for a resolved product and a chosen quantity. */
  function NewItem(product: Resolved, quantity: real): (item: Item)
    requires quantity >= 0.0
    ensures !item.completed
    ensures ValidUnit(product.unit) ==>
              ParseDisplay(item.quantityText) == Some((Num(Shown(quantity)), product.unit))
  {
    var text := FormatQuantity(quantity, product.unit);
    assert ValidUnit(product.unit) ==> ParseDisplay(text) == Some((Num(Shown(quantity)), product.unit)) by {
      if ValidUnit(product.unit) {
        DisplayRoundTrip(quantity, product.unit);
      }
    }
    Item(product.name, text, product.image, false, product.placeholder)
  }

  /** Some listed item has the same folded name as `name`. */
  predicate HasFoldedName(items: seq<Item>, name: string)
  {
    exists j :: 0 <= j < |items| && Fold(items[j].name) == Fold(name)
  }

  /**
   * Item `item` after a click on one of its buttons other than remove: the
   * check button flips its mark, and its quantity text is re-formatted after
   * the step the button asks for, or kept when the text does not read back
   * or the button is a decrease from a value of one step or less.
   */
  function Clicked(item: Item, button: Button): (r: Item)
    ensures r.name == item.name && r.image == item.image && r.placeholder == item.placeholder
    ensures r.completed <==> (item.completed <==> button != CheckButton)
    ensures AdjustText(item.quantityText, AdjustmentOf(button)).None? ==> r.quantityText == item.quantityText
  {
    var text := AdjustText(item.quantityText, AdjustmentOf(button)).GetOr(item.quantityText);
    item.(completed := item.completed != (button == CheckButton), quantityText := text)
  }

  /** A click on a canonical quantity text leaves a canonical quantity text. */
  lemma ClickKeepsCanonical(item: Item, button: Button)
    requires Canonical(item.quantityText)
    ensures Canonical(Clicked(item, button).quantityText)
  {
    AdjustKeepsCanonical(item.quantityText, AdjustmentOf(button));
  }

  /** Checking an item twice gives it back as it was, once its quantity text is canonical. */
  lemma CheckTwiceRestores(item: Item)
    requires Canonical(item.quantityText)
    ensures Clicked(item, CheckButton).completed == !item.completed
    ensures Clicked(Clicked(item, CheckButton), CheckButton) == item
  {
    KeepRewritesCanonical(item.quantityText);
  }

  class ShoppingList {
    var items: seq<Item>
    var stored: Option<seq<Record>>
    var completionShown: bool

    /** The completion message always reflects the current items. */
    ghost predicate Valid()
      reads this
    {
      completionShown == AllFetched(items)
    }

    /** The page before `loadList` has run: no items, whatever the storage holds. */
    constructor (storage: Option<seq<Record>>)
      ensures Valid()
      ensures items == [] && stored == storage && !completionShown
    {
      items := [];
      stored := storage;
      completionShown := false;
    }

    /** `checkCompletion`. */
    method CheckCompletion()
      modifies this`completionShown
      ensures completionShown == AllFetched(items)
    {
      var totalItems := |items|;
      var completedItems := CountCompleted(items);
      completionShown := totalItems > 0 && totalItems == completedItems;
    }

    /** `saveList`: one record per item, pushed in list order, overwriting the stored snapshot. */
    method SaveList()
      modifies this`stored
      ensures stored == Some(Save(items))
    {
      var records: seq<Record> := [];
      var k := 0;
      while k < |items|
        invariant 0 <= k <= |items|
        invariant |records| == k
        invariant forall j :: 0 <= j < k ==> records[j] == ToRecord(items[j])
      {
        records := records + [ToRecord(items[k])];
        k := k + 1;
      }
      assert records == Save(items);
      stored := Some(records);
    }

    /** `loadList`: the list is rebuilt from the stored snapshot, or left empty when there is none. */
    method LoadList()
      modifies this
      ensures Valid()
      ensures items == Load(stored.GetOr([])) && stored == old(stored)
    {
      var records := stored.GetOr([]);
      items := [];
      var k := 0;
      while k < |records|
        invariant 0 <= k <= |records|
        invariant stored == old(stored)
        invariant |items| == k
        invariant forall j :: 0 <= j < k ==> items[j] == FromRecord(records[j])
      {
        items := items + [FromRecord(records[k])];
        k := k + 1;
      }
      assert items == Load(records);
      CheckCompletion();
    }

    /** The duplicate scan of `addProduct`: is some listed name equal to `name` once both are folded? */
    method IsDuplicate(name: string) returns (isDuplicate: bool)
      ensures isDuplicate <==> HasFoldedName(items, name)
    {
      var list := items;
      isDuplicate := false;
      for j := 0 to |list|
        invariant isDuplicate <==> HasFoldedName(list[..j], name)
      {
        assert list[..j + 1] == list[..j] + [list[j]];
        if Fold(list[j].name) == Fold(name) {
          isDuplicate := true;
        }
      }
      assert list[..|list|] == list;
    }

    /**
     * `addProduct`.  A blank name, a declined duplicate, or answers that never
     * end the quantity prompt leave the list and the snapshot as they were.
     * Otherwise exactly one new, uncompleted item is appended, built from the
     * catalog lookup and the chosen quantity, and the list is saved.
     */
    method AddProduct(input: string, catalog: seq<Product>, confirmAgain: bool, answers: seq<Option<string>>)
      returns (outcome: AddOutcome)
      requires Valid()
      modifies this
      ensures Valid()
      ensures outcome == BlankName <==> Trim(input) == ""
      ensures outcome == DuplicateDeclined <==>
                Trim(input) != "" && !confirmAgain && HasFoldedName(old(items), Resolve(catalog, Trim(input)).name)
      ensures outcome == AwaitingQuantity <==>
                Trim(input) != "" && (confirmAgain || !HasFoldedName(old(items), Resolve(catalog, Trim(input)).name))
                && ChosenQuantity(answers).None?
      ensures outcome != Added ==> items == old(items) && stored == old(stored)
      ensures outcome == Added ==>
                && ChosenQuantity(answers).Some?
                && items == old(items) + [NewItem(Resolve(catalog, Trim(input)), ChosenQuantity(answers).value)]
                && stored == Some(Save(items))
                && !completionShown
    {
      var productNameInput := Trim(input);
      if productNameInput == "" {
        return BlankName;
      }
      var productData := Resolve(catalog, productNameInput);
      var isDuplicate := IsDuplicate(productData.name);
      if isDuplicate && !confirmAgain {
        return DuplicateDeclined;
      }
      var quantity, _ := PromptQuantity(answers);
      if quantity.None? {
        return AwaitingQuantity;
      }
      items := items + [NewItem(productData, quantity.value)];
      SaveList();
      CheckCompletion();
      outcome := Added;
    }

    /** The check button: item `index` flips its `completed` mark; the list is saved and the message updated. */
    method Toggle(index: nat)
      requires index < |items|
      modifies this
      ensures Valid()
      ensures items == old(items)[index := old(items)[index].(completed := !old(items)[index].completed)]
      ensures stored == Some(Save(items))
    {
      var item := items[index];
      item := item.(completed := !item.completed);
      items := items[index := item];
      SaveList();
      CheckCompletion();
    }

    /** The remove button: item `index` leaves the list; the list is saved and the message updated. */
    method Remove(index: nat)
      requires index < |items|
      modifies this
      ensures Valid()
      ensures items == old(items)[..index] + old(items)[index + 1..]
      ensures stored == Some(Save(items))
    {
      items := items[..index] + items[index + 1..];
      SaveList();
      CheckCompletion();
    }

    /** The quantity text of item `index` is replaced and the list saved; the message is unaffected. */
    method SetQuantityText(index: nat, text: string)
      requires Valid() && index < |items|
      modifies this
      ensures Valid()
      ensures items == old(items)[index := old(items)[index].(quantityText := text)]
      ensures stored == Some(Save(items))
    {
      ghost var before := items;
      items := items[index := items[index].(quantityText := text)];
      SameMarksSameSignal(before, items);
      SaveList();
    }

    /**
     * The click handler of the list, for a click on item `index` (an index
     * past the end stands for a click that hit no item).  The check button
     * flips that item's `completed` flag and the remove button deletes it,
     * each followed by a save; then, on the item as it now is, the quantity
     * text is re-read, stepped by the + or - button or kept, re-formatted and
     * saved, unless the pattern does not match or a decrease starts from a
     * value of one step or less.  After a removal that re-format touches only the
     * removed item, so it saves the list unchanged.  Nothing else changes.
     */
    method Click(index: nat, button: Button)
      requires Valid()
      modifies this
      ensures Valid()
      ensures index >= |old(items)| ==> items == old(items) && stored == old(stored)
      ensures index < |old(items)| && button == RemoveButton ==>
                items == old(items)[..index] + old(items)[index + 1..] && stored == Some(Save(items))
      ensures index < |old(items)| && button != RemoveButton ==>
                items == old(items)[index := Clicked(old(items)[index], button)]
      ensures index < |old(items)| && button != RemoveButton ==>
                stored == if button == CheckButton || AdjustText(old(items)[index].quantityText, AdjustmentOf(button)).Some?
                          then Some(Save(items)) else old(stored)
    {
      if index >= |items| {
        return;
      }
      var item := items[index];
      var adjusted := AdjustText(item.quantityText, AdjustmentOf(button));
      if button == CheckButton {
        Toggle(index);
      }
      if button == RemoveButton {
        Remove(index);
        if adjusted.Some? {
          SaveList();
        }
        return;
      }
      if adjusted.Some? {
        SetQuantityText(index, adjusted.value);
      }
    }

    /** The clear button: the snapshot is removed and the list emptied. */
    method ClearList()
      modifies this
      ensures Valid()
      ensures items == [] && stored == None && !completionShown
    {
      stored := None;
      items := [];
      CheckCompletion();
    }
  }
}

/** The list items and the "everything has been fetched" signal derived from them. */
module Items {

  /**
   * One line of the list as the page holds it: the name shown, the quantity
   * text, the image URL, whether it has been fetched (`completed`) and
   * whether it stands for a product the catalog did not know.
   */
  datatype Item = Item(name: string, quantityText: string, image: string, completed: bool, placeholder: bool)

  /** How many items carry the `completed` mark. */
  function CountCompleted(items: seq<Item>): (n: nat)
    ensures n <= |items|
    ensures n == |items| <==> forall j :: 0 <= j < |items| ==> items[j].completed
  {
    if items == [] then 0
    else CountCompleted(items[..|items| - 1]) + (if items[|items| - 1].completed then 1 else 0)
  }

  /**
   * `checkCompletion`: the message shows when there is at least one item and
   * as many completed items as items.  So it holds exactly when the list is
   * non-empty and every item is completed; the empty list never shows it.
   */
  function AllFetched(items: seq<Item>): (shown: bool)
    ensures shown <==> |items| > 0 && forall j :: 0 <= j < |items| ==> items[j].completed
  {
    var totalItems := |items|;
    var completedItems := CountCompleted(items);
    totalItems > 0 && totalItems == completedItems
  }

  /** The signal depends on the `completed` flags alone. */
  lemma SameMarksSameSignal(a: seq<Item>, b: seq<Item>)
    requires |a| == |b|
    requires forall j :: 0 <= j < |a| ==> a[j].completed == b[j].completed
    ensures AllFetched(a) == AllFetched(b)
  {
  }
}

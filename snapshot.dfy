/**
 * The stored snapshot of the list (`saveList` / `loadList`): one record per
 * item, in list order.  The snapshot is kept as a sequence of records; its
 * JSON text and the browser storage that holds it are not modelled.
 */
module Snapshot {
  import opened Text
  import opened Catalog
  import opened Quantity
  import opened Items

  /** One stored item; `unit` is written but never read back. */
  datatype Record = Record(name: string, quantity: string, unit: string, image: string,
                           completed: bool, isPlaceholder: bool)

  /** `s.match(/[a-zA-Z]+$/)`, or the empty string when `s` does not end in a letter. */
  function TrailingLetters(s: string): (r: string)
    ensures |r| <= |s| && forall i :: 0 <= i < |r| ==> r[i] == s[|s| - |r| + i]
    ensures AllLetters(r)
    ensures |r| < |s| ==> !IsAsciiLetter(s[|s| - |r| - 1])
  {
    if s != [] && IsAsciiLetter(s[|s| - 1]) then
      var r := TrailingLetters(s[..|s| - 1]) + [s[|s| - 1]];
      assert s[..|s| - 1][|s| - |r|..] + [s[|s| - 1]] == s[|s| - |r|..];
      r
    else []
  }

  /** The record `saveList` writes for one item. */
  function ToRecord(item: Item): (r: Record)
    ensures AllLetters(r.unit)
    ensures FromRecord(r) == item.(placeholder := item.image == PlaceholderImage || item.placeholder)
  {
    Record(item.name, item.quantityText, TrailingLetters(item.quantityText), item.image,
           item.completed, item.placeholder)
  }

  /** The item `loadList` rebuilds from one record: the placeholder URL always marks a placeholder. */
  function FromRecord(r: Record): (item: Item)
    ensures item.image == PlaceholderImage ==> item.placeholder
    ensures r.isPlaceholder ==> item.placeholder
  {
    Item(r.name, r.quantity, r.image, r.completed, r.image == PlaceholderImage || r.isPlaceholder)
  }

  /** The snapshot of a list: its items' records, in order. */
  function Save(items: seq<Item>): (records: seq<Record>)
    ensures |records| == |items|
  {
    seq(|items|, j requires 0 <= j < |items| => ToRecord(items[j]))
  }

  /** The list rebuilt from a snapshot, in order. */
  function Load(records: seq<Record>): (items: seq<Item>)
    ensures |items| == |records|
  {
    seq(|records|, j requires 0 <= j < |records| => FromRecord(records[j]))
  }

  /** Every item that shows the placeholder image is marked as a placeholder. */
  predicate PlaceholdersMarked(items: seq<Item>)
  {
    forall j :: 0 <= j < |items| ==> items[j].image == PlaceholderImage ==> items[j].placeholder
  }

  /**
   * Saving then loading gives the list back, every field of every item in
   * order, exactly when every item showing the placeholder image is marked
   * as a placeholder.
   */
  lemma SaveLoadRoundTrip(items: seq<Item>)
    ensures Load(Save(items)) == items <==> PlaceholdersMarked(items)
  {
    var back := Load(Save(items));
    forall j | 0 <= j < |items|
      ensures back[j] == items[j].(placeholder := items[j].image == PlaceholderImage || items[j].placeholder)
    {
    }
    if PlaceholdersMarked(items) {
      assert forall j :: 0 <= j < |items| ==> back[j] == items[j];
    } else {
      var j :| 0 <= j < |items| && items[j].image == PlaceholderImage && !items[j].placeholder;
      assert back[j] != items[j];
    }
  }

  /** A loaded list saves and loads back to itself. */
  lemma LoadSaveLoad(records: seq<Record>)
    ensures PlaceholdersMarked(Load(records))
    ensures Load(Save(Load(records))) == Load(records)
  {
    SaveLoadRoundTrip(Load(records));
  }

  /** The trailing letters after a non-letter are exactly the letters that follow it. */
  lemma {:induction false} TrailingLettersAfter(prefix: string, unit: string)
    requires prefix != [] && !IsAsciiLetter(prefix[|prefix| - 1])
    requires AllLetters(unit)
    ensures TrailingLetters(prefix + unit) == unit
  {
    if unit == [] {
      assert prefix + unit == prefix;
    } else {
      var last := unit[|unit| - 1];
      var init := unit[..|unit| - 1];
      assert (prefix + unit)[..|prefix + unit| - 1] == prefix + init;
      TrailingLettersAfter(prefix, init);
    }
  }

  /** The unit saved for a quantity text is the unit it was formatted with. */
  lemma SavedUnitOfQuantity(v: real, unit: string)
    requires v >= 0.0
    requires AllLetters(unit)
    ensures TrailingLetters(FormatQuantity(v, unit)) == unit
  {
    var number := if IsIntegral(v) then IntToString(v.Floor) else FixedTwo(v);
    assert FormatQuantity(v, unit) == (number + " ") + unit;
    TrailingLettersAfter(number + " ", unit);
  }
}

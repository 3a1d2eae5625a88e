/**
 * The grocery list panel: a text input whose content is the `newItem` state
 * cell, submitted with Enter, and one row per item with a remove button.
 */
module GroceryListView {
  import opened Wrappers
  import opened JsString
  import opened Participants

  /**
   * What a key press hands to `onAddItem`: the trimmed input when the key is
   * Enter and the input is not blank, nothing otherwise. What is handed over
   * is never empty and has no whitespace at either end.
   */
  function SubmittedItem(key: string, text: string): (r: Option<string>)
    ensures r.Some? <==> key == "Enter" && !Blank(text)
    ensures r.Some? ==> r.value == Trim(text) && r.value != [] && Trimmed(r.value)
  {
    if key == "Enter" && Trim(text) != [] then Some(Trim(text)) else None
  }

  /** Submitting the already trimmed text hands over the same item: the gate sees through whitespace. */
  lemma SubmitTrimmedText(key: string, text: string)
    ensures SubmittedItem(key, Trim(text)) == SubmittedItem(key, text)
  {
    TrimIdempotent(text);
  }

  /** A blank input, in particular the cleared one, submits nothing. */
  lemma BlankSubmitsNothing(key: string, text: string)
    requires Blank(text)
    ensures SubmittedItem(key, text) == None
  {
  }

  class GroceryList {
    /** The text of the input. */
    var newItem: string

    /** `useState('')`: the input starts empty. */
    constructor ()
      ensures newItem == ""
    {
      newItem := "";
    }

    /** The input's `onChange`: the state follows what was typed. */
    method OnChange(value: string)
      modifies this
      ensures newItem == value
    {
      newItem := value;
    }

    /**
     * `handleKeyDown`: on Enter with a non-blank input, passes the trimmed
     * input to `onAddItem` (returned here as `added`), clears the input and
     * prevents the default action; any other key press changes nothing.
     */
    method HandleKeyDown(key: string) returns (added: Option<string>, preventDefault: bool)
      modifies this
      ensures added == SubmittedItem(key, old(newItem))
      ensures preventDefault <==> added.Some?
      ensures newItem == if added.Some? then "" else old(newItem)
    {
      var trimmed := Trim(newItem);
      if key == "Enter" && trimmed != [] {
        added := Some(trimmed);
        newItem := "";
        preventDefault := true;
      } else {
        added := None;
        preventDefault := false;
      }
    }
  }

  /** One rendered row: the item's text and the index its remove button reports. */
  datatype ItemRow = ItemRow(item: string, removeIndex: int)

  /** `items.map((item, index) => …)` with the indexes counted from `from`. */
  function ItemRowsFrom(items: seq<string>, from: int): (rows: seq<ItemRow>)
    ensures |rows| == |items|
    ensures forall k :: 0 <= k < |items| ==> rows[k].item == items[k] && rows[k].removeIndex == from + k
    decreases |items|
  {
    if items == [] then [] else [ItemRow(items[0], from)] + ItemRowsFrom(items[1..], from + 1)
  }

  /** The rows of the list; an empty list renders the "No items added yet" line instead, so no rows. */
  function ItemRows(items: seq<string>): seq<ItemRow> {
    ItemRowsFrom(items, 0)
  }

  /**
   * Each row's remove button names its own position, so the page's removal
   * takes out exactly that row's item and keeps the others in order.
   */
  lemma RemoveButtonRemovesItsRow(items: seq<string>, k: int)
    requires 0 <= k < |items|
    ensures ItemRows(items)[k].item == items[k]
    ensures RemoveAt(items, ItemRows(items)[k].removeIndex) == items[..k] + items[k + 1..]
  {
    RemoveAtCuts(items, k);
  }

  /** Enter in a panel with a non-blank input, followed by the page's add, appends the trimmed text to the list. */
  lemma EnterAppendsTrimmed(p: Participant, text: string)
    requires !Blank(text)
    ensures var added := SubmittedItem("Enter", text);
            added.Some? && ApplyEdit(p, AppendItem(added.value)).groceryList == p.groceryList + [Trim(text)]
  {
  }
}

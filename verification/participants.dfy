/**
 * The participant records of the Index page and the pure list transformations
 * its handlers pass to `setParticipants`: each is `participants.map(p => p.id ===
 * activeParticipantId ? <edited p> : p)`, and the active participant is found
 * with `participants.find(p => p.id === activeParticipantId) || participants[0]`.
 */
module Participants {
  import opened Wrappers

  datatype Participant = Participant(
    id: string,
    name: string,
    selectedDate: Option<string>,  // `null` is None
    groceryList: seq<string>)

  /** The record update each handler applies to the matching participant. */
  datatype Edit =
    | SetDate(date: string)        // handleDateSelect
    | AppendItem(item: string)     // handleAddGroceryItem
    | RemoveItemAt(index: int)     // handleRemoveGroceryItem

  /**
   * `list.filter((_, i) => i !== index)` on the part of a list that starts at
   * position `from`: keeps every element whose position differs from `index`.
   */
  function KeepOtherPositions(list: seq<string>, index: int, from: int): seq<string>
    decreases |list|
  {
    if list == [] then []
    else (if from == index then [] else [list[0]]) + KeepOtherPositions(list[1..], index, from + 1)
  }

  /** The grocery-list filter of handleRemoveGroceryItem. */
  function RemoveAt(list: seq<string>, index: int): seq<string> {
    KeepOtherPositions(list, index, 0)
  }

  /**
   * Filtering out one position cuts exactly that element out of the list when the
   * position lies inside it, and leaves the list as it was otherwise.
   */
  lemma {:induction false} KeepOtherPositionsCuts(list: seq<string>, index: int, from: int)
    ensures KeepOtherPositions(list, index, from) ==
      if from <= index < from + |list| then list[..index - from] + list[index - from + 1..] else list
    decreases |list|
  {
    if list != [] {
      KeepOtherPositionsCuts(list[1..], index, from + 1);
      if from == index {
        assert list[index - from + 1..] == list[1..];
      } else if from < index < from + |list| {
        assert list[..index - from] == [list[0]] + list[1..][..index - from - 1];
        assert list[index - from + 1..] == list[1..][index - from..];
      } else {
        assert list == [list[0]] + list[1..];
      }
    }
  }

  lemma RemoveAtCuts(list: seq<string>, index: int)
    ensures RemoveAt(list, index) == if 0 <= index < |list| then list[..index] + list[index + 1..] else list
  {
    KeepOtherPositionsCuts(list, index, 0);
  }

  /** Removing at the old length after appending gives back the list before the append. */
  lemma RemoveAppendedItem(list: seq<string>, item: string)
    ensures RemoveAt(list + [item], |list|) == list
  {
    RemoveAtCuts(list + [item], |list|);
    assert (list + [item])[..|list|] == list;
  }

  /**
   * The spread `{ ...p, field: value }` of one handler. Identity and name never
   * change; the date handler sets the date unconditionally (it is not a toggle);
   * the other two touch only the grocery list.
   */
  function ApplyEdit(p: Participant, e: Edit): (q: Participant)
    ensures q.id == p.id && q.name == p.name
    ensures q.selectedDate == (if e.SetDate? then Some(e.date) else p.selectedDate)
    ensures e.SetDate? ==> q.groceryList == p.groceryList
    ensures e.AppendItem? ==> q.groceryList == p.groceryList + [e.item]
    ensures e.RemoveItemAt? ==>
              q.groceryList == if 0 <= e.index < |p.groceryList|
                               then p.groceryList[..e.index] + p.groceryList[e.index + 1..]
                               else p.groceryList
  {
    match e
    case SetDate(date) => p.(selectedDate := Some(date))
    case AppendItem(item) => p.(groceryList := p.groceryList + [item])
    case RemoveItemAt(index) =>
      RemoveAtCuts(p.groceryList, index);
      p.(groceryList := RemoveAt(p.groceryList, index))
  }

  /**
   * `participants.map(p => p.id === activeId ? ApplyEdit(p, e) : p)`: same length
   * and order; every participant whose id matches is edited, every other one is
   * left exactly as it was.
   */
  function UpdateActive(ps: seq<Participant>, activeId: string, e: Edit): (r: seq<Participant>)
    ensures |r| == |ps|
    ensures forall i :: 0 <= i < |ps| && ps[i].id != activeId ==> r[i] == ps[i]
    ensures forall i :: 0 <= i < |ps| && ps[i].id == activeId ==> r[i] == ApplyEdit(ps[i], e)
    decreases |ps|
  {
    if ps == [] then []
    else [if ps[0].id == activeId then ApplyEdit(ps[0], e) else ps[0]] + UpdateActive(ps[1..], activeId, e)
  }

  /** The ids, in list order. */
  function Ids(ps: seq<Participant>): (ids: seq<string>)
    ensures |ids| == |ps| && forall i :: 0 <= i < |ps| ==> ids[i] == ps[i].id
  {
    seq(|ps|, i requires 0 <= i < |ps| => ps[i].id)
  }

  /** No two participants share an id. */
  predicate DistinctIds(ps: seq<Participant>) {
    forall i, j :: 0 <= i < j < |ps| ==> ps[i].id != ps[j].id
  }

  /** Every handler keeps the roster: the same ids and names in the same order. */
  lemma UpdateKeepsRoster(ps: seq<Participant>, activeId: string, e: Edit)
    ensures Ids(UpdateActive(ps, activeId, e)) == Ids(ps)
    ensures forall i :: 0 <= i < |ps| ==> UpdateActive(ps, activeId, e)[i].name == ps[i].name
    ensures DistinctIds(ps) ==> DistinctIds(UpdateActive(ps, activeId, e))
  {
    var r := UpdateActive(ps, activeId, e);
    assert forall i :: 0 <= i < |ps| ==> r[i].id == ps[i].id && r[i].name == ps[i].name;
  }

  /**
   * `ps.find(p => p.id === id)` as a position: the first participant with that id,
   * or None when there is none.
   */
  function FindIndex(ps: seq<Participant>, id: string): (r: Option<nat>)
    ensures r.Some? ==>
              r.value < |ps| && ps[r.value].id == id && forall j :: 0 <= j < r.value ==> ps[j].id != id
    ensures r.None? ==> forall j :: 0 <= j < |ps| ==> ps[j].id != id
    decreases |ps|
  {
    if ps == [] then None
    else if ps[0].id == id then Some(0)
    else match FindIndex(ps[1..], id)
      case Some(k) => Some(k + 1)
      case None => None
  }

  /**
   * `activeParticipant`: the first participant whose id is the active id, and
   * the first participant of the list when none has it. An empty list has no
   * active participant (`participants[0]` is `undefined`).
   */
  function Resolve(ps: seq<Participant>, activeId: string): (r: Option<Participant>)
    ensures r.None? <==> ps == []
    ensures forall k :: 0 <= k < |ps| && ps[k].id == activeId && (forall j :: 0 <= j < k ==> ps[j].id != activeId) ==>
                       r == Some(ps[k])
    ensures ps != [] && (forall j :: 0 <= j < |ps| ==> ps[j].id != activeId) ==> r == Some(ps[0])
  {
    match FindIndex(ps, activeId)
    case Some(k) => Some(ps[k])
    case None => if ps == [] then None else Some(ps[0])
  }

  /** There is a participant carrying the active id. */
  predicate HasId(ps: seq<Participant>, id: string) {
    exists i :: 0 <= i < |ps| && ps[i].id == id
  }

  /**
   * What the page shows after an edit is the edit applied to what it showed
   * before, when the active id is present; when it is absent nothing was edited
   * and the fallback participant is unchanged.
   */
  lemma ResolveAfterUpdate(ps: seq<Participant>, activeId: string, e: Edit)
    ensures HasId(ps, activeId) ==>
      Resolve(UpdateActive(ps, activeId, e), activeId) == Some(ApplyEdit(Resolve(ps, activeId).value, e))
    ensures !HasId(ps, activeId) ==>
      UpdateActive(ps, activeId, e) == ps && Resolve(UpdateActive(ps, activeId, e), activeId) == Resolve(ps, activeId)
  {
    var r := UpdateActive(ps, activeId, e);
    match FindIndex(ps, activeId)
    case Some(k) =>
      assert r[k] == ApplyEdit(ps[k], e);
    case None =>
      assert r == ps;
  }

  /**
   * Selecting a date makes it the active participant's date. Selecting the same
   * date again changes nothing: it stays selected.
   */
  lemma SelectDateSetsActive(ps: seq<Participant>, activeId: string, date: string)
    requires HasId(ps, activeId)
    ensures Resolve(UpdateActive(ps, activeId, SetDate(date)), activeId).value.selectedDate == Some(date)
  {
    ResolveAfterUpdate(ps, activeId, SetDate(date));
  }

  lemma SelectDateTwice(ps: seq<Participant>, activeId: string, date: string)
    ensures var once := UpdateActive(ps, activeId, SetDate(date));
      UpdateActive(once, activeId, SetDate(date)) == once
  {
    var once := UpdateActive(ps, activeId, SetDate(date));
    var twice := UpdateActive(once, activeId, SetDate(date));
    assert forall i :: 0 <= i < |ps| ==> twice[i] == once[i];
  }

  /**
   * The add/remove round trip: adding an item and then removing it at the
   * position it was added at restores every participant, provided each
   * participant with the active id had `n` items before the add (true of the
   * one active participant when ids are distinct).
   */
  lemma AddThenRemoveRestores(ps: seq<Participant>, activeId: string, item: string, n: int)
    requires forall i :: 0 <= i < |ps| && ps[i].id == activeId ==> |ps[i].groceryList| == n
    ensures UpdateActive(UpdateActive(ps, activeId, AppendItem(item)), activeId, RemoveItemAt(n)) == ps
  {
    var added := UpdateActive(ps, activeId, AppendItem(item));
    var back := UpdateActive(added, activeId, RemoveItemAt(n));
    forall i | 0 <= i < |ps| ensures back[i] == ps[i] {
      if ps[i].id == activeId {
        RemoveAppendedItem(ps[i].groceryList, item);
      }
    }
  }

  /** A removal at a position outside the active participant's list changes nothing. */
  lemma RemoveOutOfRangeIsNoOp(ps: seq<Participant>, activeId: string, index: int)
    requires forall i :: 0 <= i < |ps| && ps[i].id == activeId ==> !(0 <= index < |ps[i].groceryList|)
    ensures UpdateActive(ps, activeId, RemoveItemAt(index)) == ps
  {
    var r := UpdateActive(ps, activeId, RemoveItemAt(index));
    assert forall i :: 0 <= i < |ps| ==> r[i] == ps[i];
  }

  /**
   * With distinct ids, adding an item and then removing at the position the page
   * shows it at (the old length of the active participant's list) restores the list.
   */
  lemma AddThenRemoveActive(ps: seq<Participant>, activeId: string, item: string)
    requires ps != [] && DistinctIds(ps)
    ensures var n := |Resolve(ps, activeId).value.groceryList|;
      UpdateActive(UpdateActive(ps, activeId, AppendItem(item)), activeId, RemoveItemAt(n)) == ps
  {
    var n := |Resolve(ps, activeId).value.groceryList|;
    forall i | 0 <= i < |ps| && ps[i].id == activeId ensures |ps[i].groceryList| == n {
      var k := FindIndex(ps, activeId).value;
      assert i == k;
    }
    AddThenRemoveRestores(ps, activeId, item, n);
  }
}

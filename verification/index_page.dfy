/**
 * The state of the Index page: the participant list and the active participant
 * id, two state cells that the handlers replace wholesale.
 */
module IndexPage {
  import opened Wrappers
  import opened Participants
  import Roster

  /**
   * Mounting the page: the state starts as the sorted roster, and the active
   * participant is its first entry, Spencer Bialek (id "1").
   */
  method Mount() returns (page: Index)
    ensures fresh(page) && page.Valid()
    ensures page.participants == Roster.InitialParticipants()
    ensures page.activeParticipantId == "1"
  {
    Roster.InitialRoster();
    Roster.InitialOrder();
    page := new Index(Roster.InitialParticipants());
  }

  class Index {
    var participants: seq<Participant>
    var activeParticipantId: string

    /** There is always a participant to show. */
    ghost predicate Valid()
      reads this
    {
      participants != []
    }

    /**
     * The two state cells: `useState(initialParticipants)` and
     * `useState(participants[0].id)`, which needs a first participant
     * (`Roster.InitialRoster` shows the page's own roster has nine).
     */
    constructor (initial: seq<Participant>)
      requires initial != []
      ensures Valid()
      ensures participants == initial
      ensures activeParticipantId == initial[0].id
    {
      participants := initial;
      activeParticipantId := initial[0].id;
    }

    /** The participant the dashboard shows: the first with the active id, else the first one. */
    function ActiveParticipant(): (p: Option<Participant>)
      reads this
      requires Valid()
      ensures p.Some? && p.value in participants
      ensures HasId(participants, activeParticipantId) ==> p.value.id == activeParticipantId
      ensures !HasId(participants, activeParticipantId) ==> p.value == participants[0]
      ensures forall k :: 0 <= k < |participants| && participants[k].id == activeParticipantId &&
                          (forall j :: 0 <= j < k ==> participants[j].id != activeParticipantId) ==>
                p == Some(participants[k])
    {
      Resolve(participants, activeParticipantId)
    }

    /** Replaces the list by the result of mapping `e` over the participants with the active id. */
    method Update(e: Edit)
      requires Valid()
      modifies this
      ensures Valid()
      ensures activeParticipantId == old(activeParticipantId)
      ensures participants == UpdateActive(old(participants), activeParticipantId, e)
      ensures ActiveParticipant() ==
        if old(HasId(participants, activeParticipantId)) then Some(ApplyEdit(old(ActiveParticipant()).value, e))
        else old(ActiveParticipant())
    {
      ResolveAfterUpdate(participants, activeParticipantId, e);
      participants := UpdateActive(participants, activeParticipantId, e);
    }

    /** handleDateSelect: sets the active participant's date (a set, not a toggle). */
    method HandleDateSelect(date: string)
      requires Valid()
      modifies this
      ensures Valid()
      ensures activeParticipantId == old(activeParticipantId)
      ensures participants == UpdateActive(old(participants), activeParticipantId, SetDate(date))
      ensures old(HasId(participants, activeParticipantId)) ==>
                ActiveParticipant().value == old(ActiveParticipant()).value.(selectedDate := Some(date))
    {
      Update(SetDate(date));
    }

    /** handleAddGroceryItem: appends `item` to the active participant's list. */
    method HandleAddGroceryItem(item: string)
      requires Valid()
      modifies this
      ensures Valid()
      ensures activeParticipantId == old(activeParticipantId)
      ensures participants == UpdateActive(old(participants), activeParticipantId, AppendItem(item))
      ensures old(HasId(participants, activeParticipantId)) ==>
                ActiveParticipant().value == old(ActiveParticipant()).value.(groceryList := old(ActiveParticipant()).value.groceryList + [item])
    {
      Update(AppendItem(item));
    }

    /** handleRemoveGroceryItem: drops position `index` of the active participant's list, if it exists. */
    method HandleRemoveGroceryItem(index: int)
      requires Valid()
      modifies this
      ensures Valid()
      ensures activeParticipantId == old(activeParticipantId)
      ensures participants == UpdateActive(old(participants), activeParticipantId, RemoveItemAt(index))
      ensures var before := old(ActiveParticipant()).value.groceryList;
              old(HasId(participants, activeParticipantId)) ==>
                ActiveParticipant().value.groceryList ==
                  if 0 <= index < |before| then before[..index] + before[index + 1..] else before
    {
      Update(RemoveItemAt(index));
    }

    /** handleParticipantSelect: changes the active id and nothing else. */
    method HandleParticipantSelect(id: string)
      requires Valid()
      modifies this
      ensures Valid()
      ensures participants == old(participants)
      ensures activeParticipantId == id
    {
      activeParticipantId := id;
    }
  }
}

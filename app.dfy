/**
 * The top-level component's working state: the items on screen, the id being edited and
 * the notification, and how each handler reconciles them with the service's reply.
 * A service reply is an input of the handler that made the call.
 */
module App {
  import opened Wrappers
  import opened Text
  import opened Snippet

  /** The notification state `{ open, type, message }`. */
  datatype Toast = Toast(open: bool, kind: string, message: string)

  const ClosedToast: Toast := Toast(false, "success", "")

  /** The persistence call a save makes. */
  datatype Call = CreateCall(payload: Payload) | UpdateCall(id: string, payload: Payload)

  /**
   * `prev.map((it) => (it.id === id ? updated : it))`: every record with the id becomes
   * `updated`; the others stay where they are.
   */
  function ReplaceById(s: seq<Record>, id: string, updated: Record): (r: seq<Record>)
    ensures |r| == |s|
    ensures forall k :: 0 <= k < |s| ==> r[k] == if s[k].id == id then updated else s[k]
  {
    if s == [] then []
    else [if s[0].id == id then updated else s[0]] + ReplaceById(s[1..], id, updated)
  }

  /**
   * `items.find((it) => it.id === editingId) || null`: the first item with the edited id,
   * none when nothing is edited (no id is null) or no item has it.
   */
  function FindById(items: seq<Record>, editingId: Option<string>): (r: Option<Record>)
    ensures r.Some? <==> editingId.Some? && exists k :: 0 <= k < |items| && items[k].id == editingId.value
    ensures r.Some? ==> exists k :: 0 <= k < |items| && items[k] == r.value
                          && r.value.id == editingId.value
                          && forall j :: 0 <= j < k ==> items[j].id != editingId.value
  {
    match editingId
    case None => None
    case Some(id) =>
      match FindIndex(items, id)
      case None => None
      case Some(k) => Some(items[k])
  }

  /** Removing the records of one id does not change which record another id finds. */
  lemma {:induction false} FindByIdAfterRemove(items: seq<Record>, id: string, editingId: Option<string>)
    requires editingId != Some(id)
    ensures FindById(RemoveId(items, id), editingId) == FindById(items, editingId)
  {
    if items != [] && editingId.Some? {
      var e := editingId.value;
      if items[0].id == id {
        FindByIdSkip(items, e);
        FindByIdAfterRemove(items[1..], id, editingId);
      } else {
        var rest := RemoveId(items[1..], id);
        assert RemoveId(items, id) == [items[0]] + rest;
        if items[0].id != e {
          FindByIdSkip(items, e);
          FindByIdSkip([items[0]] + rest, e);
          assert ([items[0]] + rest)[1..] == rest;
          FindByIdAfterRemove(items[1..], id, editingId);
        }
      }
    }
  }

  /** A first record without the id plays no part in the search. */
  lemma FindByIdSkip(items: seq<Record>, e: string)
    requires items != [] && items[0].id != e
    ensures FindById(items, Some(e)) == FindById(items[1..], Some(e))
  {
  }

  /** Putting a record in front does not change what an id that it does not carry finds. */
  lemma PrependOtherId(items: seq<Record>, created: Record, editingId: Option<string>)
    requires editingId != Some(created.id)
    ensures FindById([created] + items, editingId) == FindById(items, editingId)
  {
    if editingId.Some? {
      assert ([created] + items)[1..] == items;
    }
  }

  class AppState {
    var items: seq<Record>
    var editingId: Option<string>
    var toast: Toast

    /** The initial state: no items, nothing edited, no notification. */
    constructor ()
      ensures items == [] && editingId == None && toast == ClosedToast
    {
      items, editingId, toast := [], None, ClosedToast;
    }

    /** The record the form edits. */
    function EditingItem(): (r: Option<Record>)
      reads this
      ensures r.Some? <==> editingId.Some? && exists k :: 0 <= k < |items| && items[k].id == editingId.value
      ensures r.Some? ==> r.value in items && r.value.id == editingId.value
    {
      FindById(items, editingId)
    }

    /** The initial load: the listed records replace the items; a failure only notifies. */
    method Load(reply: Result<seq<Record>>)
      modifies this
      ensures reply.Success? ==> items == reply.value && toast == old(toast)
      ensures reply.Failure? ==>
                items == old(items)
                && toast == Toast(true, "error", "Failed to load items. Using empty list.")
      ensures editingId == old(editingId)
    {
      match reply
      case Success(list) => items := list;
      case Failure(_) => OpenToast("error", "Failed to load items. Using empty list.");
    }

    method OpenToast(kind: string, message: string)
      modifies this
      ensures toast == Toast(true, kind, message)
      ensures items == old(items) && editingId == old(editingId)
    {
      toast := Toast(true, kind, message);
    }

    method CloseToast()
      modifies this
      ensures toast == ClosedToast
      ensures items == old(items) && editingId == old(editingId)
    {
      toast := ClosedToast;
    }

    /**
     * `handleSubmit(payload)`: an update of the edited id when one is set, a create
     * otherwise. A success merges the returned record and answers true; a failure changes
     * nothing but the notification and answers false.
     */
    method HandleSubmit(payload: Payload, reply: Result<Record>) returns (ok: bool, call: Call)
      modifies this
      ensures call == if Truthy(old(editingId)) then UpdateCall(old(editingId).value, payload)
                      else CreateCall(payload)
      ensures ok <==> reply.Success?
      ensures reply.Failure? ==> items == old(items) && editingId == old(editingId)
                                 && toast == Toast(true, "error", "Unable to save snippet.")
      ensures reply.Success? && call.UpdateCall? ==>
                items == ReplaceById(old(items), call.id, reply.value) && editingId == None
                && toast == Toast(true, "success", "Snippet updated.")
      ensures reply.Success? && call.CreateCall? ==>
                items == [reply.value] + old(items) && editingId == old(editingId)
                && toast == Toast(true, "success", "Snippet added.")
    {
      if Truthy(editingId) {
        var id := editingId.value;
        call := UpdateCall(id, payload);
        match reply
        case Success(updated) =>
          items := ReplaceById(items, id, updated);
          editingId := None;
          OpenToast("success", "Snippet updated.");
          ok := true;
        case Failure(_) =>
          OpenToast("error", "Unable to save snippet.");
          ok := false;
      } else {
        call := CreateCall(payload);
        match reply
        case Success(created) =>
          items := [created] + items;
          OpenToast("success", "Snippet added.");
          ok := true;
        case Failure(_) =>
          OpenToast("error", "Unable to save snippet.");
          ok := false;
      }
    }

    /** `handleEdit(id)`: start editing that id. */
    method HandleEdit(id: string)
      modifies this
      ensures editingId == Some(id)
      ensures items == old(items) && toast == old(toast)
    {
      editingId := Some(id);
    }

    /** The form's cancel button: leave edit mode. */
    method CancelEdit()
      modifies this
      ensures editingId == None
      ensures items == old(items) && toast == old(toast)
    {
      editingId := None;
    }

    /**
     * `handleDelete(id)`: nothing happens unless the user confirms; then the service is
     * called, and on success the items lose that id and edit mode ends if it was that id.
     */
    method HandleDelete(id: string, confirmed: bool, reply: Result<bool>) returns (called: bool)
      modifies this
      ensures called == confirmed
      ensures !confirmed ==> items == old(items) && editingId == old(editingId)
                             && toast == old(toast)
      ensures confirmed && reply.Failure? ==>
                items == old(items) && editingId == old(editingId)
                && toast == Toast(true, "error", "Unable to delete snippet.")
      ensures confirmed && reply.Success? ==>
                items == RemoveId(old(items), id)
                && editingId == (if old(editingId) == Some(id) then None else old(editingId))
                && toast == Toast(true, "success", "Snippet deleted.")
    {
      if !confirmed {
        return false;
      }
      called := true;
      match reply
      case Success(_) =>
        items := RemoveId(items, id);
        if editingId == Some(id) {
          editingId := None;
        }
        OpenToast("success", "Snippet deleted.");
      case Failure(_) =>
        OpenToast("error", "Unable to delete snippet.");
    }
  }
}

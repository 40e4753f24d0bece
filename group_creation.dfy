/** The member picker of the group-creation dialog: clicking a search
    result selects or deselects it, a chip's remove button deselects it,
    the close and Cancel buttons hide the dialog, and the Create Group
    button is enabled only for a named group with at least two members.
    As written, the close handlers stop at an undeclared setter before they
    clear the selection and the name, and rendering an open dialog with a
    finished search stops at an undeclared flag. */
module GroupCreation {
  import opened Wrappers
  import opened Models
  import Collections
  import Text
  import RoomControllers
  import UIState

  /** The list after clicking `id`: a selected id is filtered out, any other
      is appended. */
  function Toggle(selected: seq<Id>, id: Id): (r: seq<Id>)
    ensures id in selected ==> id !in r && forall x :: x != id ==> (x in r <==> x in selected)
    ensures id !in selected ==> r == selected + [id]
  {
    if id in selected then Collections.RemoveAll(selected, id) else selected + [id]
  }

  /** Clicking keeps the selection free of repeated ids. */
  lemma ToggleKeepsDistinct(selected: seq<Id>, id: Id)
    requires Collections.NoDuplicates(selected)
    ensures Collections.NoDuplicates(Toggle(selected, id))
  {
    if id in selected {
      Collections.RemoveAllDistinct(selected, id);
    }
  }

  /** Deselecting keeps the other ids in their order: removing `id` from
      `a + [id] + b` leaves `a + b` when `id` occurs once. */
  lemma DeselectKeepsOrder(a: seq<Id>, b: seq<Id>, id: Id)
    requires id !in a && id !in b
    ensures Toggle(a + [id] + b, id) == a + b
  {
    assert id in a + [id] + b by { assert (a + [id] + b)[|a|] == id; }
    Collections.RemoveAllConcat(a + [id], b, id);
    Collections.RemoveAllConcat(a, [id], id);
    Collections.RemoveAllAbsent(a, id);
    Collections.RemoveAllAbsent(b, id);
    assert Collections.RemoveAll([id], id) == [];
  }

  /** Clicking an unselected user twice restores the selection. */
  lemma ToggleTwice(selected: seq<Id>, id: Id)
    requires id !in selected
    ensures Toggle(Toggle(selected, id), id) == selected
  {
    assert Toggle(selected, id) == selected + [id];
    DeselectKeepsOrder(selected, [], id);
    assert selected + [id] + [] == selected + [id];
  }

  /** The `disabled` condition of Create Group, negated. */
  predicate CreateEnabled(groupName: string, selected: seq<Id>, creating: bool) {
    Text.Trim(groupName) != "" && |selected| >= 2 && !creating
  }

  /** An enabled button sends a member list the server's size check accepts. */
  lemma CreateEnabledMeetsMemberCheck(groupName: string, selected: seq<Id>, creating: bool)
    requires CreateEnabled(groupName, selected, creating)
    ensures RoomControllers.MemberListOk(Some(selected))
  {
  }

  /** The name check is looser than the server's: a two-letter name is
      enabled here and refused there. */
  lemma CreateEnabledShortName()
    ensures CreateEnabled("ab", [1, 2], false) && !RoomControllers.GroupNameOk(Some("ab"))
  {
    var name := "ab";
    assert !Text.IsTrimmable(name[0]) && !Text.IsTrimmable(name[1]);
    assert Text.TrimStart(name) == name;
    assert Text.TrimEnd(name) == name;
  }

  /** What the dialog shows while it is open: the selection, whether
      Create Group is enabled, and whether the "Searching members..."
      spinner is shown. */
  datatype DialogView = DialogView(selected: seq<Id>, createEnabled: bool, spinner: bool)

  /** The outcome of rendering the dialog: nothing, a view, or an exception
      thrown while the element tree is built. */
  datatype Screen = Hidden | Shown(view: DialogView) | Throws

  /** `if (!showGroupModal) return null;`, then the user list: a non-empty
      search text shows the spinner while a search runs, and otherwise
      evaluates `isUserLoadingError`, which no scope declares, so the render
      throws before the result list is reached. */
  function Render(showGroupModal: bool, groupName: string, selected: seq<Id>, creating: bool,
                  searchText: string, isUsersLoading: bool): (r: Screen)
    ensures r.Hidden? <==> !showGroupModal
    ensures r.Throws? <==> showGroupModal && searchText != "" && !isUsersLoading
    ensures r.Shown? ==> r.view.selected == selected
    ensures r.Shown? ==> (r.view.createEnabled <==> CreateEnabled(groupName, selected, creating))
    ensures r.Shown? ==> (r.view.spinner <==> searchText != "")
  {
    if !showGroupModal then Hidden
    else if searchText != "" && !isUsersLoading then Throws
    else Shown(DialogView(selected, CreateEnabled(groupName, selected, creating), searchText != ""))
  }

  /** A selection of two users named "team" that survived a close is shown
      again, with Create Group enabled, when the dialog reopens. */
  lemma ReopenShowsStaleSelection()
    ensures Render(true, "team", [1, 2], false, "", false) == Shown(DialogView([1, 2], true, false))
  {
    var name := "team";
    assert !Text.IsTrimmable(name[0]) && !Text.IsTrimmable(name[|name| - 1]);
    assert Text.TrimStart(name) == name;
    assert Text.TrimEnd(name) == name;
  }

  class MemberSelection {
    var selectedUsers: seq<Id>
    var groupName: string

    ghost predicate Valid()
      reads this
    {
      Collections.NoDuplicates(selectedUsers)
    }

    constructor ()
      ensures Valid() && selectedUsers == [] && groupName == ""
    {
      selectedUsers, groupName := [], "";
    }

    /** The click handler of a search result. */
    method Click(userId: Id)
      requires Valid()
      modifies this
      ensures Valid()
      ensures selectedUsers == Toggle(old(selectedUsers), userId)
      ensures groupName == old(groupName)
    {
      ToggleKeepsDistinct(selectedUsers, userId);
      var isSelected := userId in selectedUsers;
      if isSelected {
        selectedUsers := Collections.RemoveAll(selectedUsers, userId);
      } else {
        selectedUsers := selectedUsers + [userId];
      }
    }

    /** The remove button of a selected user's chip. */
    method RemoveChip(userId: Id)
      requires Valid()
      modifies this
      ensures Valid()
      ensures selectedUsers == Collections.RemoveAll(old(selectedUsers), userId)
      ensures userId !in selectedUsers
      ensures groupName == old(groupName)
    {
      Collections.RemoveAllDistinct(selectedUsers, userId);
      selectedUsers := Collections.RemoveAll(selectedUsers, userId);
    }

    method SetGroupName(name: string)
      modifies this
      ensures groupName == name && selectedUsers == old(selectedUsers)
    {
      groupName := name;
    }

    /** `setSelectedUsers([])` and `setGroupName("")`: the clearing the
        close and Cancel handlers are written to end with. */
    method Clear()
      modifies this
      ensures Valid() && selectedUsers == [] && groupName == ""
    {
      selectedUsers, groupName := [], "";
    }
  }

  /** The close and Cancel handlers as written: the dialog is hidden, then
      the call to the undeclared `setSearchText` throws, so the selection
      and the name are left as they were. */
  method Close(ui: UIState.UIStore, sel: MemberSelection)
    modifies ui
    ensures !ui.showGroupModal
    ensures ui.sidebarOpen == old(ui.sidebarOpen) && ui.isAnonymous == old(ui.isAnonymous)
    ensures sel.selectedUsers == old(sel.selectedUsers) && sel.groupName == old(sel.groupName)
  {
    ui.SetShowGroupModal(false);
  }

  /** The close and Cancel handlers as intended: the dialog is hidden and
      the selection and the name are cleared. */
  method CloseIntended(ui: UIState.UIStore, sel: MemberSelection)
    modifies ui, sel
    ensures !ui.showGroupModal
    ensures ui.sidebarOpen == old(ui.sidebarOpen) && ui.isAnonymous == old(ui.isAnonymous)
    ensures sel.Valid() && sel.selectedUsers == [] && sel.groupName == ""
  {
    ui.SetShowGroupModal(false);
    sel.Clear();
  }

  /** Closing and reopening the dialog, as written, shows the old selection
      and the old name's Create Group state again. */
  method ReopenKeepsSelection(ui: UIState.UIStore, sel: MemberSelection, creating: bool)
    modifies ui
    ensures ui.showGroupModal
    ensures sel.selectedUsers == old(sel.selectedUsers) && sel.groupName == old(sel.groupName)
    ensures Render(ui.showGroupModal, sel.groupName, sel.selectedUsers, creating, "", false)
            == Shown(DialogView(old(sel.selectedUsers), CreateEnabled(old(sel.groupName), old(sel.selectedUsers), creating), false))
  {
    Close(ui, sel);
    ui.SetShowGroupModal(true);
  }

  /** Closing and reopening the dialog as intended shows an empty selection
      with Create Group disabled. */
  method ReopenIntendedClears(ui: UIState.UIStore, sel: MemberSelection, creating: bool)
    modifies ui, sel
    ensures ui.showGroupModal
    ensures Render(ui.showGroupModal, sel.groupName, sel.selectedUsers, creating, "", false)
            == Shown(DialogView([], false, false))
  {
    CloseIntended(ui, sel);
    ui.SetShowGroupModal(true);
  }
}

/** The layout store: whether the sidebar is open, whether anonymous mode
    is on, and whether the group-creation dialog is shown. */
module UIState {

  class UIStore {
    var sidebarOpen: bool
    var isAnonymous: bool
    var showGroupModal: bool

    constructor ()
      ensures sidebarOpen && !isAnonymous && !showGroupModal
    {
      sidebarOpen, isAnonymous, showGroupModal := true, false, false;
    }

    method ToggleSidebar()
      modifies this
      ensures sidebarOpen == !old(sidebarOpen)
      ensures isAnonymous == old(isAnonymous) && showGroupModal == old(showGroupModal)
    {
      sidebarOpen := !sidebarOpen;
    }

    method SetSidebarOpen(value: bool)
      modifies this
      ensures sidebarOpen == value
      ensures isAnonymous == old(isAnonymous) && showGroupModal == old(showGroupModal)
    {
      sidebarOpen := value;
    }

    method SetIsAnonymous(value: bool)
      modifies this
      ensures isAnonymous == value
      ensures sidebarOpen == old(sidebarOpen) && showGroupModal == old(showGroupModal)
    {
      isAnonymous := value;
    }

    method SetShowGroupModal(value: bool)
      modifies this
      ensures showGroupModal == value
      ensures sidebarOpen == old(sidebarOpen) && isAnonymous == old(isAnonymous)
    {
      showGroupModal := value;
    }

    method ToggleGroupModal()
      modifies this
      ensures showGroupModal == !old(showGroupModal)
      ensures sidebarOpen == old(sidebarOpen) && isAnonymous == old(isAnonymous)
    {
      showGroupModal := !showGroupModal;
    }
  }

  /** Toggling the sidebar twice leaves the whole store as it was. */
  method ToggleSidebarTwice(ui: UIStore)
    modifies ui
    ensures ui.sidebarOpen == old(ui.sidebarOpen)
    ensures ui.isAnonymous == old(ui.isAnonymous) && ui.showGroupModal == old(ui.showGroupModal)
  {
    ui.ToggleSidebar();
    ui.ToggleSidebar();
  }

  /** Toggling the dialog twice leaves the whole store as it was. */
  method ToggleGroupModalTwice(ui: UIStore)
    modifies ui
    ensures ui.showGroupModal == old(ui.showGroupModal)
    ensures ui.sidebarOpen == old(ui.sidebarOpen) && ui.isAnonymous == old(ui.isAnonymous)
  {
    ui.ToggleGroupModal();
    ui.ToggleGroupModal();
  }
}

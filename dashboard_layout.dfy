/**
  The navigation shell of admin-dashboard/src/components/layout/DashboardLayout.tsx:
  which menu items are highlighted for the current path, which items are
  shown for the user's role, and the mobile drawer and account menu.  The
  rotating status text (a random pick every eight seconds) is outside the
  model.
*/
module DashboardLayout {
  import opened Wrappers
  import opened Seqs
  import opened Text

  datatype MenuItem = MenuItem(path: string, text: string)

  function MainMenuItems(): seq<MenuItem>
  {
    [ MenuItem("/dashboard", "Dashboard"),
      MenuItem("/dashboard/shifts", "Shifts"),
      MenuItem("/dashboard/team", "Team Members"),
      MenuItem("/dashboard/calendar", "Calendar"),
      MenuItem("/dashboard/analytics", "Analytics"),
      MenuItem("/dashboard/notifications", "Notifications"),
      MenuItem("/dashboard/messages", "Messages") ]
  }

  function AdminMenuItems(): seq<MenuItem>
  {
    [ MenuItem("/dashboard/admin/employees", "Employee Management"),
      MenuItem("/dashboard/admin/shifts", "Shift Management") ]
  }

  // ---------------------------------------------------------------------
  // Highlighting

  /**
    `isSelected`: the item's path is the current path or one of its
    ancestors, ending at a '/' boundary; the team item is also highlighted
    on the employee team page.
  */
  predicate IsSelected(pathname: string, path: string)
  {
    (path == "/dashboard/team" && pathname == "/employee/team") ||
    pathname == path || StartsWith(pathname, path + "/")
  }

  /** Apart from the team page, an item is highlighted only on its own path and the paths below it. */
  lemma SelectedIsAncestor(pathname: string, path: string)
    requires IsSelected(pathname, path)
    ensures (path == "/dashboard/team" && pathname == "/employee/team") ||
      pathname == path ||
      (|pathname| > |path| && pathname[..|path|] == path && pathname[|path|] == '/')
  {
    if pathname != path && !(path == "/dashboard/team" && pathname == "/employee/team") {
      assert pathname[..|path| + 1] == path + "/";
      assert pathname[..|path|] == (path + "/")[..|path|];
    }
  }

  /** A sibling path that only shares the item's prefix, without a '/' after it, does not highlight it. */
  lemma SiblingNotSelected(path: string, c: char, rest: string)
    requires c != '/'
    ensures !IsSelected(path + [c] + rest, path)
  {
    var p := path + [c] + rest;
    assert p[|path|] == c;
    assert |p| > |"/employee/team"| || path != "/dashboard/team";
  }

  /** The Dashboard item is highlighted on every page below /dashboard. */
  lemma DashboardOnNested(rest: string)
    ensures IsSelected("/dashboard/" + rest, "/dashboard")
  {
    assert ("/dashboard/" + rest)[..|"/dashboard/"|] == "/dashboard" + "/";
  }

  /** '/dashboard/shiftsX' does not highlight the Shifts item. */
  lemma ShiftsSiblingExample()
    ensures !IsSelected("/dashboard/shiftsX", "/dashboard/shifts")
  {
    SiblingNotSelected("/dashboard/shifts", 'X', "");
    assert "/dashboard/shifts" + ['X'] + "" == "/dashboard/shiftsX";
  }

  // ---------------------------------------------------------------------
  // Role gating

  /** The drawer's items: the main menu, then the admin controls for an admin only. */
  function VisibleMenu(userRole: Option<string>): (r: seq<MenuItem>)
    ensures userRole == Some("admin") ==> r == MainMenuItems() + AdminMenuItems()
    ensures userRole != Some("admin") ==> r == MainMenuItems()
  {
    MainMenuItems() + if userRole == Some("admin") then AdminMenuItems() else []
  }

  /** An admin item is offered exactly to an admin. */
  lemma AdminItemsOnlyForAdmin(userRole: Option<string>, item: MenuItem)
    requires item in AdminMenuItems()
    ensures item in VisibleMenu(userRole) <==> userRole == Some("admin")
  {
    assert item == AdminMenuItems()[0] || item == AdminMenuItems()[1];
    assert item !in MainMenuItems();
  }

  // ---------------------------------------------------------------------
  // Drawer and account menu

  /** An element the account menu is anchored to. */
  datatype Element = Element(id: nat)

  class Layout {
    var mobileOpen: bool
    var anchorEl: Option<Element>
    var pathname: string

    constructor (pathname: string)
      ensures !mobileOpen && anchorEl == None && this.pathname == pathname
    {
      mobileOpen := false;
      anchorEl := None;
      this.pathname := pathname;
    }

    /** `handleDrawerToggle`. */
    method HandleDrawerToggle()
      modifies this
      ensures mobileOpen == !old(mobileOpen)
      ensures anchorEl == old(anchorEl) && pathname == old(pathname)
    {
      mobileOpen := !mobileOpen;
    }

    /** `handleMenu`: anchors the account menu to the clicked element. */
    method HandleMenu(target: Element)
      modifies this
      ensures anchorEl == Some(target)
      ensures mobileOpen == old(mobileOpen) && pathname == old(pathname)
    {
      anchorEl := Some(target);
    }

    /** `handleClose`. */
    method HandleClose()
      modifies this
      ensures anchorEl == None
      ensures mobileOpen == old(mobileOpen) && pathname == old(pathname)
    {
      anchorEl := None;
    }

    /** A menu item's click: navigates to its path and closes the drawer on a mobile screen only. */
    method SelectItem(item: MenuItem, isMobile: bool)
      modifies this
      ensures pathname == item.path && IsSelected(pathname, item.path)
      ensures mobileOpen == (old(mobileOpen) && !isMobile)
      ensures anchorEl == old(anchorEl)
    {
      pathname := item.path;
      if isMobile {
        mobileOpen := false;
      }
    }
  }
}

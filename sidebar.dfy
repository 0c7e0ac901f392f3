/**
 * The sidebar's folder list: one entry per category, the selected one drawn
 * open, and the selection kept pointing at an existing category when the
 * categories change.
 */
module Sidebar {
  import opened Wrappers
  import opened SidebarItem

  /** A category (folder) as the backend lists it. */
  datatype Category = Category(id: int, name: string, description: Option<string>)

  /** Some category carries the name. */
  predicate Names(categories: seq<Category>, name: string)
  {
    exists i :: 0 <= i < |categories| && categories[i].name == name
  }

  /** The selection on first render: the first category's name, or the empty
      name when there is no category. */
  function InitialSelection(categories: seq<Category>): (selected: string)
    ensures categories == [] ==> selected == []
    ensures categories != [] ==> selected == categories[0].name && Names(categories, selected)
  {
    if |categories| > 0 then categories[0].name else []
  }

  /** The selection after the effect that runs when the categories change:
      kept when some category carries it, moved to the first category when
      none does, and kept when there is no category at all. */
  function Synced(categories: seq<Category>, selected: string): (r: string)
    ensures categories != [] ==> Names(categories, r)
    ensures Names(categories, selected) ==> r == selected
    ensures categories == [] ==> r == selected
    ensures r == selected || r == categories[0].name
  {
    if |categories| > 0 && !Names(categories, selected) then categories[0].name else selected
  }

  /** The effect changes nothing a second time. */
  lemma SyncedStable(categories: seq<Category>, selected: string)
    ensures Synced(categories, Synced(categories, selected)) == Synced(categories, selected)
  {
  }

  /** The first selection already satisfies the effect. */
  lemma InitialIsSynced(categories: seq<Category>)
    ensures Synced(categories, InitialSelection(categories)) == InitialSelection(categories)
  {
  }

  /** The one entry shown when there is no category. */
  const NoFolders := ItemProps("No folders found", FolderClosed, Some(true), None)

  /** `folderItems`: with no category the single `No folders found` entry,
      selected and without a description; otherwise one entry per category,
      in order, carrying its name and description, selected and drawn open
      exactly when its name is the selection. */
  function FolderItems(categories: seq<Category>, selected: string): (r: seq<ItemProps>)
    ensures categories == [] ==> r == [NoFolders]
    ensures categories != [] ==> |r| == |categories|
    ensures categories != [] ==>
              forall i :: 0 <= i < |r| ==>
                && r[i].name == categories[i].name
                && r[i].description == categories[i].description
                && (IsSelected(r[i].isSelected) <==> categories[i].name == selected)
                && (r[i].icon == FolderOpen <==> categories[i].name == selected)
  {
    if |categories| > 0 then
      seq(|categories|, i requires 0 <= i < |categories| =>
        var c := categories[i];
        ItemProps(c.name, if selected == c.name then FolderOpen else FolderClosed, Some(selected == c.name), c.description))
    else [NoFolders]
  }

  /** Once the effect has run, some entry is drawn selected. */
  lemma SyncedSelectionShown(categories: seq<Category>, selected: string)
    ensures exists i :: 0 <= i < |FolderItems(categories, Synced(categories, selected))| &&
                        IsSelected(FolderItems(categories, Synced(categories, selected))[i].isSelected)
  {
    var s := Synced(categories, selected);
    var items := FolderItems(categories, s);
    if categories == [] {
      assert IsSelected(items[0].isSelected);
    } else {
      var i :| 0 <= i < |categories| && categories[i].name == s;
      assert IsSelected(items[i].isSelected);
    }
  }

  /** After a click on the entry of category `k`, that entry is drawn
      selected, and so is every other entry with the same name, and no
      other. */
  lemma ClickSelects(categories: seq<Category>, k: int)
    requires 0 <= k < |categories|
    ensures var items := FolderItems(categories, categories[k].name);
            && IsSelected(items[k].isSelected)
            && forall i :: 0 <= i < |items| ==> (IsSelected(items[i].isSelected) <==> categories[i].name == categories[k].name)
  {
  }

  /** The sidebar's own state: the name of the selected folder. */
  class SidebarState {
    var selectedItem: string

    /** The first render. */
    constructor (categories: seq<Category>)
      ensures selectedItem == InitialSelection(categories)
    {
      selectedItem := if |categories| > 0 then categories[0].name else [];
    }

    /** The effect that runs when the categories change: with categories
        present and none named as the selection, select the first one. */
    method SyncSelection(categories: seq<Category>)
      modifies this
      ensures selectedItem == Synced(categories, old(selectedItem))
    {
      if |categories| > 0 && !(exists i :: 0 <= i < |categories| && categories[i].name == selectedItem) {
        selectedItem := categories[0].name;
      }
    }

    /** `handleItemClick(category, name)`: select the name and hand the
        category to the `onItemClick` callback, given back here. */
    method HandleItemClick(category: Category, name: string) returns (forwarded: Category)
      modifies this
      ensures selectedItem == name
      ensures forwarded == category
    {
      selectedItem := name;
      forwarded := category;
    }
  }
}

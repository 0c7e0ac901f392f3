/**
 * A titled section of the sidebar with two fold-out panels: a search box
 * that filters the section's entries by name, and an add-folder form whose
 * name and description are posted to the categories endpoint. At most one
 * of the panels is open at a time.
 */
module SidebarSection {
  import opened Wrappers
  import opened JsText
  import opened SidebarItem

  /** The longest folder name that is sent. */
  const MaxFolderName := 50

  /** The body of the request that adds a folder. */
  datatype FolderRequest = FolderRequest(name: string, description: string)

  /** The folder name sent for what was typed: the typed text trimmed, then
      cut to 50 characters. It is never longer than 50, does not start with
      whitespace, is the trimmed text itself when that fits and its first 50
      characters otherwise, and is empty exactly when the trimmed text is. */
  function FolderName(typed: string): (r: string)
    ensures |r| <= MaxFolderName
    ensures r <= Trim(typed)
    ensures |Trim(typed)| <= MaxFolderName ==> r == Trim(typed)
    ensures |Trim(typed)| > MaxFolderName ==> r == Trim(typed)[..MaxFolderName]
    ensures r == [] <==> Trim(typed) == []
    ensures r == [] || !IsJsWhitespace(r[0])
  {
    Prefix(Trim(typed), MaxFolderName)
  }

  /** The steps `handleAddFolder` takes on the typed name: trim it, then
      cut it when it is longer than 50 characters. */
  method NormalizeFolderName(typed: string) returns (trimmedFolderName: string)
    ensures trimmedFolderName == FolderName(typed)
  {
    trimmedFolderName := Trim(typed);
    if |trimmedFolderName| > MaxFolderName {
      trimmedFolderName := trimmedFolderName[..MaxFolderName];
    }
  }

  /** The request `handleAddFolder` posts for the typed name and
      description: none when the name trims to nothing, and otherwise the
      normalised name with the trimmed description. */
  method FolderRequestFor(typedName: string, typedDescription: string) returns (request: Option<FolderRequest>)
    ensures request.None? <==> FolderName(typedName) == []
    ensures request.Some? ==> request.value == FolderRequest(FolderName(typedName), Trim(typedDescription))
  {
    var trimmedFolderName := NormalizeFolderName(typedName);
    if trimmedFolderName != [] {
      request := Some(FolderRequest(trimmedFolderName, Trim(typedDescription)));
    } else {
      request := None;
    }
  }

  /** Nothing is sent exactly when the typed name is whitespace only. */
  lemma FolderNameEmptyIff(typed: string)
    ensures FolderName(typed) == [] <==> forall k :: 0 <= k < |typed| ==> IsJsWhitespace(typed[k])
  {
    TrimEmptyIff(typed);
  }

  /** The cut comes after the trim, so a long name can be sent with a
      trailing space: 49 letters, a space and one more letter are sent as
      the 49 letters and the space. */
  lemma FolderNameMayEndInSpace()
    ensures var typed := seq(49, _ => 'a') + " b";
            var r := FolderName(typed);
            |r| == MaxFolderName && r[MaxFolderName - 1] == ' '
  {
    var typed := seq(49, _ => 'a') + " b";
    assert !IsJsWhitespace(typed[0]) && !IsJsWhitespace(typed[|typed| - 1]);
    assert TrimStart(typed) == typed;
    assert TrimEnd(typed) == typed;
    assert typed[49] == ' ';
  }

  /** Whether the entry stays in the list for the search term: its name,
      lower-cased, contains the lower-cased term. */
  predicate Matches(item: ItemProps, term: string)
  {
    Includes(Lower(item.name), Lower(term))
  }

  /** `items.filter(...)`: the entries whose name matches the term. The
      result holds exactly the matching entries and no more of them than
      the input. */
  function FilterItems(items: seq<ItemProps>, term: string): (r: seq<ItemProps>)
    ensures |r| <= |items|
    ensures forall x :: x in r <==> x in items && Matches(x, term)
  {
    if items == [] then []
    else
      var rest := FilterItems(items[..|items| - 1], term);
      var last := items[|items| - 1];
      assert items == items[..|items| - 1] + [last];
      if Matches(last, term) then rest + [last] else rest
  }

  /** Filtering keeps the order of the entries: filtering two lists one
      after the other gives the two filtered lists one after the other. */
  lemma {:induction false} FilterConcat(a: seq<ItemProps>, b: seq<ItemProps>, term: string)
    ensures FilterItems(a + b, term) == FilterItems(a, term) + FilterItems(b, term)
    decreases |b|
  {
    if b == [] {
      assert a + b == a;
    } else {
      var b' := b[..|b| - 1];
      assert (a + b)[..|a + b| - 1] == a + b';
      FilterConcat(a, b', term);
    }
  }

  /** The empty search term, which the search box holds until something is
      typed and after it is closed, keeps every entry in order. */
  lemma {:induction false} FilterEmptyTerm(items: seq<ItemProps>)
    ensures FilterItems(items, "") == items
  {
    if items != [] {
      FilterEmptyTerm(items[..|items| - 1]);
      assert Lower("") == "";
      IncludesEmpty(Lower(items[|items| - 1].name));
      assert items == items[..|items| - 1] + [items[|items| - 1]];
    }
  }

  /** Lower-casing the term first does not change what matches: the search
      ignores the case of the term. */
  lemma MatchIgnoresTermCase(item: ItemProps, term: string)
    ensures Matches(item, Lower(term)) == Matches(item, term)
  {
    assert Lower(Lower(term)) == Lower(term);
  }

  class Section {
    var isSearchOpen: bool
    var searchTerm: string
    var isAddingFolder: bool
    var newFolderName: string
    var newFolderDescription: string

    /** The two panels are never open together. */
    predicate OnePanelAtMost()
      reads this
    {
      !(isSearchOpen && isAddingFolder)
    }

    /** Both panels closed and every input empty. */
    constructor ()
      ensures !isSearchOpen && searchTerm == []
      ensures !isAddingFolder && newFolderName == [] && newFolderDescription == []
      ensures OnePanelAtMost()
    {
      isSearchOpen := false;
      searchTerm := [];
      isAddingFolder := false;
      newFolderName := [];
      newFolderDescription := [];
    }

    /** `toggleSearch`: an open add-folder form is closed and its inputs
        cleared; the search panel flips; the term is cleared when the search
        panel was open. The flags tested are those before the click. Whatever
        the state before, the add-folder form is closed after, so at most one
        panel is open. */
    method ToggleSearch()
      modifies this
      ensures isSearchOpen == !old(isSearchOpen)
      ensures searchTerm == if old(isSearchOpen) then [] else old(searchTerm)
      ensures !isAddingFolder
      ensures newFolderName == if old(isAddingFolder) then [] else old(newFolderName)
      ensures newFolderDescription == if old(isAddingFolder) then [] else old(newFolderDescription)
      ensures OnePanelAtMost()
    {
      var wasAdding := isAddingFolder;
      var wasSearching := isSearchOpen;
      if wasAdding {
        isAddingFolder := false;
        newFolderName := [];
        newFolderDescription := [];
      }
      isSearchOpen := !isSearchOpen;
      if wasSearching {
        searchTerm := [];
      }
    }

    /** `toggleAddFolder`, the mirror image: an open search panel is closed
        and its term cleared; the add-folder form flips; its inputs are
        cleared when it was open. Afterwards the search panel is closed. */
    method ToggleAddFolder()
      modifies this
      ensures isAddingFolder == !old(isAddingFolder)
      ensures newFolderName == if old(isAddingFolder) then [] else old(newFolderName)
      ensures newFolderDescription == if old(isAddingFolder) then [] else old(newFolderDescription)
      ensures !isSearchOpen
      ensures searchTerm == if old(isSearchOpen) then [] else old(searchTerm)
      ensures OnePanelAtMost()
    {
      var wasSearching := isSearchOpen;
      var wasAdding := isAddingFolder;
      if wasSearching {
        isSearchOpen := false;
        searchTerm := [];
      }
      isAddingFolder := !isAddingFolder;
      if wasAdding {
        newFolderName := [];
        newFolderDescription := [];
      }
    }

    /** Typing into the search box. */
    method SearchChange(value: string)
      modifies this
      ensures searchTerm == value
      ensures isSearchOpen == old(isSearchOpen) && isAddingFolder == old(isAddingFolder)
      ensures newFolderName == old(newFolderName) && newFolderDescription == old(newFolderDescription)
    {
      searchTerm := value;
    }

    /** Typing into the folder name input. */
    method NewFolderNameChange(value: string)
      modifies this
      ensures newFolderName == value
      ensures isSearchOpen == old(isSearchOpen) && isAddingFolder == old(isAddingFolder)
      ensures searchTerm == old(searchTerm) && newFolderDescription == old(newFolderDescription)
    {
      newFolderName := value;
    }

    /** Typing into the folder description input. */
    method NewFolderDescriptionChange(value: string)
      modifies this
      ensures newFolderDescription == value
      ensures isSearchOpen == old(isSearchOpen) && isAddingFolder == old(isAddingFolder)
      ensures searchTerm == old(searchTerm) && newFolderName == old(newFolderName)
    {
      newFolderDescription := value;
    }

    /** What a successful post does: both inputs are cleared and the form
        is closed; the search panel is left alone. */
    method FolderAdded()
      modifies this
      ensures newFolderName == [] && newFolderDescription == [] && !isAddingFolder
      ensures isSearchOpen == old(isSearchOpen) && searchTerm == old(searchTerm)
    {
      newFolderName := [];
      newFolderDescription := [];
      isAddingFolder := false;
    }

    /** `handleAddFolder`: the request that is posted, if any. A name that
        trims to nothing sends nothing and changes nothing. Otherwise the
        trimmed, cut name and the trimmed description are posted;
        `succeeded` says whether the post and the reading of its reply both
        went through. Only then are both inputs cleared and the form closed;
        a failure changes nothing. The search panel is never touched, so the
        one-panel rule is kept. */
    method HandleAddFolder(succeeded: bool) returns (request: Option<FolderRequest>)
      modifies this
      ensures request.None? <==> FolderName(old(newFolderName)) == []
      ensures request.Some? ==>
                request.value == FolderRequest(FolderName(old(newFolderName)), Trim(old(newFolderDescription)))
      ensures request.None? || !succeeded ==>
                && isAddingFolder == old(isAddingFolder)
                && newFolderName == old(newFolderName)
                && newFolderDescription == old(newFolderDescription)
      ensures request.Some? && succeeded ==>
                !isAddingFolder && newFolderName == [] && newFolderDescription == []
      ensures isSearchOpen == old(isSearchOpen)
      ensures searchTerm == old(searchTerm)
      ensures old(OnePanelAtMost()) ==> OnePanelAtMost()
    {
      request := FolderRequestFor(newFolderName, newFolderDescription);
      if request.Some? {
        if succeeded {
          FolderAdded();
        }
      } else {
        request := None;
      }
    }

    /** `filteredItems`: the entries shown for the current search term. */
    function FilteredItems(items: seq<ItemProps>): (r: seq<ItemProps>)
      reads this
      ensures forall x :: x in r <==> x in items && Matches(x, searchTerm)
      ensures searchTerm == [] ==> r == items
    {
      FilterEmptyTerm(items);
      FilterItems(items, searchTerm)
    }
  }
}

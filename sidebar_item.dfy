/**
 * One entry of the sidebar: the text it shows for its name, the text of its
 * tooltip, and whether it is drawn as selected. Its click handler and the
 * markup around it are not modelled.
 */
module SidebarItem {
  import opened Wrappers
  import opened JsText

  /** The two folder icons the sidebar hands to its entries. */
  datatype Icon = FolderOpen | FolderClosed

  /** The properties an entry is rendered from. `isSelected` may be omitted,
      and `description` may be missing (`null` or `undefined`). */
  datatype ItemProps = ItemProps(
    name: string,
    icon: Icon,
    isSelected: Option<bool>,
    description: Option<string>)

  /** How many characters of a name are shown before it is cut. */
  const NameLimit := 16
  /** How many characters of a description the tooltip shows before it is cut. */
  const TooltipLimit := 40
  /** What is shown when there is no description. */
  const NoDescription := "No description"

  /** `s.length > limit ? s.slice(0, limit) + "..." : s`: a string that
      fits is kept, a longer one becomes its first `limit` characters
      followed by three dots. */
  function Truncate(s: string, limit: nat): (r: string)
    ensures |r| <= limit + 3
    ensures |s| <= limit ==> r == s
    ensures |s| > limit ==> |r| == limit + 3 && r[..limit] == s[..limit] && r[limit..] == "..."
  {
    if |s| > limit then Prefix(s, limit) + "..." else s
  }

  /** The text shown for an entry's name: never longer than 19 characters,
      the name itself when it has at most 16, and otherwise its first 16
      characters and an ellipsis. */
  function DisplayName(name: string): (r: string)
    ensures |r| <= NameLimit + 3
    ensures |name| <= NameLimit ==> r == name
    ensures |name| > NameLimit ==> r == name[..NameLimit] + "..."
  {
    var r := Truncate(name, NameLimit);
    assert |name| > NameLimit ==> r == r[..NameLimit] + r[NameLimit..];
    r
  }

  /** Two long names that agree on their first 16 characters are shown
      alike. */
  lemma LongNamesCollide(a: string, b: string)
    requires |a| > NameLimit && |b| > NameLimit && a[..NameLimit] == b[..NameLimit]
    ensures DisplayName(a) == DisplayName(b)
  {
  }

  /** The tooltip text: `description && description.length > 40 ?
      description.slice(0, 40) + "..." : description || "No description"`.
      An empty description is falsy, like a missing one. The text is never
      empty and never longer than 43 characters. */
  function Tooltip(description: Option<string>): (r: string)
    ensures r != []
    ensures |r| <= TooltipLimit + 3
    ensures description.None? || description == Some([]) ==> r == NoDescription
    ensures description.Some? && 1 <= |description.value| <= TooltipLimit ==> r == description.value
    ensures description.Some? && |description.value| > TooltipLimit ==>
              r == description.value[..TooltipLimit] + "..."
  {
    var truthy := description.Some? && description.value != [];
    if truthy && |description.value| > TooltipLimit then
      var r := Prefix(description.value, TooltipLimit) + "...";
      assert r[..TooltipLimit] == description.value[..TooltipLimit];
      r
    else if truthy then description.value
    else NoDescription
  }

  /** A non-empty description always shows through: the tooltip starts with
      its first (up to 40) characters. */
  lemma TooltipShowsDescription(d: string)
    requires d != []
    ensures Prefix(d, TooltipLimit) <= Tooltip(Some(d))
  {
  }

  /** `isSelected = false`: an omitted flag reads as false. */
  function IsSelected(isSelected: Option<bool>): (b: bool)
    ensures b <==> isSelected == Some(true)
    ensures isSelected.None? ==> !b
  {
    match isSelected
    case None => false
    case Some(flag) => flag
  }
}

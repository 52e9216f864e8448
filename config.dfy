/** The configuration object that a page hands to `flexible(setting)`, its shape
    validation (`valid`) and its defaults (`setDefaults`). */
module Config {
  import opened Base

  /** A priority resolved at one breakpoint: a row number, or a host reference such as
      ">#mainBoth-1" whose first character is a marker and whose rest names a host
      item's selector. */
  datatype Priority = Row(row: nat) | Host(reference: string)

  /** `column`: the literal "header", or a map from breakpoint to column number. */
  datatype ColumnSpec = HeaderLiteral | PerBreakpoint(columns: map<int, nat>)

  /** One configured item. Falsy JavaScript values are folded into the field types:
      `selector == ""` is a missing selector, `replaceContentWith == ""` is no
      replacement, and `childNodes == []` is no child items. */
  datatype Item = Item(
    selector: string,
    pick: Option<seq<int>>,
    priority: Option<map<int, Priority>>,
    column: Option<ColumnSpec>,
    widths: Option<map<int, string>>,
    replaceContentWith: string,
    childNodes: seq<Item>)

  datatype MenuItem = MenuItem(selector: string)

  datatype Menu = Menu(items: Option<seq<MenuItem>>, widths: Option<map<int, string>>)

  /** `items == None` also covers an `items` value that is not an array. */
  datatype Setting = Setting(breakpoints: Option<seq<int>>, items: Option<seq<Item>>, menu: Option<Menu>)

  /** The diagnostic that `valid` logs before it rejects a setting. */
  datatype ConfigError =
    | NoSetting
    | NoItems
    | ItemWithoutSelector
    | ItemWithoutPriority
    | ItemWithoutWidths
    | MenuWithoutItems
    | MenuItemWithoutSelector

  /** `isEmpty`: undefined or null. */
  predicate IsEmpty<T>(o: Option<T>) {
    o.None?
  }

  /** The object `{}`: none of the keys the engine reads is present. */
  predicate IsEmptyObject(s: Setting) {
    IsEmpty(s.breakpoints) && IsEmpty(s.items) && IsEmpty(s.menu)
  }

  /** What the source demands of a setting, stated declaratively. */
  predicate WellFormed(s: Setting) {
    && s.items.Some? && |s.items.value| > 0
    && (forall item :: item in s.items.value ==>
          item.selector != "" && item.priority.Some? && item.widths.Some?)
    && (s.menu.Some? ==>
          && s.menu.value.items.Some? && |s.menu.value.items.value| > 0
          && forall m :: m in s.menu.value.items.value ==> m.selector != "")
  }

  function ItemDefect(item: Item): Option<ConfigError> {
    if item.selector == "" then Some(ItemWithoutSelector)
    else if item.priority.None? then Some(ItemWithoutPriority)
    else if item.widths.None? then Some(ItemWithoutWidths)
    else None
  }

  /** The diagnostic for the first defective item, in list order. */
  function FirstItemDefect(items: seq<Item>): (r: Option<ConfigError>)
    ensures r.None? <==> forall i :: 0 <= i < |items| ==> ItemDefect(items[i]).None?
    ensures r.Some? ==> exists i :: 0 <= i < |items| && ItemDefect(items[i]) == r &&
                          forall j :: 0 <= j < i ==> ItemDefect(items[j]).None?
  {
    if items == [] then None
    else if ItemDefect(items[0]).Some? then ItemDefect(items[0])
    else
      var rest := FirstItemDefect(items[1..]);
      assert forall i :: 1 <= i < |items| ==> items[i] == items[1..][i - 1];
      rest
  }

  /** The verdict of `valid`, check by check in the source's order. */
  function Defect(setting: Option<Setting>): Option<ConfigError> {
    if setting.None? || IsEmptyObject(setting.value) then Some(NoSetting)
    else
      var s := setting.value;
      if s.items.None? || |s.items.value| == 0 then Some(NoItems)
      else if FirstItemDefect(s.items.value).Some? then FirstItemDefect(s.items.value)
      else if s.menu.Some? && (s.menu.value.items.None? || |s.menu.value.items.value| == 0) then
        Some(MenuWithoutItems)
      else if s.menu.Some? && exists m :: m in s.menu.value.items.value && m.selector == "" then
        Some(MenuItemWithoutSelector)
      else None
  }

  /** `valid(setting)`: the checks run in order and stop at the first failure, whose
      diagnostic is returned beside the verdict. */
  method Valid(setting: Option<Setting>) returns (ok: bool, reason: Option<ConfigError>)
    ensures reason == Defect(setting)
    ensures ok <==> reason.None?
    ensures ok <==> setting.Some? && WellFormed(setting.value)
  {
    if setting.None? || IsEmptyObject(setting.value) {
      return false, Some(NoSetting);
    }
    var s := setting.value;
    if s.items.None? || |s.items.value| == 0 {
      return false, Some(NoItems);
    }
    var items := s.items.value;
    var i := 0;
    while i < |items|
      invariant 0 <= i <= |items|
      invariant forall j :: 0 <= j < i ==> ItemDefect(items[j]).None?
    {
      var item := items[i];
      if item.selector == "" {
        return false, Some(ItemWithoutSelector);
      }
      if item.priority.None? {
        return false, Some(ItemWithoutPriority);
      }
      if item.widths.None? {
        return false, Some(ItemWithoutWidths);
      }
      i := i + 1;
    }
    assert forall item :: item in items ==> ItemDefect(item).None?;
    if s.menu.Some? {
      var menu := s.menu.value;
      if menu.items.None? || |menu.items.value| == 0 {
        return false, Some(MenuWithoutItems);
      }
      var menuItems := menu.items.value;
      var k := 0;
      while k < |menuItems|
        invariant 0 <= k <= |menuItems|
        invariant forall j :: 0 <= j < k ==> menuItems[j].selector != ""
      {
        if menuItems[k].selector == "" {
          return false, Some(MenuItemWithoutSelector);
        }
        k := k + 1;
      }
    }
    return true, None;
  }

  const DefaultBreakpoints: seq<int> := [1200, 991, 768]

  const DefaultMenuWidths: map<int, string> := map[1200 := "40%", 991 := "50%", 768 := "80%"]

  /** `setDefaults`: missing breakpoints become [1200, 991, 768]; a menu without widths
      gets 40%, 50% and 80% at those breakpoints. An empty breakpoint list is kept. */
  function SetDefaults(s: Setting): (r: Setting)
    ensures r.items == s.items
    ensures r.breakpoints.Some?
    ensures s.breakpoints.Some? ==> r.breakpoints == s.breakpoints
    ensures s.breakpoints.None? ==> r.breakpoints == Some(DefaultBreakpoints)
    ensures r.menu.Some? <==> s.menu.Some?
    ensures r.menu.Some? ==> r.menu.value.items == s.menu.value.items && r.menu.value.widths.Some?
    ensures s.menu.Some? && s.menu.value.widths.Some? ==> r.menu == s.menu
    ensures s.menu.Some? && s.menu.value.widths.None? ==> r.menu.value.widths == Some(DefaultMenuWidths)
  {
    var withBreakpoints := if IsEmpty(s.breakpoints) then s.(breakpoints := Some(DefaultBreakpoints)) else s;
    if withBreakpoints.menu.Some? && IsEmpty(withBreakpoints.menu.value.widths) then
      withBreakpoints.(menu := Some(withBreakpoints.menu.value.(widths := Some(DefaultMenuWidths))))
    else
      withBreakpoints
  }

  /** Defaults fill only what is missing, so applying them twice changes nothing more,
      and a setting that passed validation still passes it. */
  lemma SetDefaultsIdempotent(s: Setting)
    ensures SetDefaults(SetDefaults(s)) == SetDefaults(s)
    ensures WellFormed(s) ==> WellFormed(SetDefaults(s))
  {
  }
}

/** The engine's module-level state and its entry points: `flexible`, the one-time
    setup, `setWidths`, `SortByPriorities`, `getItemElms`, the two state switches,
    `manageBreakpoints`, the `window.onresize` guard and the function that
    `flexible.js` hands to the page. Every call is specified by a function on an
    `Engine` value; the class `Session` keeps the same state in fields that its
    methods update in place, and each method is proved to follow its function. */
module Flexible {
  import opened Base
  import opened Config
  import opened Breakpoints
  import opened Registry
  import opened Planner

  /** What `document.body` shows: the page's own markup; that markup with the
      extracted elements `moved` out of it into their detached containers
      (`elmFlexibleContainer.appendChild(elm)`, flexible.js:151); or the flexible
      container with its columns in order. */
  datatype Body = PageMarkup(markup: string) | Stripped(markup: string, moved: set<DocNode>)
                | FlexContainer(columns: seq<ColumnView>)

  /** The module-level variables of `flexible.js`. */
  datatype Engine = Engine(
    setting: Option<Setting>,   // _setting
    current: Option<int>,       // _currentBreakpoint
    max: Option<int>,           // _maxBreakpoint
    done: bool,                 // _areInitialTasksDone
    menuBuilt: bool,            // _pageFlexibleMenuContent has been created
    applied: bool,              // _isFlexibleStateApplied
    snapshot: string,           // _pageOriginalContent
    plan: Plan,                 // _pageFlexiblePriorities
    reg: Registry,              // containers, manipulated nodes and the contents written into them
    body: Body)

  // ----- contents written into manipulated nodes -----

  /** `if (elm.<value>) elm.innerHTML = elm.<value>` for the first `n` listed nodes. */
  function ApplyContents(content: map<DocNode, string>, list: seq<DocNode>, values: map<DocNode, string>,
                         n: nat): map<DocNode, string>
    requires n <= |list|
  {
    if n == 0 then content
    else
      var before := ApplyContents(content, list, values, n - 1);
      var d := list[n - 1];
      if d in values && values[d] != "" then before[d := values[d]] else before
  }

  /** A listed node with a non-empty value shows that value afterwards. */
  lemma {:induction false} ApplyContentsWrites(content: map<DocNode, string>, list: seq<DocNode>,
                                               values: map<DocNode, string>, n: nat, d: DocNode)
    requires n <= |list|
    requires d in list[..n] && d in values && values[d] != ""
    ensures var r := ApplyContents(content, list, values, n); d in r && r[d] == values[d]
  {
    if list[n - 1] != d {
      assert list[..n] == list[..n - 1] + [list[n - 1]];
      ApplyContentsWrites(content, list, values, n - 1, d);
    }
  }

  /** Any other node keeps what it showed. */
  lemma {:induction false} ApplyContentsKeeps(content: map<DocNode, string>, list: seq<DocNode>,
                                              values: map<DocNode, string>, n: nat, d: DocNode)
    requires n <= |list|
    requires d !in list[..n] || d !in values || values[d] == ""
    ensures var r := ApplyContents(content, list, values, n);
            (d in r <==> d in content) && (d in content ==> r[d] == content[d])
  {
    if n > 0 {
      assert list[..n] == list[..n - 1] + [list[n - 1]];
      ApplyContentsKeeps(content, list, values, n - 1, d);
    }
  }

  // ----- the state and what the engine keeps true of it -----

  /** A setting after `setDefaults` and `manageBreakpoints`. */
  predicate Configured(s: Setting) {
    s.breakpoints.Some? && SortedAsc(s.breakpoints.value) && WellFormed(s)
  }

  /** The elements extraction has wrapped in containers. */
  function Moved(reg: Registry): set<DocNode> {
    reg.boxes.wraps.Values
  }

  /** Every manipulated node whose original content is not empty shows it. */
  predicate OriginalShown(reg: Registry, page: Page) {
    forall d :: d in reg.notes.manipulated && page.html(d) != "" ==> ContentOf(reg.content, page, d) == page.html(d)
  }

  /** The invariant of the engine's state on a page. */
  predicate Coherent(e: Engine, page: Page) {
    && Structured(e.reg.boxes.elms)
    && NotesValid(e.reg.notes, page)
    && (e.applied ==> e.menuBuilt)
    && (e.menuBuilt ==> e.done)
    && (!e.done ==> e.body == PageMarkup(page.body))
    && (e.done && !e.applied ==> e.body == PageMarkup(page.body) || e.body == Stripped(page.body, Moved(e.reg)))
    && (e.done && !e.menuBuilt ==> e.body == Stripped(page.body, Moved(e.reg)))
    && (!e.applied ==> OriginalShown(e.reg, page))
    && (e.done ==> e.snapshot == page.body)
    && (!e.done ==> e.reg.content == map[])
    && (e.setting.Some? ==> Configured(e.setting.value) && e.max == MaxBreakpoint(e.setting.value.breakpoints.value))
  }

  function Items(e: Engine): seq<Item>
    requires e.setting.Some? && e.setting.value.items.Some?
  {
    e.setting.value.items.value
  }

  function EmptyRegistry(): Registry {
    Registry(Containers(map[], map[], map[], map[]), Notes([], map[], map[]), map[])
  }

  /** The state when the script has loaded: nothing configured, the page untouched. */
  function Loaded(page: Page): (e: Engine)
    ensures Coherent(e, page) && !e.done && !e.applied && e.setting.None?
  {
    Engine(None, None, None, false, false, false, "", map[], EmptyRegistry(), PageMarkup(page.body))
  }

  // ----- the calls, as functions of the state -----

  /** `switchToOriginalState`: the original contents are written back into the
      manipulated nodes, the body is the saved markup again, and the flag is cleared. */
  function Restored(e: Engine): Engine {
    var notes := e.reg.notes;
    e.(reg := e.reg.(content := ApplyContents(e.reg.content, notes.manipulated, notes.originalContent,
                                              |notes.manipulated|)),
       body := PageMarkup(e.snapshot),
       applied := false)
  }

  /** `switchToFlexibleState`: the flexible contents are written into the manipulated
      nodes, the body becomes the flexible container laid out from the plan, and the
      flag is set. */
  function Presented(e: Engine): Engine {
    var notes := e.reg.notes;
    e.(reg := e.reg.(content := ApplyContents(e.reg.content, notes.manipulated, notes.flexibleContent,
                                              |notes.manipulated|)),
       body := FlexContainer(Layout(e.plan)),
       applied := true)
  }

  /** The one-time setup: the body's markup is saved, the menu is created when the
      setting has one, and the items are extracted, which moves their elements out of
      the body. */
  function Prepared(e: Engine, page: Page): Engine
    requires e.setting.Some? && e.setting.value.items.Some? && e.body.PageMarkup?
  {
    var x := Extract(e.reg, Items(e), [], page);
    e.(snapshot := e.body.markup, menuBuilt := e.menuBuilt || e.setting.value.menu.Some?,
       reg := x, body := Stripped(e.body.markup, Moved(x)), done := true)
  }

  /** The end of `flexible` below the maximum, as written: `switchToFlexibleState`
      appends `_pageFlexibleMenuContent` to the container without checking that a
      menu was created (flexible.js:260), and `setMenuWidth` reaches it too when the
      setting has a menu. Without a created menu the call throws there, before any
      content, the body or the flag changes, so the state is left as planned. */
  function Shown(e: Engine): Engine {
    if e.menuBuilt then Presented(e) else e
  }

  /** `setWidths(setting.items)` at the active breakpoint. */
  function Sized(e: Engine): Engine
    requires e.setting.Some? && e.setting.value.items.Some?
  {
    var b := e.reg.boxes;
    e.(reg := e.reg.(boxes := b.(width := SetWidthsUpTo(b.width, Items(e), [], b.elms, e.current, |Items(e)|))))
  }

  /** `SortByPriorities(setting.items)` at the active breakpoint. */
  function Planned(e: Engine): Engine
    requires e.setting.Some? && e.setting.value.items.Some?
    requires Placeable(Items(e), e.current)
  {
    var b := e.reg.boxes;
    var s := SortByPriorities(b, e.plan, Items(e), Targets(Items(e), e.current));
    e.(reg := e.reg.(boxes := b.(guestElms := s.guestElms, width := s.width)), plan := s.plan)
  }

  /** What `flexible(setting)` demands: below the maximum breakpoint every top-level
      item has a place at the active breakpoint. */
  predicate ReflowDefined(e: Engine, width: int)
    requires e.setting.Some? && e.setting.value.items.Some?
  {
    !AboveMax(width, e.max) ==> Placeable(Items(e), e.current)
  }

  /** `flexible(setting)`. Above the maximum breakpoint the page returns to its
      original state if it was reflowed; otherwise the one-time setup runs while it has
      not yet run, the page is sized and planned, and it is presented when a menu was
      created (see `Shown`). */
  function Reflowed(e: Engine, width: int, page: Page): Engine
    requires Coherent(e, page) && e.setting.Some?
    requires ReflowDefined(e, width)
  {
    if AboveMax(width, e.max) then
      if e.applied then Restored(e) else e
    else
      var ready := if e.done then e else Prepared(e, page);
      Shown(Planned(Sized(ready)))
  }

  /** `flexible(setting)` as evidently intended, with the append of flexible.js:260
      guarded by `if (setting.menu)` as the comment above it says: below the maximum
      the page is always presented. */
  function ReflowedAsIntended(e: Engine, width: int, page: Page): Engine
    requires Coherent(e, page) && e.setting.Some?
    requires ReflowDefined(e, width)
  {
    if AboveMax(width, e.max) then
      if e.applied then Restored(e) else e
    else
      var ready := if e.done then e else Prepared(e, page);
      Presented(Planned(Sized(ready)))
  }

  /** `manageBreakpoints`: the thresholds are sorted ascending, the last one is the
      maximum, and the active breakpoint is looked up for the window width. */
  function ManagedBreakpoints(e: Engine, width: int): Engine
    requires e.setting.Some? && e.setting.value.breakpoints.Some?
  {
    var bps := SortAscending(e.setting.value.breakpoints.value);
    e.(setting := Some(e.setting.value.(breakpoints := Some(bps))),
       max := MaxBreakpoint(bps),
       current := CurrentBreakpoint(bps, width))
  }

  /** What a first call with a valid setting demands at a window width. */
  predicate Launchable(s: Setting, width: int) {
    var d := SetDefaults(s);
    s.items.Some? ==>
      var bps := SortAscending(d.breakpoints.value);
      !AboveMax(width, MaxBreakpoint(bps)) ==> Placeable(s.items.value, CurrentBreakpoint(bps, width))
  }

  /** The function `flexible.js` returns: a setting that fails `valid` leaves
      everything as it was; otherwise the defaults are filled in, the breakpoints are
      managed, and `flexible` runs. */
  function Started(e: Engine, setting: Option<Setting>, width: int, page: Page): Engine
    requires Coherent(e, page)
    requires setting.Some? && WellFormed(setting.value) ==> Launchable(setting.value, width)
  {
    if !(setting.Some? && WellFormed(setting.value)) then e
    else Launched(e, setting.value, width, page)
  }

  /** A setting that passes `valid`: `_setting = setDefaults(setting)`,
      `manageBreakpoints()`, `flexible(_setting)`. */
  function Launched(e: Engine, s: Setting, width: int, page: Page): Engine
    requires Coherent(e, page) && WellFormed(s) && Launchable(s, width)
  {
    LaunchReady(e, s, width, page);
    Reflowed(ManagedBreakpoints(e.(setting := Some(SetDefaults(s))), width), width, page)
  }

  /** The breakpoint a resize selects. */
  function ResizeBreakpoint(e: Engine, width: int): Option<int>
    requires e.setting.Some? && e.setting.value.breakpoints.Some?
  {
    CurrentBreakpoint(e.setting.value.breakpoints.value, width)
  }

  /** What a resize demands: if it changes the active breakpoint and stays at or
      below the maximum, every top-level item has a place at the new breakpoint. */
  predicate ResizeDefined(e: Engine, width: int)
    requires e.setting.Some? ==> Configured(e.setting.value)
  {
    e.setting.Some? ==>
      var bp := ResizeBreakpoint(e, width);
      bp != e.current && !AboveMax(width, e.max) ==> Placeable(Items(e), bp)
  }

  /** `window.onresize`: before any accepted setting `getCurrentBreakpoint` reads
      `_setting.breakpoints` of an undefined `_setting` (flexible.js:540) and the
      handler throws, changing nothing. Otherwise nothing happens unless the active
      breakpoint changes; when it does, it is stored, the plan is emptied and
      `flexible` runs again. */
  function Resized(e: Engine, width: int, page: Page): Engine
    requires Coherent(e, page)
    requires ResizeDefined(e, width)
  {
    if e.setting.None? then e
    else
      var bp := ResizeBreakpoint(e, width);
      if e.current == bp then e
      else Reflowed(e.(current := bp, plan := map[]), width, page)
  }

  // ----- the invariant is kept -----

  lemma ManagedCoherent(e: Engine, s: Setting, width: int, page: Page)
    requires Coherent(e, page) && WellFormed(s)
    ensures Coherent(ManagedBreakpoints(e.(setting := Some(SetDefaults(s))), width), page)
  {
    var d := SetDefaults(s);
    SetDefaultsIdempotent(s);
    var bps := SortAscending(d.breakpoints.value);
    var c := d.(breakpoints := Some(bps));
    assert WellFormed(c) by {
      assert c.items == d.items && c.menu == d.menu;
    }
    assert Configured(c);
  }

  /** A setting that passes `valid` and the demands of its first call leaves, once
      managed, a state `flexible` can run on. */
  lemma LaunchReady(e: Engine, s: Setting, width: int, page: Page)
    requires Coherent(e, page) && WellFormed(s) && Launchable(s, width)
    ensures SetDefaults(s).breakpoints.Some?
    ensures var c := ManagedBreakpoints(e.(setting := Some(SetDefaults(s))), width);
            && Coherent(c, page) && c.setting.Some? && c.setting.value.items.Some?
            && ReflowDefined(c, width)
  {
    SetDefaultsIdempotent(s);
    ManagedCoherent(e, s, width, page);
  }

  lemma PreparedCoherent(e: Engine, page: Page)
    requires Coherent(e, page) && e.setting.Some? && !e.done
    ensures e.body.PageMarkup? && Coherent(Prepared(e, page), page)
  {
    var items := Items(e);
    ExtractKeepsInvariants(e.reg, items, [], page, |items|);
  }

  lemma {:induction false} ReflowedCoherent(e: Engine, width: int, page: Page)
    requires Coherent(e, page) && e.setting.Some?
    requires ReflowDefined(e, width)
    ensures Coherent(Reflowed(e, width, page), page)
  {
    if AboveMax(width, e.max) {
      if e.applied {
        RestoredShowsOriginal(e, page);
      }
    } else if !e.done {
      PreparedCoherent(e, page);
    }
  }

  lemma StartedCoherent(e: Engine, setting: Option<Setting>, width: int, page: Page)
    requires Coherent(e, page)
    requires setting.Some? && WellFormed(setting.value) ==> Launchable(setting.value, width)
    ensures Coherent(Started(e, setting, width, page), page)
  {
    if setting.Some? && WellFormed(setting.value) {
      LaunchReady(e, setting.value, width, page);
      var configured := ManagedBreakpoints(e.(setting := Some(SetDefaults(setting.value))), width);
      ReflowedCoherent(configured, width, page);
      assert Launched(e, setting.value, width, page) == Reflowed(configured, width, page);
    }
  }


  /** A resize that changes the active breakpoint is `flexible` run on the engine with
      that breakpoint and an empty plan, which meets what `flexible` demands. */
  lemma ResizeReflows(e: Engine, width: int, page: Page)
    requires Coherent(e, page) && e.setting.Some?
    requires ResizeDefined(e, width)
    requires ResizeBreakpoint(e, width) != e.current
    ensures var f := e.(current := ResizeBreakpoint(e, width), plan := map[]);
            && Coherent(f, page) && f.setting.Some? && f.setting.value.items.Some?
            && ReflowDefined(f, width)
            && Resized(e, width, page) == Reflowed(f, width, page)
  {
  }

  lemma ResizedCoherent(e: Engine, width: int, page: Page)
    requires Coherent(e, page)
    requires ResizeDefined(e, width)
    ensures Coherent(Resized(e, width, page), page)
  {
    if e.setting.Some? {
      var bp := ResizeBreakpoint(e, width);
      if e.current != bp {
        ReflowedCoherent(e.(current := bp, plan := map[]), width, page);
      }
    }
  }

  // ----- the state toggle -----

  /** Restoring writes every manipulated node's original content back, unless that
      content was empty (`if (elm.originalContent)`), and shows the saved markup. */
  lemma RestoredShowsOriginal(e: Engine, page: Page)
    requires Coherent(e, page) && e.done
    ensures var r := Restored(e);
            && !r.applied && r.body == PageMarkup(page.body)
            && r.plan == e.plan && r.reg.boxes == e.reg.boxes && r.reg.notes == e.reg.notes
            && forall d :: d in e.reg.notes.manipulated && page.html(d) != "" ==>
                             ContentOf(r.reg.content, page, d) == page.html(d)
  {
    var notes := e.reg.notes;
    var list := notes.manipulated;
    forall d | d in list && page.html(d) != ""
      ensures ContentOf(Restored(e).reg.content, page, d) == page.html(d)
    {
      assert list[..|list|] == list;
      ApplyContentsWrites(e.reg.content, list, notes.originalContent, |list|, d);
    }
  }

  /** Presenting writes every manipulated node's flexible content, unless it is empty. */
  lemma PresentedShowsFlexible(e: Engine, page: Page)
    ensures var r := Presented(e);
            var notes := e.reg.notes;
            && r.applied && r.body == FlexContainer(Layout(e.plan))
            && forall d :: d in notes.manipulated && d in notes.flexibleContent && notes.flexibleContent[d] != "" ==>
                             ContentOf(r.reg.content, page, d) == notes.flexibleContent[d]
  {
    var notes := e.reg.notes;
    var list := notes.manipulated;
    forall d | d in list && d in notes.flexibleContent && notes.flexibleContent[d] != ""
      ensures ContentOf(Presented(e).reg.content, page, d) == notes.flexibleContent[d]
    {
      assert list[..|list|] == list;
      ApplyContentsWrites(e.reg.content, list, notes.flexibleContent, |list|, d);
    }
  }

  /** Above the maximum breakpoint `flexible` does nothing unless the page is reflowed,
      and then it returns the page to its original state and clears the flag. */
  lemma AboveMaxRestoresOnlyIfApplied(e: Engine, width: int, page: Page)
    requires Coherent(e, page) && e.setting.Some?
    requires AboveMax(width, e.max)
    ensures !e.applied ==> Reflowed(e, width, page) == e
    ensures e.applied ==>
              var r := Reflowed(e, width, page);
              && !r.applied && r.body == PageMarkup(page.body) && r.plan == e.plan
              && forall d :: d in r.reg.notes.manipulated && page.html(d) != "" ==>
                               ContentOf(r.reg.content, page, d) == page.html(d)
  {
    if e.applied {
      RestoredShowsOriginal(e, page);
    }
  }

  /** At or below the maximum the one-time setup runs exactly when it has not run:
      the first reflow saves the page's markup, creates the menu when the setting has
      one and extracts the items; later ones reuse the menu, the containers and the
      notes as they are. The page ends reflowed exactly when a menu was created;
      otherwise the body is never replaced, and it shows its own markup with the
      extracted elements moved out. */
  lemma SetupOnlyOnce(e: Engine, width: int, page: Page)
    requires Coherent(e, page) && e.setting.Some?
    requires !AboveMax(width, e.max) && ReflowDefined(e, width)
    ensures var r := Reflowed(e, width, page);
            && r.done && r.snapshot == page.body
            && r.menuBuilt == (if e.done then e.menuBuilt else e.setting.value.menu.Some?)
            && (r.menuBuilt ==> r.applied && r.body == FlexContainer(Layout(r.plan)))
            && (!r.menuBuilt ==> !r.applied && r.body == Stripped(page.body, Moved(r.reg)))
            && (e.done ==> r.reg.boxes.elms == e.reg.boxes.elms && r.reg.boxes.wraps == e.reg.boxes.wraps &&
                           r.reg.notes == e.reg.notes)
            && (!e.done ==> var x := Extract(e.reg, Items(e), [], page);
                            r.reg.boxes.elms == x.boxes.elms && r.reg.boxes.wraps == x.boxes.wraps &&
                            r.reg.notes == x.notes)
  {
    if !e.done {
      PreparedCoherent(e, page);
    }
  }

  /** A reflow with a created menu shows every non-empty flexible content in its
      node; without one every node keeps its non-empty original content. */
  lemma ReflowShowsFlexibleContent(e: Engine, width: int, page: Page)
    requires Coherent(e, page) && e.setting.Some?
    requires !AboveMax(width, e.max) && ReflowDefined(e, width)
    ensures var r := Reflowed(e, width, page);
            var notes := r.reg.notes;
            r.menuBuilt ==>
              forall d :: d in notes.manipulated && d in notes.flexibleContent && notes.flexibleContent[d] != "" ==>
                            ContentOf(r.reg.content, page, d) == notes.flexibleContent[d]
    ensures var r := Reflowed(e, width, page);
            !r.menuBuilt ==> OriginalShown(r.reg, page)
  {
    var ready := if e.done then e else Prepared(e, page);
    if !e.done {
      PreparedCoherent(e, page);
    }
    PresentedShowsFlexible(Planned(Sized(ready)), page);
  }

  /** The one-time setup moves every surviving element of every item, at any depth
      of `childNodes`, out of the body into its container. */
  lemma SetupMovesSurvivors(e: Engine, page: Page, rel: Path, k: nat)
    requires Coherent(e, page) && e.setting.Some? && !e.done
    requires ItemAt(Items(e), rel).Some? && k < |Survivors(ItemAt(Items(e), rel).value, page)|
    ensures var p := Prepared(e, page);
            p.body.Stripped? && Survivors(ItemAt(Items(e), rel).value, page)[k] in p.body.moved
  {
    ExtractRegistersNested(e.reg, Items(e), [], page, rel);
    var x := Extract(e.reg, Items(e), [], page);
    assert [] + rel == rel;
    assert Box(rel, k) in x.boxes.wraps;
  }

  /** As written, a setting without a menu never reaches the flexible view: a reflow
      below the maximum sizes and plans the page exactly as intended, and then throws
      at the unguarded append. The body is never replaced and no flexible content is
      written, but once set up the body has lost the extracted elements, and since
      the flag stays clear nothing ever restores them. */
  lemma MenulessSettingNeverPresents(e: Engine, width: int, page: Page)
    requires Coherent(e, page) && e.setting.Some? && e.setting.value.menu.None? && !e.menuBuilt
    requires ReflowDefined(e, width)
    ensures var r := Reflowed(e, width, page);
            && !r.menuBuilt && !r.applied && OriginalShown(r.reg, page)
            && r.body == (if r.done then Stripped(page.body, Moved(r.reg)) else PageMarkup(page.body))
            && (!AboveMax(width, e.max) ==>
                  var intended := ReflowedAsIntended(e, width, page);
                  && r.done && r.plan == intended.plan && intended.applied)
  {
    ReflowedCoherent(e, width, page);
  }

  /** With the append guarded, every reflow below the maximum presents the page,
      menu or not: the flexible container laid out from the plan and every non-empty
      flexible content in its node. */
  lemma IntendedReflowPresents(e: Engine, width: int, page: Page)
    requires Coherent(e, page) && e.setting.Some?
    requires !AboveMax(width, e.max) && ReflowDefined(e, width)
    ensures var r := ReflowedAsIntended(e, width, page);
            var notes := r.reg.notes;
            && r.done && r.applied && r.snapshot == page.body && r.body == FlexContainer(Layout(r.plan))
            && forall d :: d in notes.manipulated && d in notes.flexibleContent && notes.flexibleContent[d] != "" ==>
                             ContentOf(r.reg.content, page, d) == notes.flexibleContent[d]
  {
    var ready := if e.done then e else Prepared(e, page);
    if !e.done {
      PreparedCoherent(e, page);
    }
    PresentedShowsFlexible(Planned(Sized(ready)), page);
  }

  /** Once a menu is created, or when the first setting has one, the code as written
      and the intended one agree. */
  lemma IntendedAgreesWithMenu(e: Engine, width: int, page: Page)
    requires Coherent(e, page) && e.setting.Some? && ReflowDefined(e, width)
    requires if e.done then e.menuBuilt else e.setting.value.menu.Some?
    ensures Reflowed(e, width, page) == ReflowedAsIntended(e, width, page)
  {
  }

  /** Narrowing the window below the maximum and then widening it above gives back the
      original page when a menu was created: the saved markup, the original contents,
      and the flag cleared. Without a menu the narrow call never replaced the body,
      so the wide one restores nothing: the body still lacks the extracted elements. */
  lemma NarrowThenWideRestores(e: Engine, narrow: int, wide: int, page: Page)
    requires Coherent(e, page) && e.setting.Some?
    requires !AboveMax(narrow, e.max) && ReflowDefined(e, narrow)
    requires AboveMax(wide, e.max)
    ensures Coherent(Reflowed(e, narrow, page), page)
    ensures Reflowed(e, narrow, page).setting == e.setting && Reflowed(e, narrow, page).max == e.max
    ensures var mid := Reflowed(e, narrow, page);
            var r := Reflowed(mid, wide, page);
            mid.menuBuilt ==>
              && !r.applied && r.body == PageMarkup(page.body)
              && forall d :: d in r.reg.notes.manipulated && page.html(d) != "" ==>
                               ContentOf(r.reg.content, page, d) == page.html(d)
    ensures var mid := Reflowed(e, narrow, page);
            var r := Reflowed(mid, wide, page);
            !mid.menuBuilt ==> r == mid && !r.applied && r.body == Stripped(page.body, Moved(r.reg))
  {
    var mid := Reflowed(e, narrow, page);
    ReflowedCoherent(e, narrow, page);
    SetupOnlyOnce(e, narrow, page);
    AboveMaxRestoresOnlyIfApplied(mid, wide, page);
  }

  // ----- the resize guard -----

  /** A resize before any accepted setting changes nothing. */
  lemma ResizeBeforeSettingIsNoOp(e: Engine, width: int, page: Page)
    requires Coherent(e, page) && e.setting.None?
    ensures ResizeDefined(e, width) && Resized(e, width, page) == e
  {
  }

  /** A resize that keeps the active breakpoint changes nothing. */
  lemma ResizeWithinBreakpointIsNoOp(e: Engine, width: int, page: Page)
    requires Coherent(e, page) && e.setting.Some?
    requires ResizeBreakpoint(e, width) == e.current
    ensures Resized(e, width, page) == e
  {
  }

  /** A resize that changes the active breakpoint stores it and rebuilds the plan from
      empty: every bucket holds exactly the cells of the items aimed at it, in item
      order, and nothing from before the resize. When the page was loaded wider than
      the maximum, the first such resize also runs the one-time setup, whose
      containers are the ones placed. */
  lemma ResizeRebuildsPlan(e: Engine, width: int, page: Page, col: ColumnKey, row: int)
    requires Coherent(e, page) && e.setting.Some?
    requires ResizeBreakpoint(e, width) != e.current
    requires !AboveMax(width, e.max) && ResizeDefined(e, width)
    ensures var r := Resized(e, width, page);
            var bp := ResizeBreakpoint(e, width);
            var f := e.(current := bp, plan := map[]);
            var ready := if e.done then f else Prepared(f, page);
            var items := Items(e);
            var elms := ready.reg.boxes.elms;
            && r.current == bp
            && BucketAt(r.plan, col, row) ==
               Placed(Targets(items, bp), elms, r.reg.boxes.guestElms,
                      SetWidthsUpTo(ready.reg.boxes.width, items, [], elms, bp, |items|), col, row, |items|)
  {
    var bp := ResizeBreakpoint(e, width);
    var f := e.(current := bp, plan := map[]);
    ResizeReflows(e, width, page);
    var ready := if e.done then f else Prepared(f, page);
    if !e.done { PreparedCoherent(f, page); }
    var items := Items(e);
    SortByPrioritiesBuckets(Sized(ready).reg.boxes, map[], items, Targets(items, bp), col, row);
  }

  /** A wider window above the maximum after a reflow at a breakpoint resizes back to
      the original page. */
  lemma ResizeAboveMaxRestores(e: Engine, width: int, page: Page)
    requires Coherent(e, page) && e.setting.Some? && e.applied && e.current.Some?
    requires AboveMax(width, e.max)
    ensures ResizeDefined(e, width)
    ensures var r := Resized(e, width, page);
            && r.current.None? && !r.applied && r.body == PageMarkup(page.body) && r.plan == map[]
  {
    var bps := e.setting.value.breakpoints.value;
    NoActiveBreakpointIffAboveMax(bps, width);
  }

  // ----- the entry point -----

  /** A setting that fails validation changes nothing. */
  lemma RejectedSettingChangesNothing(e: Engine, setting: Option<Setting>, width: int, page: Page)
    requires Coherent(e, page)
    requires !(setting.Some? && WellFormed(setting.value))
    ensures Started(e, setting, width, page) == e
  {
  }

  /** Every top-level item's priority resolves at the active breakpoint. */
  lemma PriorityResolves(items: seq<Item>, bp: Option<int>, i: nat)
    requires Placeable(items, bp) && i < |items|
    ensures items[i].priority.Some? && Resolve(items[i].priority.value, bp).Some?
  {
    assert HasTarget(items, bp, i);
  }

  // Proof helper for the reflow lemmas.
  /** An item whose priority is a reference is a guest of the referenced selector. */
  lemma GuestTarget(items: seq<Item>, bp: Option<int>, i: nat, reference: string)
    requires Placeable(items, bp) && i < |items|
    requires items[i].priority.Some? && Resolve(items[i].priority.value, bp) == Some(Host(reference))
    ensures Targets(items, bp)[i] == Guest(HostSelector(reference))
  {
    TargetsAt(items, bp, i);
  }

  // Proof helper for the reflow lemmas.
  /** An item whose priority is a row number goes into that row of its column. */
  lemma SlotTarget(items: seq<Item>, bp: Option<int>, i: nat, row: nat)
    requires Placeable(items, bp) && i < |items|
    requires items[i].priority.Some? && Resolve(items[i].priority.value, bp) == Some(Row(row))
    ensures items[i].column.Some? && Targets(items, bp)[i] == Slot(ColumnOf(items[i].column.value, bp), row)
  {
    assert HasTarget(items, bp, i);
    TargetsAt(items, bp, i);
  }

  // ----- the session: the same state, updated in place -----

  /** One page with `flexible.js` loaded: the module-level variables of the script,
      the item fields it writes (`elms`, `guestElms`), the containers' widths and the
      manipulated nodes' properties. */
  class Session {
    const page: Page
    var setting: Option<Setting>
    var currentBreakpoint: Option<int>
    var maxBreakpoint: Option<int>
    var areInitialTasksDone: bool
    var menuCreated: bool
    var isFlexibleStateApplied: bool
    var pageOriginalContent: string
    var priorities: Plan
    var elms: map<Path, seq<Box>>
    var guestElms: map<Path, seq<Box>>
    var wraps: map<Box, DocNode>
    var width: map<Box, string>
    var manipulated: seq<DocNode>
    var originalContent: map<DocNode, string>
    var flexibleContent: map<DocNode, string>
    var content: map<DocNode, string>
    var body: Body

    ghost function ContainerState(): Containers
      reads this
    {
      Containers(elms, guestElms, wraps, width)
    }

    ghost function NoteState(): Notes
      reads this
    {
      Notes(manipulated, originalContent, flexibleContent)
    }

    ghost function RegistryState(): Registry
      reads this
    {
      Registry(ContainerState(), NoteState(), content)
    }

    /** The session's state as an `Engine` value. */
    ghost function Model(): Engine
      reads this
    {
      Engine(setting, currentBreakpoint, maxBreakpoint, areInitialTasksDone, menuCreated, isFlexibleStateApplied,
             pageOriginalContent, priorities, RegistryState(), body)
    }

    ghost predicate Valid()
      reads this
    {
      Coherent(Model(), page)
    }

    /** The script as loaded into `page`. */
    constructor (page: Page)
      ensures this.page == page
      ensures Model() == Loaded(page) && Valid()
    {
      this.page := page;
      setting := None;
      currentBreakpoint := None;
      maxBreakpoint := None;
      areInitialTasksDone := false;
      menuCreated := false;
      isFlexibleStateApplied := false;
      pageOriginalContent := "";
      priorities := map[];
      elms := map[];
      guestElms := map[];
      wraps := map[];
      width := map[];
      manipulated := [];
      originalContent := map[];
      flexibleContent := map[];
      content := map[];
      body := PageMarkup(page.body);
    }

    /** `addToManipulatedElementsList(elm)`. */
    method AddToManipulatedElementsList(elm: DocNode)
      modifies this`manipulated
      ensures manipulated == Remember(old(manipulated), elm)
    {
      if elm !in manipulated {
        manipulated := manipulated + [elm];
      }
    }

    /** The body of `extractElements`' loop for one item, before its `childNodes`:
        the matched nodes that survive `pick` are manipulated (when
        `replaceContentWith` is set) and each is wrapped in a fresh container. */
    method ExtractItemElements(item: Item, path: Path)
      modifies this`elms, this`guestElms, this`wraps, this`width,
               this`manipulated, this`originalContent, this`flexibleContent
      ensures RegistryState() == ExtractItem(old(RegistryState()), item, path, page)
    {
      var survivors := Picked(page.query(item.selector), item.pick);
      if item.replaceContentWith != "" {
        for k := 0 to |survivors|
          invariant NoteState() == ManipulateUpTo(old(NoteState()), content, page, survivors, item.replaceContentWith, k)
          invariant ContainerState() == old(ContainerState())
        {
          var elm := survivors[k];
          originalContent := originalContent[elm := ContentOf(content, page, elm)];
          flexibleContent := flexibleContent[elm := item.replaceContentWith];
          AddToManipulatedElementsList(elm);
        }
      }
      ghost var noted := NoteState();
      elms := elms[path := []];
      guestElms := guestElms[path := []];
      for k := 0 to |survivors|
        invariant ContainerState() == WrapUpTo(old(ContainerState()), path, survivors, k)
        invariant NoteState() == noted
      {
        var container := Box(path, k);
        wraps := wraps[container := survivors[k]];
        width := width[container := ""];
        elms := elms[path := ElmsAt(elms, path) + [container]];
      }
    }

    /** `extractElements(items)` for the items whose paths start with `prefix`. */
    method ExtractElements(items: seq<Item>, prefix: Path)
      modifies this`elms, this`guestElms, this`wraps, this`width,
               this`manipulated, this`originalContent, this`flexibleContent
      ensures RegistryState() == Extract(old(RegistryState()), items, prefix, page)
      decreases items, 0
    {
      ghost var start := RegistryState();
      for i := 0 to |items|
        invariant RegistryState() == ExtractUpTo(start, items, prefix, page, i)
      {
        ExtractPass(items, prefix, i, start);
      }
    }

    /** One pass of `extractElements`' loop over `items`, the `i`-th: the item's own
        nodes, then, when it has `childNodes`, `extractElements(item.childNodes)`.
        `start` is the registry before the loop. */
    method ExtractPass(items: seq<Item>, prefix: Path, i: nat, ghost start: Registry)
      requires i < |items|
      requires RegistryState() == ExtractUpTo(start, items, prefix, page, i)
      modifies this`elms, this`guestElms, this`wraps, this`width,
               this`manipulated, this`originalContent, this`flexibleContent
      ensures RegistryState() == ExtractUpTo(start, items, prefix, page, i + 1)
      decreases items[i].childNodes, 1
    {
      var item := items[i];
      ghost var before := RegistryState();
      ExtractItemElements(item, prefix + [i]);
      if item.childNodes != [] {
        ExtractElements(item.childNodes, prefix + [i]);
      }
      assert RegistryState() == ExtractTree(before, item, prefix + [i], page);
    }

    /** `setWidths(items)` for the items whose paths start with `prefix`, at the
        active breakpoint. */
    method SetWidths(items: seq<Item>, prefix: Path)
      modifies this`width
      ensures width == SetWidthsUpTo(old(width), items, prefix, elms, currentBreakpoint, |items|)
      decreases items
    {
      for i := 0 to |items|
        invariant width == SetWidthsUpTo(old(width), items, prefix, elms, currentBreakpoint, i)
      {
        ghost var before := width;
        var item := items[i];
        var path := prefix + [i];
        if item.widths.Some? {
          var w := Resolve(item.widths.value, currentBreakpoint);
          var containers := ElmsAt(elms, path);
          for k := 0 to |containers|
            invariant w.Some? ==> Fill(width, containers[k..], w.value) == Fill(before, containers, w.value)
            invariant w.None? ==> width == before
          {
            if w.Some? {
              assert containers[k..][1..] == containers[k + 1..];
              width := width[containers[k] := w.value];
            }
          }
          assert w.Some? ==> containers[|containers|..] == [];
        }
        ghost var sized := width;
        assert sized == SetWidthsItem(before, item, path, elms, currentBreakpoint);
        if item.childNodes != [] {
          SetWidths(item.childNodes, path);
        }
        assert width == SetWidthsUpTo(sized, item.childNodes, path, elms, currentBreakpoint, |item.childNodes|);
      }
    }

    /** `getItemElms(item)` for the item at `path`: its own containers when it has no
        guests, otherwise a wrapper per (guest, host) pair, guest by guest, each
        taking the host's width as it is before the host and the guest are set to
        "100%". */
    method GetItemElms(path: Path) returns (cells: seq<Cell>)
      modifies this`width
      ensures Merge(cells, width) == ItemElms(old(width), ElmsAt(elms, path), ElmsAt(guestElms, path))
    {
      var hosts := ElmsAt(elms, path);
      var guests := ElmsAt(guestElms, path);
      if |guests| == 0 {
        return OwnCells(hosts);
      }
      cells := [];
      for gi := 0 to |guests|
        invariant Merge(cells, width) == WrapGuests(Merge([], old(width)), hosts, guests, gi)
      {
        ghost var start := Merge(cells, width);
        for hk := 0 to |hosts|
          invariant Merge(cells, width) == WrapHosts(start, hosts, guests[gi], hk)
        {
          var host := hosts[hk];
          var wrapperWidth := WidthOf(width, host);
          width := width[host := "100%"];
          width := width[guests[gi] := "100%"];
          cells := cells + [Merged(wrapperWidth, host, guests[gi])];
        }
      }
    }

    /** Creates `_pageFlexiblePriorities[column][row]` when missing and pushes `cells`
        onto its end. */
    method AddToBucket(column: ColumnKey, row: nat, cells: seq<Cell>)
      modifies this`priorities
      ensures priorities == Append(old(priorities), column, row, cells)
    {
      ghost var rows := if column in priorities then priorities[column] else map[];
      ghost var bucket := BucketAt(priorities, column, row);
      if column !in priorities {
        priorities := priorities[column := map[]];
      }
      if row !in priorities[column] {
        priorities := priorities[column := priorities[column][row := []]];
      }
      assert priorities[column] == rows[row := bucket];
      assert priorities == old(priorities)[column := rows[row := bucket]];
      assert bucket + cells[..0] == bucket;
      for k := 0 to |cells|
        invariant priorities == old(priorities)[column := rows[row := bucket + cells[..k]]]
      {
        assert bucket + cells[..k + 1] == bucket + cells[..k] + [cells[k]];
        priorities := priorities[column := priorities[column][row := priorities[column][row] + [cells[k]]]];
        assert priorities[column] == rows[row := bucket + cells[..k + 1]];
      }
      assert cells[..|cells|] == cells;
    }

    /** `if (elm.<value>) elm.innerHTML = elm.<value>` for every manipulated node,
        with `values` holding each node's `originalContent` or `flexibleContent`. */
    method WriteContents(values: map<DocNode, string>)
      modifies this`content
      ensures content == ApplyContents(old(content), manipulated, values, |manipulated|)
    {
      for k := 0 to |manipulated|
        invariant content == ApplyContents(old(content), manipulated, values, k)
      {
        var elm := manipulated[k];
        if elm in values && values[elm] != "" {
          content := content[elm := values[elm]];
        }
      }
    }

    /** `switchToOriginalState`. */
    method SwitchToOriginalState()
      modifies this`content, this`body, this`isFlexibleStateApplied
      ensures Model() == Restored(old(Model()))
    {
      ghost var e := Model();
      WriteContents(originalContent);
      assert RegistryState() == e.reg.(content := ApplyContents(e.reg.content, manipulated, originalContent, |manipulated|));
      body := PageMarkup(pageOriginalContent);
      isFlexibleStateApplied := false;
    }

    /** The columns `switchToFlexibleState` appends to the flexible container:
        `addToPage("header")` when the plan has a header, then `addToPage(column)`
        for every other column in `for…in` order. */
    method BuildColumns() returns (columns: seq<ColumnView>)
      ensures columns == Layout(priorities)
    {
      var head := [];
      if Header in priorities {
        head := [AddToPage(priorities, Header)];
      }
      var keys := ForInKeys(priorities);
      ForInKeysInPlan(priorities);
      var others := [];
      for k := 0 to |keys|
        invariant InPlan(priorities, SkipHeader(keys, k))
        invariant others == ViewsOf(priorities, SkipHeader(keys, k))
      {
        SkipHeaderInPlan(priorities, keys, k + 1);
        if keys[k] != Header {
          ViewsOfSnoc(priorities, SkipHeader(keys, k), keys[k]);
          others := others + [AddToPage(priorities, keys[k])];
        }
      }
      columns := head + others;
      HeaderThenForInIsLayout(priorities);
    }

    /** `switchToFlexibleState`, which throws when no menu was created. */
    method SwitchToFlexibleState()
      modifies this`content, this`body, this`isFlexibleStateApplied
      ensures Model() == Shown(old(Model()))
    {
      ghost var e := Model();
      var columns := BuildColumns();
      if !menuCreated {
        // `flexContainer.appendChild(_pageFlexibleMenuContent)` throws
        return;
      }
      WriteContents(flexibleContent);
      assert RegistryState() == e.reg.(content := ApplyContents(e.reg.content, manipulated, flexibleContent, |manipulated|));
      body := FlexContainer(columns);
      if !isFlexibleStateApplied {
        isFlexibleStateApplied := true;
      }
    }

    /** `manageBreakpoints`, for the window width `windowWidth`. */
    method ManageBreakpoints(windowWidth: int)
      requires setting.Some? && setting.value.breakpoints.Some?
      modifies this`setting, this`maxBreakpoint, this`currentBreakpoint
      ensures Model() == ManagedBreakpoints(old(Model()), windowWidth)
    {
      var bps := SortAscending(setting.value.breakpoints.value);
      setting := Some(setting.value.(breakpoints := Some(bps)));
      maxBreakpoint := MaxBreakpoint(bps);
      currentBreakpoint := CurrentBreakpoint(bps, windowWidth);
    }

    /** `flexible(_setting)` with the window `windowWidth` pixels wide. */
    method Flexible(windowWidth: int)
      requires Valid() && setting.Some? && setting.value.items.Some?
      requires ReflowDefined(Model(), windowWidth)
      modifies this
      ensures Model() == Reflowed(old(Model()), windowWidth, page) && Valid()
    {
      ReflowedCoherent(Model(), windowWidth, page);
      if AboveMax(windowWidth, maxBreakpoint) {
        if isFlexibleStateApplied {
          SwitchToOriginalState();
        }
        return;
      }
      if !areInitialTasksDone {
        InitialTasks();
      }
      Reflow();
    }

    /** The tasks `flexible` does on its first run below the maximum breakpoint: the
        body's markup is saved, the menu is created when the setting has one, and the
        items are extracted. */
    method InitialTasks()
      requires setting.Some? && setting.value.items.Some? && body.PageMarkup?
      modifies this`pageOriginalContent, this`areInitialTasksDone, this`menuCreated, this`body,
               this`elms, this`guestElms, this`wraps, this`width,
               this`manipulated, this`originalContent, this`flexibleContent
      ensures Model() == Prepared(old(Model()), page)
    {
      ghost var e := Model();
      SaveAndCreateMenu();
      ghost var saved := Model();
      ExtractElements(setting.value.items.value, []);
      ghost var extracted := RegistryState();
      assert extracted == Extract(e.reg, Items(e), [], page);
      // each survivor was appended to its container (flexible.js:151)
      body := Stripped(body.markup, wraps.Values);
      areInitialTasksDone := true;
      assert Model() == saved.(reg := extracted, body := Stripped(e.body.markup, Moved(extracted)), done := true);
    }

    /** The first two initial tasks: the body's markup is saved, and the menu is
        created when the setting has one. */
    method SaveAndCreateMenu()
      requires setting.Some? && body.PageMarkup?
      modifies this`pageOriginalContent, this`menuCreated
      ensures Model() == old(Model()).(snapshot := body.markup, menuBuilt := old(menuCreated) || setting.value.menu.Some?)
    {
      pageOriginalContent := body.markup;
      if setting.value.menu.Some? {
        CreateMenu();
      }
    }

    /** `createMenu(setting.menu)`: the menu container exists from now on. */
    method CreateMenu()
      modifies this`menuCreated
      ensures menuCreated
    {
      menuCreated := true;
    }

    /** What `flexible` does on every run below the maximum breakpoint: `setWidths`,
        `SortByPriorities` and `switchToFlexibleState`. When the setting has a menu
        but none was created, `setMenuWidth` throws before `switchToFlexibleState`
        would; the state is the same either way. */
    method Reflow()
      requires setting.Some? && setting.value.items.Some?
      requires Placeable(setting.value.items.value, currentBreakpoint)
      modifies this`width, this`guestElms, this`priorities,
               this`content, this`body, this`isFlexibleStateApplied
      ensures Model() == Shown(Planned(Sized(old(Model()))))
    {
      var items := setting.value.items.value;
      SetWidths(items, []);
      ghost var sized := Model();
      assert sized == Sized(old(Model()));
      SortByPriorities(items);
      assert Model() == Planned(sized);
      SwitchToFlexibleState();
    }

    /** `window.onresize` with the window now `windowWidth` pixels wide. */
    method OnResize(windowWidth: int)
      requires Valid()
      requires ResizeDefined(Model(), windowWidth)
      modifies this
      ensures Model() == Resized(old(Model()), windowWidth, page) && Valid()
    {
      ghost var e := Model();
      ResizedCoherent(e, windowWidth, page);
      if setting.None? {
        // `getCurrentBreakpoint` reads `_setting.breakpoints` and throws
        return;
      }
      var bp := CurrentBreakpoint(setting.value.breakpoints.value, windowWidth);
      if currentBreakpoint != bp {
        ResizeReflows(e, windowWidth, page);
        currentBreakpoint := bp;
        priorities := map[];
        assert Model() == e.(current := bp, plan := map[]);
        Flexible(windowWidth);
      }
    }

    /** The function `flexible.js` returns, called with `s` while the window is
        `windowWidth` pixels wide; `accepted` is false when `valid` rejects `s`. */
    method Start(s: Option<Setting>, windowWidth: int) returns (accepted: bool)
      requires Valid()
      requires s.Some? && WellFormed(s.value) ==> Launchable(s.value, windowWidth)
      modifies this
      ensures accepted <==> s.Some? && WellFormed(s.value)
      ensures Model() == Started(old(Model()), s, windowWidth, page) && Valid()
    {
      StartedCoherent(Model(), s, windowWidth, page);
      var ok, _ := Config.Valid(s);
      if !ok {
        return false;
      }
      Launch(s.value, windowWidth);
      accepted := true;
    }

    /** The returned function's work on a setting that passes `valid`. */
    method Launch(s: Setting, windowWidth: int)
      requires Valid() && WellFormed(s) && Launchable(s, windowWidth)
      modifies this
      ensures Model() == Launched(old(Model()), s, windowWidth, page)
    {
      LaunchReady(Model(), s, windowWidth, page);
      ghost var configured := ManagedBreakpoints(Model().(setting := Some(SetDefaults(s))), windowWidth);
      setting := Some(SetDefaults(s));
      ManageBreakpoints(windowWidth);
      assert Model() == configured;
      Flexible(windowWidth);
    }

    /** `SortByPriorities(items)` at the active breakpoint: every item's `guestElms`
        is cleared; every item whose priority is a reference pushes its containers onto
        the `guestElms` of each item with the referenced selector; then every item with
        a row number pushes its `getItemElms` output into its bucket. */
    method SortByPriorities(items: seq<Item>)
      requires Placeable(items, currentBreakpoint)
      modifies this`guestElms, this`width, this`priorities
      ensures var s := Planner.SortByPriorities(Containers(elms, old(guestElms), wraps, old(width)), old(priorities),
                                                items, Targets(items, currentBreakpoint));
              guestElms == s.guestElms && priorities == s.plan && width == s.width
    {
      ClearGuestElms(items);
      CollectGuests(items);
      PlaceItems(items);
    }

    /** The first loop of `SortByPriorities`: `item.guestElms = []` for every item. */
    method ClearGuestElms(items: seq<Item>)
      modifies this`guestElms
      ensures guestElms == ClearUpTo(old(guestElms), |items|)
      ensures forall h :: 0 <= h < |items| ==> Top(h) in guestElms
    {
      for j := 0 to |items|
        invariant guestElms == ClearUpTo(old(guestElms), j)
        invariant forall h :: 0 <= h < j ==> Top(h) in guestElms
      {
        guestElms := guestElms[Top(j) := []];
      }
    }

    /** The second loop of `SortByPriorities`: the guest pass. */
    method CollectGuests(items: seq<Item>)
      requires Placeable(items, currentBreakpoint)
      requires forall h :: 0 <= h < |items| ==> Top(h) in guestElms
      modifies this`guestElms
      ensures guestElms == GuestsUpTo(old(guestElms), items, Targets(items, currentBreakpoint), elms, |items|)
    {
      for i := 0 to |items|
        invariant guestElms == GuestsUpTo(old(guestElms), items, Targets(items, currentBreakpoint), elms, i)
        invariant forall h :: 0 <= h < |items| ==> Top(h) in guestElms
      {
        PriorityResolves(items, currentBreakpoint, i);
        var priority := Resolve(items[i].priority.value, currentBreakpoint).value;
        if priority.Host? {
          GuestTarget(items, currentBreakpoint, i, priority.reference);
          AttachGuest(items, HostSelector(priority.reference), ElmsAt(elms, Top(i)));
        } else {
          SlotTarget(items, currentBreakpoint, i, priority.row);
        }
      }
    }

    /** The third loop of `SortByPriorities`: the placement pass. */
    method PlaceItems(items: seq<Item>)
      requires Placeable(items, currentBreakpoint)
      modifies this`width, this`priorities
      ensures Placement(priorities, width) ==
              PlaceUpTo(Placement(old(priorities), old(width)), Targets(items, currentBreakpoint), elms, guestElms, |items|)
    {
      ghost var targets := Targets(items, currentBreakpoint);
      ghost var start := Placement(priorities, width);
      for i := 0 to |items|
        invariant Placement(priorities, width) == PlaceUpTo(start, targets, elms, guestElms, i)
      {
        ghost var before := Placement(priorities, width);
        PriorityResolves(items, currentBreakpoint, i);
        var priority := Resolve(items[i].priority.value, currentBreakpoint).value;
        if priority.Row? {
          SlotTarget(items, currentBreakpoint, i, priority.row);
          PlaceItem(Top(i), ColumnOf(items[i].column.value, currentBreakpoint), priority.row);
        } else {
          GuestTarget(items, currentBreakpoint, i, priority.reference);
        }
      }
    }

    /** One step of the placement pass: `getItemElms(item)` pushed into the
        `row` of `column`. */
    method PlaceItem(path: Path, column: ColumnKey, row: nat)
      modifies this`width, this`priorities
      ensures var m := ItemElms(old(width), ElmsAt(elms, path), ElmsAt(guestElms, path));
              Placement(priorities, width) == Placement(Append(old(priorities), column, row, m.cells), m.width)
    {
      var cells := GetItemElms(path);
      AddToBucket(column, row, cells);
    }

    /** The containers `own` of a guest item pushed onto the `guestElms` of every item
        whose selector is `host`, in item order. */
    method AttachGuest(items: seq<Item>, host: string, own: seq<Box>)
      requires forall h :: 0 <= h < |items| ==> Top(h) in guestElms
      modifies this`guestElms
      ensures guestElms == AttachUpTo(old(guestElms), items, host, own, |items|)
      ensures forall h :: 0 <= h < |items| ==> Top(h) in guestElms
    {
      for h := 0 to |items|
        invariant guestElms == AttachUpTo(old(guestElms), items, host, own, h)
        invariant forall j :: 0 <= j < |items| ==> Top(j) in guestElms
      {
        if items[h].selector == host {
          ghost var before := guestElms;
          assert ElmsAt(before, Top(h)) + own[..0] == before[Top(h)];
          for k := 0 to |own|
            invariant guestElms == before[Top(h) := ElmsAt(before, Top(h)) + own[..k]]
          {
            assert ElmsAt(before, Top(h)) + own[..k + 1] == ElmsAt(before, Top(h)) + own[..k] + [own[k]];
            guestElms := guestElms[Top(h) := ElmsAt(guestElms, Top(h)) + [own[k]]];
          }
          assert own[..|own|] == own;
        }
      }
    }
  }
}

# flexible.js reflow engine in Dafny

`flexible.js` turns a fixed-width page into a responsive one. A page calls the
function the script returns with a setting. The setting lists breakpoints (window
widths) and items. Each item has a CSS selector and per-breakpoint maps for its
priority (row), its column and its width.

When the window is at or below the largest breakpoint, the engine does the following:

- It extracts the matching elements once, each into its own container, keeping only
  the indices listed in `pick`.
- It sizes the containers for the active breakpoint.
- It sorts them into a column → row → cells plan (`_pageFlexiblePriorities`). An item
  whose priority is a host reference such as `">#mainBoth-1"` becomes a guest of that
  host. Each guest container is then wrapped together with each host container.
- It replaces the body with the flexible container, which lays the plan out column by
  column and row by row.

Above the largest breakpoint the original markup and contents come back. A resize does
nothing unless the active breakpoint changes; when it does, the plan is rebuilt.

The model is split by concern:

- `base.dfy` (`Base`): Option, the least element of a finite set of integers, and a
  set's ascending order. JavaScript's `for…in` visits integer keys in this order.
- `config.dfy` (`Config`): the setting's shape, `valid`, `isEmpty` and `setDefaults`.
- `breakpoints.dfy` (`Breakpoints`): the following as pure functions with their
  properties:
  - `sortAsc` sorting;
  - `_maxBreakpoint`;
  - `getCurrentBreakpoint`;
  - `getValueForCurrentBreakpoint`.
- `registry.dfy` (`Registry`): `extractElements` with the `pick` filter, the
  manipulated-elements list and `setWidths`. These are specification functions over
  the item tree, with their frame and invariant lemmas.
- `planner.dfy` (`Planner`): the three passes of `SortByPriorities` and the cross
  product that `getItemElms` builds. It also covers the order in which
  `switchToFlexibleState` and `addToPage` emit the plan.
- `flexible.dfy` (`Flexible`):
  - an `Engine` value holding the module-level variables, a function for every entry
    point and the state-machine lemmas;
  - the class `Session`, which holds the same state in fields that its methods update
    in place with loops and which is proved against those functions.
- `alef.dfy` (`Alef`): the example site configuration at breakpoint 840.

Page elements are opaque node handles. A page is the function `querySelectorAll`
together with each node's `innerHTML` and the body markup; it is a parameter, and
`window.innerWidth` is a parameter of every entry point. A container that extraction
creates is named by its item's path and its index. The plan holds cells: a container
of the item itself, or a wrapper of a host and a guest container along with the width
it was given.

## Model

| member | source | states |
|---|---|---|
| Config.FirstItemDefect | flexible.js:403-420 | None exactly when every item has a selector, a priority and widths; otherwise the diagnostic of the first defective item, every earlier item being sound |
| Config.Valid | flexible.js:389-439 | accepts exactly the settings that are present and well formed: at least one item, each with selector, priority and widths, and, when a menu is given, at least one menu item, each with a selector; the reason is the first failing check in the source's order and is absent exactly when accepted |
| Config.SetDefaults | flexible.js:441-452 | items untouched; breakpoints kept when given and [1200, 991, 768] when missing; a menu is present exactly when one was given, with its items kept, its widths kept when given and 40%, 50%, 80% at 1200, 991, 768 when missing |
| Config.SetDefaultsIdempotent | flexible.js:441-452 | filling in defaults twice equals filling them in once, and a well-formed setting stays well formed |
| Breakpoints.Insert | flexible.js:455 | inserting into an ascending list yields an ascending list with one more occurrence of the value |
| Breakpoints.SortAscending | flexible.js:455 | the sorted breakpoints are ascending and a permutation of the given ones |
| Breakpoints.SortedPermutationsEqual | flexible.js:455 | two ascending permutations of the same values are equal, so any correct sort gives this result |
| Breakpoints.SortAscendingKeepsSorted | flexible.js:455 | sorting an ascending list returns it unchanged |
| Breakpoints.MaxBreakpoint | flexible.js:456 | undefined exactly for no breakpoints; otherwise a breakpoint, and on a sorted list no breakpoint exceeds it |
| Breakpoints.CurrentBreakpoint | flexible.js:539-548 | the active breakpoint is a threshold at least the window width; it is undefined exactly when every threshold is below the width; on a sorted list it is the least qualifying threshold |
| Breakpoints.NoActiveBreakpointIffAboveMax | flexible.js:539-548 | on sorted thresholds, no breakpoint is active exactly when there are none or the width exceeds the maximum |
| Breakpoints.CurrentBreakpointMonotone | flexible.js:539-548 | a narrower window has an active breakpoint whenever a wider one does, and it is not larger |
| Breakpoints.MatchedKey | flexible.js:521-529 | the chosen key is the smallest key at or above the active breakpoint; none exactly when no breakpoint is active or every key is below it |
| Breakpoints.Resolve | flexible.js:519-533 | the value stored at the smallest key at or above the active breakpoint; undefined exactly when no breakpoint is active or no key qualifies |
| Breakpoints.ResolveExactKey | flexible.js:519-533 | a map with a key equal to the active breakpoint yields that key's value |
| Breakpoints.ResolveWithCatchAll | flexible.js:519-533 | a map with a key at or above the maximum breakpoint resolves at every active breakpoint |
| Breakpoints.ResolveCeilingExample | flexible.js:519-533 | keys 100, 300, 999 give A at 50, B at 150, C at 999 and nothing at 1000 |
| Breakpoints.AlefBreakpointsSorted | alef.js:2 | the example's breakpoints 990, 840, 560 sort to 560, 840, 990 |
| Breakpoints.AlefActiveBreakpoint | alef.js:2 | with those breakpoints the maximum is 990, a 700-pixel window selects 840, and a map keyed only at 990 resolves to its entry there |
| Registry.Kept | flexible.js:126-130 | the kept indices are ascending, in range and listed in `pick`, and every listed in-range index is kept |
| Registry.FilterByIndex | flexible.js:126-130 | defines the `pick` filter; `Registry.FilterByIndexIsKept` proves it keeps exactly the matched elements at the kept indices |
| Registry.FilterByIndexIsKept | flexible.js:126-130 | the filtered elements are exactly the matched elements at the kept indices, in that order |
| Registry.PickedInDocumentOrder | flexible.js:121-130 | with `pick` the survivors are the matched elements at the listed indices, in document order |
| Registry.PickIgnoresOrder | flexible.js:126-130 | two `pick` lists naming the same indices select the same elements, whatever their order or repetitions |
| Registry.Remember | flexible.js:486-490 | defines `addToManipulatedElementsList` on a list; what it keeps is proved by `Registry.RememberAddsOnce` and `Registry.RememberIdempotent` |
| Registry.RememberAddsOnce | flexible.js:486-490 | the list afterwards holds the old entries and the element, keeps the old list as its prefix, and stays free of duplicates |
| Registry.RememberIdempotent | flexible.js:486-490 | adding the same element twice equals adding it once |
| Registry.ManipulateKeepsInvariants | flexible.js:133-143 | replacing contents keeps the manipulated list duplicate-free, every recorded original content equal to the page's, and every listed node recorded |
| Registry.ManipulateRecords | flexible.js:133-143 | every survivor of an item with a replacement is listed as manipulated and carries that replacement as its flexible content |
| Registry.WrapUpToOwn | flexible.js:145-153 | the item's `elms` are one new container per survivor, in order, each holding that survivor, and its `guestElms` is empty |
| Registry.WrapUpToFrame | flexible.js:145-153 | wrapping one item's survivors leaves every other item's `elms`, `guestElms` and containers untouched |
| Registry.ExtractFrame | flexible.js:114-160 | extraction leaves the containers of every path outside the extracted subtree untouched |
| Registry.ExtractStepFrame | flexible.js:118-158 | one item's extraction, children included, leaves every path outside its subtree untouched |
| Registry.ExtractStepOwn | flexible.js:118-158 | after one item's extraction its `elms` are one container per survivor holding that survivor, and its `guestElms` are empty |
| Registry.ExtractRegistersItems | flexible.js:114-160 | after the pass over a list every item of that list holds one container per survivor, wrapping it, and empty `guestElms` |
| Registry.ExtractLaterFrame | flexible.js:118-158 | the passes over later items leave the subtrees of earlier items untouched |
| Registry.ExtractRegistersNested | flexible.js:114-160 | after extraction every item at any depth of `childNodes` holds one container per survivor, wrapping it, and empty `guestElms` |
| Registry.ExtractItem | flexible.js:121-153 | defines one item's extraction before its child items; `Registry.ExtractStepOwn` and `Registry.ExtractItemKeepsInvariants` state what it leaves |
| Registry.Extract | flexible.js:114-160 | defines `extractElements` on the item tree, depth first; `Registry.ExtractRegistersNested`, `Registry.ExtractFrame` and `Registry.ExtractKeepsInvariants` state what it leaves |
| Registry.ExtractItemKeepsInvariants | flexible.js:121-153 | one item's extraction keeps containers filed under their own item and keeps the manipulated-list invariant |
| Registry.ExtractKeepsInvariants | flexible.js:114-160 | the whole extraction keeps both invariants and writes no content |
| Registry.Fill | flexible.js:223-225 | every container of the item gets the width and every other width is unchanged |
| Registry.SetWidthsUpTo | flexible.js:216-233 | defines `setWidths` on the item tree, depth first; `Registry.SetWidthsResolvesNested` and `Registry.SetWidthsFrame` state what it leaves |
| Registry.SetWidthsFrame | flexible.js:216-233 | containers of paths outside the sized items keep their width |
| Registry.SetWidthsResolves | flexible.js:216-233 | each container of an item of the list with widths ends with the width resolved for the active breakpoint, or keeps its old width when none resolves |
| Registry.SetWidthsLaterFrame | flexible.js:216-233 | the passes over later items leave the containers of earlier items' subtrees at their width |
| Registry.SetWidthsResolvesNested | flexible.js:216-233 | the same for every item at any depth of `childNodes`: its containers end with the resolved width, or keep their old width when none resolves |
| Planner.HostSelector | flexible.js:172 | defines `priority.substring(1)`, the selector a reference names |
| Planner.ColumnOf | flexible.js:191 | defines the column lookup: "header" literally, else the resolved column number, else the "undefined" key |
| Planner.TargetOf | flexible.js:169-191 | defines where an item goes, or that `SortByPriorities` throws on it; `Flexible.PriorityResolves` proves every placeable item's priority resolves |
| Planner.ClearUpToAt | flexible.js:164-166 | after the first loop every top-level item's `guestElms` is empty and nothing else changed |
| Planner.AttachUpToAt | flexible.js:172-177 | a guest's containers are appended, in order, to the `guestElms` of every item whose selector is the host, and to no other |
| Planner.GuestsStepTop | flexible.js:168-179 | one step of the guest pass appends the item's containers to a host exactly when the item is that host's guest |
| Planner.GuestsUpToTop | flexible.js:168-179 | a host's `guestElms` afterwards are its old ones followed by its guests' containers in item order |
| Planner.GuestsUpToFrame | flexible.js:168-179 | the guest pass touches no child item |
| Planner.GuestPassCollects | flexible.js:164-179 | after clearing and collecting, each top-level host holds exactly its guests' containers in item order |
| Planner.UnmatchedGuestDropped | flexible.js:171-177 | an item whose reference names no selector contributes nothing to any host: the hosts' guests are the same as if it had no containers |
| Planner.WrapHostsCells | flexible.js:561-570 | the inner loop appends one wrapper per host container and keeps the earlier cells |
| Planner.WrapHostsCell | flexible.js:561-570 | the k-th new wrapper holds the k-th host container and the guest, with the host's width at that moment |
| Planner.WrapHostsPrefix | flexible.js:561-570 | later iterations only append to the cells |
| Planner.WrapHostsWidth | flexible.js:564-566 | visited hosts and the guest are at 100% and every other container keeps its width |
| Planner.WrapGuestsCells | flexible.js:560-571 | the outer loop appends one wrapper per host for each guest |
| Planner.WrapGuestsCell | flexible.js:560-571 | the wrapper for guest gi and host hk sits at gi·hosts+hk and holds those two containers |
| Planner.WrapGuestsPrefix | flexible.js:560-571 | later guests only append |
| Planner.WrapGuestsWidth | flexible.js:560-571 | with hosts and at least one guest, every host and visited guest is at 100%; other containers keep their width |
| Planner.WrapHostsAgree | flexible.js:561-570 | the wrappers depend only on the hosts' widths |
| Planner.WrapGuestsAgree | flexible.js:560-571 | the same across all guests |
| Planner.ItemElms | flexible.js:554-574 | defines `getItemElms`; `Planner.ItemElmsWithoutGuests`, `Planner.ItemElmsCrossProduct`, `Planner.ItemElmsWrapperWidth` and `Planner.ItemElmsWidths` state its result |
| Planner.ItemElmsWithoutGuests | flexible.js:555-557 | with no guests the output is exactly the item's own containers and no width changes |
| Planner.ItemElmsCrossProduct | flexible.js:558-573 | with M guests and N containers there are M×N wrappers, guest-major, each holding host then guest |
| Planner.ItemElmsWrapperWidth | flexible.js:562-566 | the first guest's wrappers take the hosts' previous widths and every later wrapper gets 100% |
| Planner.ItemElmsWidths | flexible.js:564-566 | with guests, every host and guest container ends at 100%; otherwise no width changes |
| Planner.ItemElmsReadsHosts | flexible.js:554-574 | the cells depend only on the hosts' widths |
| Planner.Append | flexible.js:196-206 | defines the push into `_pageFlexiblePriorities[column][priority]`; `Planner.AppendTarget` and `Planner.AppendOther` state its effect |
| Planner.AppendTarget | flexible.js:196-206 | the bucket is created when missing and the cells are appended after what it held |
| Planner.AppendOther | flexible.js:196-206 | every other bucket is unchanged and no column or row disappears |
| Planner.PlaceUpTo | flexible.js:183-207 | defines the placement pass; `Planner.PlaceUpToBucket` compares it with the reference `Placed` |
| Planner.PlaceStepTarget | flexible.js:183-206 | a numbered item appends its `getItemElms` output to its own bucket |
| Planner.PlaceStepOther | flexible.js:183-206 | a step leaves every bucket other than the item's own unchanged, and a guest item adds nothing |
| Planner.PlaceUpToWidthFrame | flexible.js:183-207 | only containers of numbered items and their guests change width |
| Planner.PlaceUpToHostsUntouched | flexible.js:183-207 | a numbered item's containers keep their width until its own turn |
| Planner.PlaceUpToBucket | flexible.js:183-207 | each bucket ends as its old contents followed by the merged cells of the items aimed at it, in item order |
| Planner.PlaceUpToKeys | flexible.js:196-202 | existing columns and rows are kept and every numbered item's column and row exist afterwards |
| Planner.NotGuestOfPlaced | flexible.js:168-179 | a numbered item's container is never collected as someone's guest |
| Planner.GuestPassUntangled | flexible.js:162-179 | after the guest pass no guest container belongs to a numbered item |
| Planner.SortByPrioritiesBuckets | flexible.js:162-207 | after `SortByPriorities` each bucket is its old contents followed by the merged cells of the items aimed at it, computed with the widths before placement |
| Planner.ColumnOrder | flexible.js:248-257 | defines the order in which columns are emitted; `Planner.ColumnOrderInPlan`, `Planner.ColumnOrderComplete` and `Planner.ColumnOrderSorted` prove it lists every column of the plan once, header first, numbered columns ascending |
| Planner.Layout | flexible.js:248-257 | defines the flexible container as one view per column in that order; `Planner.HeaderThenForInIsLayout` proves the code's two steps produce it |
| Planner.NumberedKeysFacts | flexible.js:253-257 | the numbered columns are listed ascending, all present, and each exactly once |
| Planner.ColumnOrderInPlan | flexible.js:248-257 | every emitted column is in the plan |
| Planner.ColumnOrderComplete | flexible.js:248-257 | every column of the plan is emitted |
| Planner.ColumnOrderSorted | flexible.js:248-257 | header first when present, numbered columns ascending, the "undefined" column last, and no column twice |
| Planner.ForInKeysInPlan | flexible.js:253 | the `for…in` visit lists only columns of the plan |
| Planner.ViewsOfSnoc | flexible.js:460-476 | emitting one more column appends its view |
| Planner.ViewsOfConcat | flexible.js:460-476 | emitting two lists of columns concatenates their views |
| Planner.HeaderThenForInIsLayout | flexible.js:248-257 | the header followed by the `for…in` visit without the header yields exactly the layout |
| Planner.RowsInOrder | flexible.js:466-474 | defines a column's rows in `for…in` order; `Planner.RowsAscending` proves they are ascending by row number and complete |
| Planner.RowsAscending | flexible.js:466-474 | a column's rows are emitted in ascending row number, each exactly its bucket, none missing |
| Planner.RowsInOrderExample | flexible.js:466-474 | rows inserted as 3, 1, 2 come out as 1, 2, 3 |
| Flexible.ApplyContentsWrites | flexible.js:270-277 | every listed node with a non-empty value shows that value |
| Flexible.ApplyContentsKeeps | flexible.js:270-277 | every other node keeps its content |
| Flexible.Loaded | flexible.js:18-53 | at load nothing is configured, set up or applied, and the state is coherent |
| Flexible.Restored | flexible.js:492-517 | defines `switchToOriginalState`; `Flexible.RestoredShowsOriginal` states its effect |
| Flexible.Presented | flexible.js:242-288 | defines `switchToFlexibleState` when a menu exists; `Flexible.PresentedShowsFlexible` states its effect |
| Flexible.Shown | flexible.js:259-260 | defines the end of `flexible` as written: presented when a menu was created, otherwise left as planned; `Flexible.SetupOnlyOnce` states both cases |
| Flexible.Prepared | flexible.js:73-96 | defines the one-time setup, which also moves the extracted elements out of the body into their containers; `Flexible.PreparedCoherent`, `Flexible.SetupOnlyOnce` and `Flexible.SetupMovesSurvivors` state what it leaves |
| Flexible.SetupMovesSurvivors | flexible.js:142-152 | the one-time setup moves every surviving element of every item, at any depth of `childNodes`, out of the body into its container |
| Flexible.Sized | flexible.js:98-99 | defines `setWidths(setting.items)` on the engine; `Registry.SetWidthsResolvesNested` states its widths |
| Flexible.Planned | flexible.js:101-103 | defines `SortByPriorities(setting.items)` on the engine; `Planner.SortByPrioritiesBuckets` states its buckets |
| Flexible.Reflowed | flexible.js:55-112 | defines `flexible`; `Flexible.ReflowedCoherent`, `Flexible.AboveMaxRestoresOnlyIfApplied`, `Flexible.SetupOnlyOnce`, `Flexible.ReflowShowsFlexibleContent` and `Flexible.NarrowThenWideRestores` state its effect |
| Flexible.ReflowedAsIntended | flexible.js:55-112 | defines `flexible` with the menu append guarded; `Flexible.IntendedReflowPresents` states its effect |
| Flexible.ManagedBreakpoints | flexible.js:454-458 | defines `manageBreakpoints`; `Flexible.ManagedCoherent` proves the breakpoints end sorted with the maximum stored |
| Flexible.Started | flexible.js:622-634 | defines the returned function; `Flexible.RejectedSettingChangesNothing` and `Flexible.StartedCoherent` state its effect |
| Flexible.Launched | flexible.js:628-633 | defines the accepted-setting path; `Flexible.LaunchReady` proves it meets what `flexible` demands |
| Flexible.Resized | flexible.js:576-582 | defines `window.onresize`; `Flexible.ResizeBeforeSettingIsNoOp`, `Flexible.ResizeWithinBreakpointIsNoOp`, `Flexible.ResizeRebuildsPlan` and `Flexible.ResizeAboveMaxRestores` state its effect |
| Flexible.ManagedCoherent | flexible.js:629-631 | filling in defaults and managing breakpoints keeps the state coherent |
| Flexible.LaunchReady | flexible.js:629-633 | after defaults and `manageBreakpoints` the reflow's demands hold |
| Flexible.PreparedCoherent | flexible.js:73-96 | the one-time setup keeps the state coherent |
| Flexible.ReflowedCoherent | flexible.js:55-112 | `flexible` keeps the state coherent |
| Flexible.StartedCoherent | flexible.js:622-634 | the entry point keeps the state coherent |
| Flexible.ResizeReflows | flexible.js:576-582 | a resize that changes the breakpoint stores it, empties the plan and reflows |
| Flexible.ResizedCoherent | flexible.js:576-582 | a resize keeps the state coherent |
| Flexible.RestoredShowsOriginal | flexible.js:492-517 | after restoring, the flag is clear, the body is the original markup, every manipulated node with content shows its original content, and the plan and containers are kept |
| Flexible.PresentedShowsFlexible | flexible.js:242-288 | after presenting, the flag is set, the body is the plan's layout, and every manipulated node with a replacement shows it |
| Flexible.AboveMaxRestoresOnlyIfApplied | flexible.js:58-68 | above the maximum, an unapplied state is left alone and an applied one is restored |
| Flexible.SetupOnlyOnce | flexible.js:73-111 | at or below the maximum, setup runs only the first time and creates the menu when the setting has one; later reflows keep the menu, the extracted containers and the notes; afterwards the flag is set and the body is the plan's layout exactly when a menu was created; otherwise the flag is clear and the body is never replaced: it is the page's markup without the extracted elements |
| Flexible.ReflowShowsFlexibleContent | flexible.js:260-277 | after a reflow with a created menu every manipulated node shows its replacement; without one every manipulated node keeps its non-empty original content |
| Flexible.MenulessSettingNeverPresents | flexible.js:83-111 | with a setting that has no menu, a reflow leaves the flag clear and the original contents, and never replaces the body, which once set up lacks the extracted elements; below the maximum it builds the same plan as the intended reflow, which presents the page |
| Flexible.IntendedReflowPresents | flexible.js:98-111 | with the append guarded, every reflow at or below the maximum sets the flag, shows the plan's layout and every non-empty replacement |
| Flexible.IntendedAgreesWithMenu | flexible.js:259-260 | once a menu is created, or when the first setting has one, the reflow as written equals the intended one |
| Flexible.NarrowThenWideRestores | flexible.js:55-112 | when the reflow created a menu, a call above the maximum after it shows the original page again; without a menu the second call restores nothing and the extracted elements stay out of the body |
| Flexible.ResizeBeforeSettingIsNoOp | flexible.js:539-540 | a resize before any accepted setting changes nothing, since the handler throws reading `_setting.breakpoints` |
| Flexible.ResizeWithinBreakpointIsNoOp | flexible.js:576-582 | a resize that selects the same breakpoint changes nothing |
| Flexible.ResizeRebuildsPlan | flexible.js:576-582 | a resize to a new breakpoint rebuilds every bucket from scratch at that breakpoint; when the page was loaded wider than the maximum, the first such resize runs the one-time setup and places its containers |
| Flexible.ResizeAboveMaxRestores | flexible.js:576-582 | after the page was presented, a resize above the maximum clears the breakpoint and the plan and shows the original page (before that, the reflow it runs leaves the body and contents as they are, as `Flexible.AboveMaxRestoresOnlyIfApplied` states) |
| Flexible.RejectedSettingChangesNothing | flexible.js:622-627 | a setting that fails validation leaves the whole state unchanged |
| Flexible.PriorityResolves | flexible.js:169-172 | every placeable item has a priority that resolves |
| Flexible.Session.constructor | flexible.js:18-53 | the session starts in the load state |
| Flexible.Session.AddToManipulatedElementsList | flexible.js:486-490 | the list becomes the one `Remember` describes |
| Flexible.Session.ExtractItemElements | flexible.js:121-153 | the fields end as one item's extraction describes |
| Flexible.Session.ExtractElements | flexible.js:114-160 | the fields end as the recursive extraction of the item list describes |
| Flexible.Session.ExtractPass | flexible.js:118-159 | one loop iteration extends the extraction by one item and its child items |
| Flexible.Session.SetWidths | flexible.js:216-233 | the widths end as the recursive sizing at the active breakpoint describes |
| Flexible.Session.GetItemElms | flexible.js:554-574 | returns the cells and leaves the widths that the merge describes |
| Flexible.Session.AddToBucket | flexible.js:196-206 | the plan becomes the one with the cells appended to that bucket |
| Flexible.Session.WriteContents | flexible.js:270-277 | content written as the list loop describes |
| Flexible.Session.SwitchToOriginalState | flexible.js:492-517 | the state becomes the restored state |
| Flexible.Session.BuildColumns | flexible.js:248-257 | returns exactly the layout of the plan |
| Flexible.Session.SwitchToFlexibleState | flexible.js:242-288 | the state becomes the presented state when a menu was created, and is unchanged otherwise, where the append throws |
| Flexible.Session.ManageBreakpoints | flexible.js:454-458 | breakpoints sorted, maximum and active breakpoint stored |
| Flexible.Session.Flexible | flexible.js:55-112 | the state becomes the reflowed state and stays coherent |
| Flexible.Session.InitialTasks | flexible.js:73-96 | the markup is saved, the menu is created when the setting has one, items are extracted, their elements leave the body and the setup flag is set |
| Flexible.Session.SaveAndCreateMenu | flexible.js:76-86 | the markup is saved and the menu exists afterwards exactly when it did or the setting has one |
| Flexible.Session.CreateMenu | flexible.js:84-86 | the menu exists afterwards |
| Flexible.Session.Reflow | flexible.js:98-111 | sizing, planning, then presenting when a menu was created |
| Flexible.Session.OnResize | flexible.js:576-582 | the state becomes the resized state, unchanged before any accepted setting, and stays coherent |
| Flexible.Session.Start | flexible.js:622-634 | accepts exactly the valid settings; the state becomes the started state and stays coherent |
| Flexible.Session.Launch | flexible.js:628-633 | defaults, breakpoint management, then the reflow |
| Flexible.Session.SortByPriorities | flexible.js:162-214 | `guestElms`, widths and plan end as the three passes describe |
| Flexible.Session.ClearGuestElms | flexible.js:164-166 | every top-level `guestElms` emptied, nothing else |
| Flexible.Session.CollectGuests | flexible.js:168-179 | `guestElms` end as the guest pass describes |
| Flexible.Session.PlaceItems | flexible.js:183-207 | plan and widths end as the placement pass describes |
| Flexible.Session.PlaceItem | flexible.js:191-206 | one item's merged cells appended to its bucket |
| Flexible.Session.AttachGuest | flexible.js:172-177 | a guest's containers appended to every matching host |
| Alef.AlefItemTargets | alef.js:11-18 | at 840 each of the eight items resolves to its place: rows 0-4 in the header and column 1, and `#mainDiv8Main` becomes a guest of `#mainBoth-1` |
| Alef.AlefPlaces | alef.js:10-18 | the example's items are placeable at 840, with those places |
| Alef.AlefHostGuests | alef.js:14-18 | `#mainBoth-1` collects exactly `#mainDiv8Main`'s containers |
| Alef.AlefNoGuests | alef.js:15 | `#mainBoth-2` collects no guests |
| Alef.PlacedRowFour | alef.js:14-15 | only `#mainBoth-1` and then `#mainBoth-2` are aimed at column 1, row 4 |
| Alef.RowFourWithGuests | flexible.js:162-207 | for those places, row 4 of column 1 holds the host-guest wrappers followed by `#mainBoth-2`'s own containers |
| Alef.AlefRowFour | alef.js:14-18 | in the example at 840, row 4 of column 1 holds the merged wrappers of `#mainBoth-1` with `#mainDiv8Main`, then `#mainBoth-2`'s containers |

## Left out

- Menu construction, `setMenuWidth` and the click handler (flexible.js:290-365, 235-240, 584-620) are not modelled beyond one fact: whether `createMenu` has run, which decides whether `switchToFlexibleState` throws (see Findings). They only build DOM nodes and do percentage string arithmetic. A menu is otherwise only validated and given default widths, and the menu links that `createMenu` adds to the manipulated elements are not modelled.
- The viewport meta tag (flexible.js:263-266, 367-387, 504-511) is not modelled; it is pure DOM input and output.
- The flex container's class and style strings and the `_setting.columns` lookups (flexible.js:79-81, 244-246, 462-464, 550-552) are not modelled. They are CSS string lookups with no logic. The model assumes the setting supplies the looked-up entries. A valid setting whose `columns` lacks the active breakpoint throws in the code at flexible.js:246, in the call to `getFlexibleContainerCurrentWidth` (flexible.js:551), before anything is shown; the model does not capture that throw.
- Debug output (flexible.js:209-213 and the diagnostics of `valid`) is not modelled; the diagnostic of `valid` is returned as a value instead of logged.
- `innerHTML` markup is an opaque string, saved once and written back. HTML is not parsed, and `document.body` shows the saved markup, the saved markup with the extracted elements moved out (after setup, until the body is first replaced), or the flexible container as its plan layout.
- DOM reparenting is not modelled. `appendChild` moves a node, so with several hosts or guests one node ends up in only one wrapper, and a page node moved into a container leaves its old place. The model keeps the abstract wrapper list and lets `querySelectorAll` answer from the original page. In the code `querySelectorAll` no longer finds nodes already moved into detached containers, so a child or later item whose elements lie inside an earlier extracted element gets no `elms` and its `replaceContentWith` is never applied; the model gives it one container per match (`Registry.ExtractRegistersNested`).
- The `originalStyle` and `flexibleStyle` branches (flexible.js:274-276, 499-501) are not modelled, because only menu code would set those properties.
- `sortDesc` (flexible.js:482-484) is never called and is not modelled.
- The library sort is modelled as the unique ascending permutation. `parseInt` of string keys is modelled by integer keys. Priorities are natural numbers, so negative and fractional row keys are not modelled.
- The JavaScript key order of `_pageFlexiblePriorities` is modelled by its effect. `for…in` visits integer-like keys ascending, then string keys in insertion order. The header is emitted first and skipped in that visit, so the columns come out as the header, numbered columns ascending, then the "undefined" key of an unresolved column map. This is the order the model proves.
- Two exceptions are modelled as the state left at the point of the throw: the unguarded menu append (flexible.js:260, see Findings) and a resize before any accepted setting, where `getCurrentBreakpoint` reads `_setting.breakpoints` of an undefined `_setting` (flexible.js:540).
- The exceptions of `SortByPriorities` become preconditions: it throws when a priority does not resolve or a numbered item has no column (`Placeable`, `Launchable`, `ResizeDefined`).
- Guests and placement involve only top-level items, as in the code: child items are extracted and sized but never placed.
- Calling the entry point a second time does not reset `_pageFlexiblePriorities` in the code (only a resize does), so the plan accumulates in the code and in the model.
- Flexible.Started: the model names items by their position in the setting, not by object identity. The code keeps `elms` and `guestElms` on the setting's own item objects. A second accepted call with a new setting object skips extraction (it has run once), so its items have no `elms`, and `setWidths` throws at flexible.js:223 for an item with widths. The model instead reuses the containers of the first setting's items at the same positions. It is faithful when the same setting object is passed again, as the resize handler does.
- A per-breakpoint `column` map holds column numbers only. String values there (flexible.js:191) would create further string-keyed columns, which `for…in` visits in insertion order; they are not modelled.
- Config.Valid: `valid` distinguishes `{}` from a filled object by its key count. The model reports an object with none of `breakpoints`, `items`, `menu` as the missing-setting diagnostic even when it has other keys, where the code would report the missing-items diagnostic; both reject.
- Breakpoints.CurrentBreakpoint: the `return 0` branch of `getCurrentBreakpoint` is unreachable, because an empty array is truthy, so the model returns undefined when no threshold qualifies.
- Breakpoints.Resolve: the `if(inRangeBreakpoints)` test is always true, so an empty filter yields `options[undefined]`, modelled as no value.
- A 32-bit window width and floating-point widths are not modelled; widths are unbounded integers.

## Findings

| source | as written | input that shows it | evidently intended | confidence | as-written member | corrected member |
|---|---|---|---|---|---|---|
| flexible.js:259-260 | `switchToFlexibleState` appends `_pageFlexibleMenuContent` to the container unconditionally. That variable is set only by `createMenu` (flexible.js:364), which runs only when the setting has a `menu` (flexible.js:84-86). | a valid setting without `menu`, such as `{items: [{selector: "#a", priority: {1200: 1}, column: {1200: 1}, widths: {1200: "100%"}}], columns: {"1200": ["100%"], "991": ["100%"], "768": ["100%"]}}` (the breakpoints default to [1200, 991, 768], and `columns` has an entry for each of them, since the container width is read at whichever is active), on any window at or below 1200 pixels: `appendChild(undefined)` throws after sizing and planning, so the page never reaches the flexible state. The extracted elements have already left the body (flexible.js:151), so they disappear from the page, and since the flag stays false they do not come back on widening (flexible.js:62-64) | append the menu only when there is one (`if(setting.menu)`), as the comment above the call says, so a menu-less setting is presented like any other | high, not executed | Flexible.MenulessSettingNeverPresents | Flexible.IntendedReflowPresents |

`Flexible.Reflowed`, and the `Session` methods proved against it, follow the code as written. `Flexible.ReflowedAsIntended` is the corrected definition. `Flexible.IntendedAgreesWithMenu` shows the two agree whenever a menu was created.

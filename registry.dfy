/** The element registry: what `extractElements` builds once per page load (one
    inline-block container per surviving element, the `pick` filter, the list of
    elements whose content is replaced) and what `setWidths` writes onto the
    containers at each reflow. */
module Registry {
  import opened Base
  import opened Config
  import opened Breakpoints

  /** A node of the original page, as an opaque handle. */
  type DocNode = nat

  /** The position of an item: its index in `setting.items`, then indices through `childNodes`. */
  type Path = seq<nat>

  /** The container that extraction creates around the `index`-th surviving element of
      the item at `item`. Extraction runs once per page load, so the pair names one
      container for the page's lifetime. */
  datatype Box = Box(item: Path, index: nat)

  /** What the engine reads from the page: `querySelectorAll`, each node's `innerHTML`
      and the body's markup. */
  datatype Page = Page(query: string -> seq<DocNode>, html: DocNode -> string, body: string)

  /** The containers: `item.elms` and `item.guestElms` per item path, the page node
      inside each container, and each container's `style.width`. */
  datatype Containers = Containers(
    elms: map<Path, seq<Box>>,
    guestElms: map<Path, seq<Box>>,
    wraps: map<Box, DocNode>,
    width: map<Box, string>)

  /** `_manipulatedElements` and the `originalContent` / `flexibleContent` properties
      that extraction stores on page nodes. */
  datatype Notes = Notes(
    manipulated: seq<DocNode>,
    originalContent: map<DocNode, string>,
    flexibleContent: map<DocNode, string>)

  /** Everything extraction reads and writes; `content` is the `innerHTML` the engine
      has written so far (none at extraction time). */
  datatype Registry = Registry(boxes: Containers, notes: Notes, content: map<DocNode, string>)

  function ElmsAt(elms: map<Path, seq<Box>>, p: Path): seq<Box> {
    if p in elms then elms[p] else []
  }

  /** `style.width` of a container; "" when the engine never set it. */
  function WidthOf(width: map<Box, string>, b: Box): string {
    if b in width then width[b] else ""
  }

  /** `innerHTML` of a page node: what the engine last wrote, else the page's own. */
  function ContentOf(content: map<DocNode, string>, page: Page, d: DocNode): string {
    if d in content then content[d] else page.html(d)
  }

  // ----- the `pick` filter -----

  /** The indices `i` with `from <= i < n` that `pick` lists, ascending: the reference
      description of what `pick` selects. */
  function Kept(n: nat, pick: seq<int>, from: nat): (r: seq<nat>)
    ensures forall k :: 0 <= k < |r| ==> from <= r[k] < n && r[k] in pick
    ensures forall i :: from <= i < n && i in pick ==> i in r
    ensures forall a, b :: 0 <= a < b < |r| ==> r[a] < r[b]
    decreases n - from
  {
    if from >= n then []
    else
      var rest := Kept(n, pick, from + 1);
      KeptCons(n, pick, from, rest);
      (if from in pick then [from] else []) + rest
  }

  /** The step of `Kept`: `from`, when listed, goes in front of the later indices. */
  lemma KeptCons(n: nat, pick: seq<int>, from: nat, rest: seq<nat>)
    requires from < n
    requires forall k :: 0 <= k < |rest| ==> from + 1 <= rest[k] < n && rest[k] in pick
    requires forall i :: from + 1 <= i < n && i in pick ==> i in rest
    requires forall a, b :: 0 <= a < b < |rest| ==> rest[a] < rest[b]
    ensures var r := (if from in pick then [from] else []) + rest;
            && (forall k :: 0 <= k < |r| ==> from <= r[k] < n && r[k] in pick)
            && (forall i :: from <= i < n && i in pick ==> i in r)
            && (forall a, b :: 0 <= a < b < |r| ==> r[a] < r[b])
  {
    var r := (if from in pick then [from] else []) + rest;
    var d := |r| - |rest|;
    assert forall k :: d <= k < |r| ==> r[k] == rest[k - d];
    forall i | from <= i < n && i in pick ensures i in r {
      if i == from { assert r[0] == from; } else { assert i in rest; }
    }
  }

  /** `elms.filter((e, i) => pick.some(p => p === i))`, from index `from` on. */
  function FilterByIndex(matched: seq<DocNode>, pick: seq<int>, from: nat): seq<DocNode>
    requires from <= |matched|
    decreases |matched| - from
  {
    if from == |matched| then []
    else (if from in pick then [matched[from]] else []) + FilterByIndex(matched, pick, from + 1)
  }

  /** The matched nodes that survive `pick` (all of them when `pick` is absent). */
  function Picked(matched: seq<DocNode>, pick: Option<seq<int>>): seq<DocNode> {
    match pick
    case None => matched
    case Some(p) => FilterByIndex(matched, p, 0)
  }

  lemma {:induction false} FilterByIndexIsKept(matched: seq<DocNode>, pick: seq<int>, from: nat)
    requires from <= |matched|
    ensures var kept := Kept(|matched|, pick, from);
            |FilterByIndex(matched, pick, from)| == |kept| &&
            forall k :: 0 <= k < |kept| ==> FilterByIndex(matched, pick, from)[k] == matched[kept[k]]
    decreases |matched| - from
  {
    if from < |matched| {
      FilterByIndexIsKept(matched, pick, from + 1);
    }
  }

  /** `pick` keeps exactly the matched nodes whose index it lists, in document order:
      the survivors are the matched nodes at the ascending listed indices. */
  lemma PickedInDocumentOrder(matched: seq<DocNode>, pick: seq<int>)
    ensures var kept := Kept(|matched|, pick, 0);
            |Picked(matched, Some(pick))| == |kept| &&
            forall k :: 0 <= k < |kept| ==> Picked(matched, Some(pick))[k] == matched[kept[k]]
  {
    FilterByIndexIsKept(matched, pick, 0);
  }

  lemma {:induction false} FilterByIndexIgnoresPickOrder(matched: seq<DocNode>, p1: seq<int>, p2: seq<int>, from: nat)
    requires from <= |matched|
    requires forall i :: i in p1 <==> i in p2
    ensures FilterByIndex(matched, p1, from) == FilterByIndex(matched, p2, from)
    decreases |matched| - from
  {
    if from < |matched| {
      FilterByIndexIgnoresPickOrder(matched, p1, p2, from + 1);
    }
  }

  /** The order (and repetition) of the indices in `pick` does not matter. */
  lemma PickIgnoresOrder(matched: seq<DocNode>, p1: seq<int>, p2: seq<int>)
    requires forall i :: i in p1 <==> i in p2
    ensures Picked(matched, Some(p1)) == Picked(matched, Some(p2))
  {
    FilterByIndexIgnoresPickOrder(matched, p1, p2, 0);
  }

  // ----- the manipulated-elements list -----

  predicate NoDuplicates<T(==)>(s: seq<T>) {
    forall i, j :: 0 <= i < j < |s| ==> s[i] != s[j]
  }

  /** `addToManipulatedElementsList`: append unless already listed. */
  function Remember(list: seq<DocNode>, elm: DocNode): seq<DocNode> {
    if elm in list then list else list + [elm]
  }

  /** The list gains exactly `elm`, keeps its order and never holds an element twice. */
  lemma RememberAddsOnce(list: seq<DocNode>, elm: DocNode)
    ensures var r := Remember(list, elm);
            && (forall x :: x in r <==> x in list || x == elm)
            && (NoDuplicates(list) ==> NoDuplicates(r))
            && |list| <= |r| && r[..|list|] == list
  {
  }

  /** Adding an element twice is the same as adding it once. */
  lemma RememberIdempotent(list: seq<DocNode>, elm: DocNode)
    ensures Remember(Remember(list, elm), elm) == Remember(list, elm)
  {
  }

  // ----- extraction -----

  /** The containers of the item at `path` after extraction: one per survivor. */
  function Boxes(path: Path, n: nat): seq<Box> {
    seq(n, (k: int) requires 0 <= k < n => Box(path, k))
  }

  /** Extraction's treatment of one survivor of an item with `replaceContentWith`. */
  function ManipulateOne(notes: Notes, content: map<DocNode, string>, page: Page, d: DocNode, replacement: string): Notes {
    Notes(Remember(notes.manipulated, d),
          notes.originalContent[d := ContentOf(content, page, d)],
          notes.flexibleContent[d := replacement])
  }

  /** The first `n` survivors manipulated, in order. */
  function ManipulateUpTo(notes: Notes, content: map<DocNode, string>, page: Page, survivors: seq<DocNode>,
                          replacement: string, n: nat): Notes
    requires n <= |survivors|
  {
    if n == 0 then notes
    else ManipulateOne(ManipulateUpTo(notes, content, page, survivors, replacement, n - 1), content, page,
                       survivors[n - 1], replacement)
  }

  /** The first `n` survivors wrapped: `item.elms` holds their containers, each of which
      wraps its survivor and has no width yet; `item.guestElms` is emptied. */
  function WrapUpTo(c: Containers, path: Path, survivors: seq<DocNode>, n: nat): Containers
    requires n <= |survivors|
  {
    if n == 0 then c.(elms := c.elms[path := []], guestElms := c.guestElms[path := []])
    else
      var before := WrapUpTo(c, path, survivors, n - 1);
      var b := Box(path, n - 1);
      Containers(before.elms[path := ElmsAt(before.elms, path) + [b]],
                 before.guestElms,
                 before.wraps[b := survivors[n - 1]],
                 before.width[b := ""])
  }

  function Survivors(item: Item, page: Page): seq<DocNode> {
    Picked(page.query(item.selector), item.pick)
  }

  /** What `extractElements` does for one item before it descends into `childNodes`:
      its survivors are manipulated (when `replaceContentWith` is set) and wrapped. */
  function ExtractItem(r: Registry, item: Item, path: Path, page: Page): Registry {
    var survivors := Survivors(item, page);
    var notes :=
      if item.replaceContentWith != "" then
        ManipulateUpTo(r.notes, r.content, page, survivors, item.replaceContentWith, |survivors|)
      else r.notes;
    Registry(WrapUpTo(r.boxes, path, survivors, |survivors|), notes, r.content)
  }

  /** `extractElements(items)` run on the first `n` items whose paths start with
      `prefix`, each followed, depth first, by its `childNodes`. */
  function ExtractUpTo(r: Registry, items: seq<Item>, prefix: Path, page: Page, n: nat): Registry
    requires n <= |items|
    decreases items, 0, n
  {
    if n == 0 then r
    else ExtractTree(ExtractUpTo(r, items, prefix, page, n - 1), items[n - 1], prefix + [n - 1], page)
  }

  /** One pass of the loop: the item at `path`, then `extractElements(item.childNodes)`. */
  function ExtractTree(r: Registry, item: Item, path: Path, page: Page): Registry
    decreases item.childNodes, 1
  {
    ExtractUpTo(ExtractItem(r, item, path, page), item.childNodes, path, page, |item.childNodes|)
  }

  /** The whole extraction of `items`. */
  function Extract(r: Registry, items: seq<Item>, prefix: Path, page: Page): Registry {
    ExtractUpTo(r, items, prefix, page, |items|)
  }

  // ----- setWidths -----

  /** Every container in `boxes` gets the width `w`. */
  function Fill(width: map<Box, string>, boxes: seq<Box>, w: string): (r: map<Box, string>)
    ensures r.Keys == width.Keys + set b | b in boxes
    ensures forall b :: b in r ==> r[b] == if b in boxes then w else width[b]
    decreases |boxes|
  {
    if boxes == [] then width
    else
      var rest := Fill(width[boxes[0] := w], boxes[1..], w);
      assert forall b :: b in boxes <==> b == boxes[0] || b in boxes[1..];
      rest
  }

  /** `elm.style.width = width` for each container; assigning undefined is ignored by
      the style object, so an unresolved width leaves the containers as they were. */
  function ApplyWidth(width: map<Box, string>, boxes: seq<Box>, w: Option<string>): map<Box, string> {
    match w
    case Some(v) => Fill(width, boxes, v)
    case None => width
  }

  /** `setWidths` for one item before it descends into `childNodes`. */
  function SetWidthsItem(width: map<Box, string>, item: Item, path: Path, elms: map<Path, seq<Box>>,
                         bp: Option<int>): map<Box, string> {
    if item.widths.Some? then ApplyWidth(width, ElmsAt(elms, path), Resolve(item.widths.value, bp))
    else width
  }

  /** The width map after `setWidths` on the first `n` items (and, depth first, their
      child items) at breakpoint `bp`. */
  function SetWidthsUpTo(width: map<Box, string>, items: seq<Item>, prefix: Path, elms: map<Path, seq<Box>>,
                         bp: Option<int>, n: nat): map<Box, string>
    requires n <= |items|
    decreases items, 0, n
  {
    if n == 0 then width
    else SetWidthsTree(SetWidthsUpTo(width, items, prefix, elms, bp, n - 1), items[n - 1], prefix + [n - 1], elms, bp)
  }

  /** One pass of `setWidths`' loop: the item at `path`, then its `childNodes`. */
  function SetWidthsTree(width: map<Box, string>, item: Item, path: Path, elms: map<Path, seq<Box>>,
                         bp: Option<int>): map<Box, string>
    decreases item.childNodes, 1
  {
    SetWidthsUpTo(SetWidthsItem(width, item, path, elms, bp), item.childNodes, path, elms, bp, |item.childNodes|)
  }

  // ----- what extraction and setWidths establish -----

  /** Every item's `elms` are its own containers, numbered from 0. */
  predicate Structured(elms: map<Path, seq<Box>>) {
    forall p :: p in elms ==> elms[p] == Boxes(p, |elms[p]|)
  }

  lemma BoxesBelongToPath(elms: map<Path, seq<Box>>, p: Path)
    requires Structured(elms)
    ensures forall b :: b in ElmsAt(elms, p) ==> b.item == p
  {
    if p in elms {
      assert elms[p] == Boxes(p, |elms[p]|);
    }
  }

  /** Paths that a pass over the first `n` items below `prefix` does not write: all but
      the strict descendants of `prefix` through an index below `n`. */
  predicate Outside(p: Path, prefix: Path, n: nat) {
    !(|p| > |prefix| && p[..|prefix|] == prefix && p[|prefix|] < n)
  }

  lemma OutsideChild(p: Path, prefix: Path, n: nat, m: nat)
    requires n > 0
    ensures Outside(p, prefix, n) ==> Outside(p, prefix + [n - 1], m)
  {
    if |p| > |prefix| + 1 && p[..|prefix| + 1] == prefix + [n - 1] {
      assert p[..|prefix|] == p[..|prefix| + 1][..|prefix|];
      assert p[|prefix|] == p[..|prefix| + 1][|prefix|];
    }
  }

  /** Paths of two different items differ at the index where they branch. */
  lemma SiblingsDiffer(prefix: Path, i: nat, j: nat)
    requires i != j
    ensures prefix + [i] != prefix + [j]
  {
    assert (prefix + [i])[|prefix|] == i;
  }

  /** A sibling's path lies outside an item's subtree. */
  lemma OutsideSibling(prefix: Path, i: nat, j: nat, m: nat)
    requires i != j
    ensures Outside(prefix + [i], prefix + [j], m)
  {
    assert (prefix + [i])[|prefix|] == i;
  }

  lemma {:induction false} WrapUpToOwn(c: Containers, path: Path, survivors: seq<DocNode>, n: nat)
    requires n <= |survivors|
    ensures var w := WrapUpTo(c, path, survivors, n);
            && ElmsAt(w.elms, path) == Boxes(path, n)
            && ElmsAt(w.guestElms, path) == []
            && forall k :: 0 <= k < n ==> Box(path, k) in w.wraps && w.wraps[Box(path, k)] == survivors[k]
  {
    if n > 0 {
      WrapUpToOwn(c, path, survivors, n - 1);
      assert Boxes(path, n - 1) + [Box(path, n - 1)] == Boxes(path, n);
    }
  }

  lemma {:induction false} WrapUpToFrame(c: Containers, path: Path, survivors: seq<DocNode>, n: nat, p: Path)
    requires n <= |survivors|
    requires p != path
    ensures var w := WrapUpTo(c, path, survivors, n);
            && ElmsAt(w.elms, p) == ElmsAt(c.elms, p)
            && ElmsAt(w.guestElms, p) == ElmsAt(c.guestElms, p)
            && forall k :: Box(p, k) in c.wraps ==> Box(p, k) in w.wraps && w.wraps[Box(p, k)] == c.wraps[Box(p, k)]
  {
    if n > 0 {
      WrapUpToFrame(c, path, survivors, n - 1, p);
    }
  }

  /** A manipulated node remembers the content it had before the replacement. */
  predicate Faithful(notes: Notes, page: Page) {
    forall d :: d in notes.originalContent ==> notes.originalContent[d] == page.html(d)
  }

  /** Every listed node carries both an original and a flexible content. */
  predicate Recorded(notes: Notes) {
    forall d :: d in notes.manipulated ==> d in notes.originalContent && d in notes.flexibleContent
  }

  /** The invariant of the manipulated-elements bookkeeping. */
  predicate NotesValid(notes: Notes, page: Page) {
    NoDuplicates(notes.manipulated) && Faithful(notes, page) && Recorded(notes)
  }

  lemma {:induction false} ManipulateKeepsInvariants(notes: Notes, page: Page, survivors: seq<DocNode>,
                                                     replacement: string, n: nat)
    requires n <= |survivors|
    requires NotesValid(notes, page)
    ensures var m := ManipulateUpTo(notes, map[], page, survivors, replacement, n);
            NotesValid(m, page)
  {
    if n > 0 {
      var prev := ManipulateUpTo(notes, map[], page, survivors, replacement, n - 1);
      ManipulateKeepsInvariants(notes, page, survivors, replacement, n - 1);
      RememberAddsOnce(prev.manipulated, survivors[n - 1]);
    }
  }

  /** Each survivor of an item with `replaceContentWith` is listed as manipulated and
      carries the replacement as its flexible content. */
  lemma {:induction false} ManipulateRecords(notes: Notes, content: map<DocNode, string>, page: Page,
                                             survivors: seq<DocNode>, replacement: string, n: nat)
    requires n <= |survivors|
    ensures var m := ManipulateUpTo(notes, content, page, survivors, replacement, n);
            forall k :: 0 <= k < n ==> survivors[k] in m.manipulated &&
                                       survivors[k] in m.flexibleContent &&
                                       m.flexibleContent[survivors[k]] == replacement
  {
    if n > 0 {
      var prev := ManipulateUpTo(notes, content, page, survivors, replacement, n - 1);
      var d := survivors[n - 1];
      var m := ManipulateOne(prev, content, page, d, replacement);
      assert ManipulateUpTo(notes, content, page, survivors, replacement, n) == m;
      ManipulateRecords(notes, content, page, survivors, replacement, n - 1);
      forall k | 0 <= k < n
        ensures survivors[k] in m.manipulated && survivors[k] in m.flexibleContent &&
                m.flexibleContent[survivors[k]] == replacement
      {
        if survivors[k] != d {
          assert survivors[k] in prev.manipulated && survivors[k] in prev.flexibleContent;
        }
      }
    }
  }

  lemma ExtractUnfold(r: Registry, items: seq<Item>, prefix: Path, page: Page, n: nat)
    requires 0 < n <= |items|
    ensures ExtractUpTo(r, items, prefix, page, n) ==
            ExtractUpTo(ExtractItem(ExtractUpTo(r, items, prefix, page, n - 1), items[n - 1], prefix + [n - 1], page),
                        items[n - 1].childNodes, prefix + [n - 1], page, |items[n - 1].childNodes|)
  {
  }

  /** What the pass over the first `n` items keeps of a path `p`'s entries. */
  ghost predicate Keeps(x: Containers, y: Containers, p: Path) {
    && ElmsAt(x.elms, p) == ElmsAt(y.elms, p)
    && ElmsAt(x.guestElms, p) == ElmsAt(y.guestElms, p)
    && forall k :: Box(p, k) in y.wraps ==> Box(p, k) in x.wraps && x.wraps[Box(p, k)] == y.wraps[Box(p, k)]
  }

  lemma KeepsTrans(x: Containers, y: Containers, z: Containers, p: Path)
    requires Keeps(x, y, p) && Keeps(y, z, p)
    ensures Keeps(x, z, p)
  {
  }

  /** Extraction writes `elms`, `guestElms` and containers only for the items it visits. */
  lemma {:induction false} ExtractFrame(r: Registry, items: seq<Item>, prefix: Path, page: Page, n: nat, p: Path)
    requires n <= |items|
    requires Outside(p, prefix, n)
    ensures Keeps(ExtractUpTo(r, items, prefix, page, n).boxes, r.boxes, p)
    decreases items, n, 1
  {
    if n > 0 {
      ExtractFrame(r, items, prefix, page, n - 1, p);
      OutsideChild(p, prefix, n, |items[n - 1].childNodes|);
      ExtractStepFrame(r, items, prefix, page, n, p);
      KeepsTrans(ExtractUpTo(r, items, prefix, page, n).boxes, ExtractUpTo(r, items, prefix, page, n - 1).boxes, r.boxes, p);
    }
  }

  /** The `n`-th item's pass, children included, leaves the paths outside it alone. */
  lemma ExtractStepFrame(r: Registry, items: seq<Item>, prefix: Path, page: Page, n: nat, p: Path)
    requires 0 < n <= |items|
    requires p != prefix + [n - 1] && Outside(p, prefix + [n - 1], |items[n - 1].childNodes|)
    ensures Keeps(ExtractUpTo(r, items, prefix, page, n).boxes, ExtractUpTo(r, items, prefix, page, n - 1).boxes, p)
    decreases items, n, 0
  {
    var before := ExtractUpTo(r, items, prefix, page, n - 1);
    var item := items[n - 1];
    var path := prefix + [n - 1];
    var survivors := Survivors(item, page);
    var wrapped := ExtractItem(before, item, path, page);
    ExtractUnfold(r, items, prefix, page, n);
    WrapUpToFrame(before.boxes, path, survivors, |survivors|, p);
    assert Keeps(wrapped.boxes, before.boxes, p);
    ExtractFrame(wrapped, item.childNodes, path, page, |item.childNodes|, p);
    KeepsTrans(ExtractUpTo(r, items, prefix, page, n).boxes, wrapped.boxes, before.boxes, p);
  }

  /** After the `n`-th item's pass the item holds one container per survivor, wrapping
      it, and no guests. */
  lemma ExtractStepOwn(r: Registry, items: seq<Item>, prefix: Path, page: Page, n: nat)
    requires 0 < n <= |items|
    ensures var x := ExtractUpTo(r, items, prefix, page, n).boxes;
            var path := prefix + [n - 1];
            var s := Survivors(items[n - 1], page);
            && ElmsAt(x.elms, path) == Boxes(path, |s|)
            && ElmsAt(x.guestElms, path) == []
            && forall k :: 0 <= k < |s| ==> Box(path, k) in x.wraps && x.wraps[Box(path, k)] == s[k]
  {
    var before := ExtractUpTo(r, items, prefix, page, n - 1);
    var item := items[n - 1];
    var path := prefix + [n - 1];
    var survivors := Survivors(item, page);
    var wrapped := ExtractItem(before, item, path, page);
    ExtractUnfold(r, items, prefix, page, n);
    WrapUpToOwn(before.boxes, path, survivors, |survivors|);
    ExtractFrame(wrapped, item.childNodes, path, page, |item.childNodes|, path);
  }

  /** After extraction every item of the list holds one container per surviving
      element, wrapping that element, and no guests. */
  lemma {:induction false} ExtractRegistersItems(r: Registry, items: seq<Item>, prefix: Path, page: Page, n: nat, j: nat)
    requires j < n <= |items|
    ensures var x := ExtractUpTo(r, items, prefix, page, n).boxes;
            var q := prefix + [j];
            var s := Survivors(items[j], page);
            && ElmsAt(x.elms, q) == Boxes(q, |s|)
            && ElmsAt(x.guestElms, q) == []
            && forall k :: 0 <= k < |s| ==> Box(q, k) in x.wraps && x.wraps[Box(q, k)] == s[k]
    decreases n
  {
    if j < n - 1 {
      ExtractRegistersItems(r, items, prefix, page, n - 1, j);
      SiblingsDiffer(prefix, j, n - 1);
      OutsideSibling(prefix, j, n - 1, |items[n - 1].childNodes|);
      ExtractStepFrame(r, items, prefix, page, n, prefix + [j]);
    } else {
      ExtractStepOwn(r, items, prefix, page, n);
    }
  }

  /** The item that `rel` reaches from `items`: `items[rel[0]].childNodes[rel[1]]…`. */
  function ItemAt(items: seq<Item>, rel: Path): Option<Item>
    decreases rel
  {
    if |rel| == 0 || rel[0] >= |items| then None
    else if |rel| == 1 then Some(items[rel[0]])
    else ItemAt(items[rel[0]].childNodes, rel[1..])
  }

  /** The passes after the `m`-th leave the subtrees of the first `m` items alone. */
  lemma {:induction false} ExtractLaterFrame(r: Registry, items: seq<Item>, prefix: Path, page: Page, m: nat, n: nat,
                                             p: Path)
    requires m <= n <= |items|
    requires |p| > |prefix| && p[..|prefix|] == prefix && p[|prefix|] < m
    ensures Keeps(ExtractUpTo(r, items, prefix, page, n).boxes, ExtractUpTo(r, items, prefix, page, m).boxes, p)
    decreases n
  {
    if n > m {
      ExtractLaterFrame(r, items, prefix, page, m, n - 1, p);
      assert (prefix + [n - 1])[|prefix|] == n - 1;
      if |p| > |prefix| + 1 {
        assert p[..|prefix| + 1][|prefix|] == p[|prefix|];
      }
      ExtractStepFrame(r, items, prefix, page, n, p);
      KeepsTrans(ExtractUpTo(r, items, prefix, page, n).boxes, ExtractUpTo(r, items, prefix, page, n - 1).boxes,
                 ExtractUpTo(r, items, prefix, page, m).boxes, p);
    }
  }

  /** After extraction every item, at any depth of `childNodes`, holds one container
      per surviving element, wrapping that element, and no guests. */
  lemma {:induction false} ExtractRegistersNested(r: Registry, items: seq<Item>, prefix: Path, page: Page, rel: Path)
    requires ItemAt(items, rel).Some?
    ensures var x := Extract(r, items, prefix, page).boxes;
            var q := prefix + rel;
            var s := Survivors(ItemAt(items, rel).value, page);
            && ElmsAt(x.elms, q) == Boxes(q, |s|)
            && ElmsAt(x.guestElms, q) == []
            && forall k :: 0 <= k < |s| ==> Box(q, k) in x.wraps && x.wraps[Box(q, k)] == s[k]
    decreases rel
  {
    var j := rel[0];
    if |rel| == 1 {
      assert rel == [j];
      ExtractRegistersItems(r, items, prefix, page, |items|, j);
    } else {
      var item := items[j];
      var path := prefix + [j];
      var wrapped := ExtractItem(ExtractUpTo(r, items, prefix, page, j), item, path, page);
      ExtractRegistersNested(wrapped, item.childNodes, path, page, rel[1..]);
      assert path + rel[1..] == prefix + rel;
      ExtractUnfold(r, items, prefix, page, j + 1);
      assert (prefix + rel)[..|prefix|] == prefix;
      ExtractLaterFrame(r, items, prefix, page, j + 1, |items|, prefix + rel);
    }
  }

  lemma ExtractItemKeepsInvariants(r: Registry, item: Item, path: Path, page: Page)
    requires r.content == map[]
    requires Structured(r.boxes.elms) && NotesValid(r.notes, page)
    ensures var x := ExtractItem(r, item, path, page);
            Structured(x.boxes.elms) && NotesValid(x.notes, page) &&
            x.content == map[]
  {
    var survivors := Survivors(item, page);
    if item.replaceContentWith != "" {
      ManipulateKeepsInvariants(r.notes, page, survivors, item.replaceContentWith, |survivors|);
    }
    var w := WrapUpTo(r.boxes, path, survivors, |survivors|);
    WrapUpToOwn(r.boxes, path, survivors, |survivors|);
    forall p | p in w.elms ensures w.elms[p] == Boxes(p, |w.elms[p]|) {
      if p != path {
        WrapUpToFrame(r.boxes, path, survivors, |survivors|, p);
        assert ElmsAt(w.elms, p) == ElmsAt(r.boxes.elms, p);
      }
    }
  }

  /** Extraction keeps the registry's invariants: containers numbered per item, the
      manipulated list without repetitions, and remembered contents equal to the
      page's own (the engine has not written any content yet). */
  lemma {:induction false} ExtractKeepsInvariants(r: Registry, items: seq<Item>, prefix: Path, page: Page, n: nat)
    requires n <= |items|
    requires r.content == map[]
    requires Structured(r.boxes.elms) && NotesValid(r.notes, page)
    ensures var x := ExtractUpTo(r, items, prefix, page, n);
            Structured(x.boxes.elms) && NotesValid(x.notes, page) &&
            x.content == map[]
    decreases items, n
  {
    if n > 0 {
      var before := ExtractUpTo(r, items, prefix, page, n - 1);
      ExtractKeepsInvariants(r, items, prefix, page, n - 1);
      var item := items[n - 1];
      var path := prefix + [n - 1];
      ExtractItemKeepsInvariants(before, item, path, page);
      ExtractKeepsInvariants(ExtractItem(before, item, path, page), item.childNodes, path, page, |item.childNodes|);
    }
  }

  /** setWidths writes only the containers of the items it visits. */
  lemma {:induction false} SetWidthsFrame(width: map<Box, string>, items: seq<Item>, prefix: Path,
                                          elms: map<Path, seq<Box>>, bp: Option<int>, n: nat, b: Box)
    requires n <= |items|
    requires Structured(elms)
    requires Outside(b.item, prefix, n)
    ensures WidthOf(SetWidthsUpTo(width, items, prefix, elms, bp, n), b) == WidthOf(width, b)
    decreases items, n
  {
    if n > 0 {
      var before := SetWidthsUpTo(width, items, prefix, elms, bp, n - 1);
      var item := items[n - 1];
      var path := prefix + [n - 1];
      SetWidthsFrame(width, items, prefix, elms, bp, n - 1, b);
      BoxesBelongToPath(elms, path);
      assert b.item != path;
      assert WidthOf(SetWidthsItem(before, item, path, elms, bp), b) == WidthOf(before, b);
      OutsideChild(b.item, prefix, n, |item.childNodes|);
      SetWidthsFrame(SetWidthsItem(before, item, path, elms, bp), item.childNodes, path, elms, bp, |item.childNodes|, b);
    }
  }

  /** setWidths gives each container of a visited item the width its `widths` map
      resolves to at the active breakpoint, and leaves the container's width as it was
      when no key qualifies. */
  lemma {:induction false} SetWidthsResolves(width: map<Box, string>, items: seq<Item>, prefix: Path,
                                             elms: map<Path, seq<Box>>, bp: Option<int>, n: nat, j: nat, b: Box)
    requires j < n <= |items|
    requires Structured(elms)
    requires b in ElmsAt(elms, prefix + [j])
    requires items[j].widths.Some?
    ensures var w := SetWidthsUpTo(width, items, prefix, elms, bp, n);
            match Resolve(items[j].widths.value, bp)
            case Some(v) => WidthOf(w, b) == v
            case None => WidthOf(w, b) == WidthOf(width, b)
    decreases items, n
  {
    var before := SetWidthsUpTo(width, items, prefix, elms, bp, n - 1);
    var item := items[n - 1];
    var path := prefix + [n - 1];
    var own := SetWidthsItem(before, item, path, elms, bp);
    BoxesBelongToPath(elms, prefix + [j]);
    assert Outside(b.item, path, |item.childNodes|);
    SetWidthsFrame(own, item.childNodes, path, elms, bp, |item.childNodes|, b);
    if j < n - 1 {
      SetWidthsResolves(width, items, prefix, elms, bp, n - 1, j, b);
      BoxesBelongToPath(elms, path);
      SiblingsDiffer(prefix, j, n - 1);
      assert WidthOf(own, b) == WidthOf(before, b);
    } else {
      assert Outside(b.item, prefix, n - 1);
      SetWidthsFrame(width, items, prefix, elms, bp, n - 1, b);
    }
  }

  /** The passes after the `m`-th leave the containers of the first `m` items'
      subtrees alone. */
  lemma {:induction false} SetWidthsLaterFrame(width: map<Box, string>, items: seq<Item>, prefix: Path,
                                               elms: map<Path, seq<Box>>, bp: Option<int>, m: nat, n: nat, b: Box)
    requires m <= n <= |items|
    requires Structured(elms)
    requires |b.item| > |prefix| && b.item[..|prefix|] == prefix && b.item[|prefix|] < m
    ensures WidthOf(SetWidthsUpTo(width, items, prefix, elms, bp, n), b) ==
            WidthOf(SetWidthsUpTo(width, items, prefix, elms, bp, m), b)
    decreases n
  {
    if n > m {
      SetWidthsLaterFrame(width, items, prefix, elms, bp, m, n - 1, b);
      var before := SetWidthsUpTo(width, items, prefix, elms, bp, n - 1);
      var item := items[n - 1];
      var path := prefix + [n - 1];
      BoxesBelongToPath(elms, path);
      assert path[|prefix|] == n - 1;
      assert b.item != path;
      assert WidthOf(SetWidthsItem(before, item, path, elms, bp), b) == WidthOf(before, b);
      if |b.item| > |path| {
        assert b.item[..|path|][|prefix|] == b.item[|prefix|];
      }
      assert Outside(b.item, path, |item.childNodes|);
      SetWidthsFrame(SetWidthsItem(before, item, path, elms, bp), item.childNodes, path, elms, bp, |item.childNodes|, b);
    }
  }

  /** setWidths gives each container of every item, at any depth of `childNodes`,
      the width its `widths` map resolves to at the active breakpoint, and leaves the
      container's width as it was when no key qualifies. */
  lemma {:induction false} SetWidthsResolvesNested(width: map<Box, string>, items: seq<Item>, prefix: Path,
                                                   elms: map<Path, seq<Box>>, bp: Option<int>, rel: Path, b: Box)
    requires Structured(elms)
    requires ItemAt(items, rel).Some? && ItemAt(items, rel).value.widths.Some?
    requires b in ElmsAt(elms, prefix + rel)
    ensures var w := SetWidthsUpTo(width, items, prefix, elms, bp, |items|);
            match Resolve(ItemAt(items, rel).value.widths.value, bp)
            case Some(v) => WidthOf(w, b) == v
            case None => WidthOf(w, b) == WidthOf(width, b)
    decreases rel
  {
    var j := rel[0];
    if |rel| == 1 {
      assert rel == [j];
      SetWidthsResolves(width, items, prefix, elms, bp, |items|, j, b);
    } else {
      var item := items[j];
      var path := prefix + [j];
      BoxesBelongToPath(elms, prefix + rel);
      assert b.item == prefix + rel;
      assert b.item[|prefix|] == j && b.item[..|prefix|] == prefix;
      var before := SetWidthsUpTo(width, items, prefix, elms, bp, j);
      SetWidthsFrame(width, items, prefix, elms, bp, j, b);
      BoxesBelongToPath(elms, path);
      assert b.item != path;
      var own := SetWidthsItem(before, item, path, elms, bp);
      assert WidthOf(own, b) == WidthOf(before, b);
      assert path + rel[1..] == prefix + rel;
      SetWidthsResolvesNested(own, item.childNodes, path, elms, bp, rel[1..], b);
      SetWidthsLaterFrame(width, items, prefix, elms, bp, j + 1, |items|, b);
    }
  }
}

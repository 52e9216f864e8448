/** `SortByPriorities` and `getItemElms`: the guest pass that hands the containers of
    items whose priority names another item to that host, the merge of a host's
    containers with its guests, the placement of every numbered item into the
    column → row → cells plan, and the order in which `switchToFlexibleState` and
    `addToPage` lay the plan out. Only the top-level items take part: the item at
    index `j` of `setting.items` owns the containers at path `[j]`. */
module Planner {
  import opened Base
  import opened Config
  import opened Breakpoints
  import opened Registry

  /** A key of `_pageFlexiblePriorities`: the literal "header", a column number, or the
      key "undefined" that an unresolved column map produces. */
  datatype ColumnKey = Header | Column(index: nat) | Unresolved

  /** What a bucket holds: an item's own container, or the wrapper `getItemElms`
      builds around a host container and a guest container, with the width it gave
      the wrapper. */
  datatype Cell = Own(box: Box) | Merged(width: string, host: Box, guest: Box)

  /** One column of the plan: row number → cells. */
  type Rows = map<int, seq<Cell>>

  /** `_pageFlexiblePriorities`. */
  type Plan = map<ColumnKey, Rows>

  // ----- priorities -----

  /** `priority.substring(1)`: the reference without its marker character. */
  function HostSelector(reference: string): string {
    if reference == [] then [] else reference[1..]
  }

  /** The item's priority at the active breakpoint. */
  function PriorityAt(item: Item, bp: Option<int>): Option<Priority> {
    match item.priority
    case None => None
    case Some(m) => Resolve(m, bp)
  }

  /** `item.column === "header" ? "header" : getValueForCurrentBreakpoint(item.column)`. */
  function ColumnOf(column: ColumnSpec, bp: Option<int>): ColumnKey {
    match column
    case HeaderLiteral => Header
    case PerBreakpoint(columns) =>
      match Resolve(columns, bp)
      case Some(c) => Column(c)
      case None => Unresolved
  }

  /** Where an item goes at the active breakpoint: into the guest list of the items
      with selector `host`, or into row `row` of column `column`. */
  datatype Target = Guest(host: string) | Slot(column: ColumnKey, row: nat)

  /** None when `SortByPriorities` would throw on the item: its priority does not
      resolve (the guest pass calls `substring` on it), or it is numbered and has no
      `column` to look up. */
  function TargetOf(item: Item, bp: Option<int>): Option<Target> {
    match PriorityAt(item, bp)
    case None => None
    case Some(Host(reference)) => Some(Guest(HostSelector(reference)))
    case Some(Row(r)) => if item.column.None? then None else Some(Slot(ColumnOf(item.column.value, bp), r))
  }

  /** What `SortByPriorities` demands of the top-level items. */
  predicate Placeable(items: seq<Item>, bp: Option<int>) {
    forall i :: 0 <= i < |items| ==> HasTarget(items, bp, i)
  }

  predicate HasTarget(items: seq<Item>, bp: Option<int>, i: nat)
    requires i < |items|
  {
    TargetOf(items[i], bp).Some?
  }

  /** Every item's target, in item order. */
  function Targets(items: seq<Item>, bp: Option<int>): (t: seq<Target>)
    requires Placeable(items, bp)
    ensures |t| == |items|
  {
    seq(|items|, (i: int) requires 0 <= i < |items| => assert HasTarget(items, bp, i); TargetOf(items[i], bp).value)
  }

  // Proof helper: unfolds `Targets` at one index.
  /** Each item's target is where `SortByPriorities` sends it. */
  lemma TargetsAt(items: seq<Item>, bp: Option<int>, i: nat)
    requires Placeable(items, bp) && i < |items|
    ensures Some(Targets(items, bp)[i]) == TargetOf(items[i], bp)
  {
    assert HasTarget(items, bp, i);
  }

  /** Item `i` is a guest of item `h`: its priority is a reference to `h`'s selector. */
  predicate GuestOf(items: seq<Item>, targets: seq<Target>, i: nat, h: nat)
    requires i < |targets| && h < |items|
  {
    targets[i].Guest? && targets[i].host == items[h].selector
  }

  /** A top-level item's path. */
  function Top(j: nat): Path {
    [j]
  }

  // ----- the guest pass -----

  /** `item.guestElms = []` for the first `n` items. */
  function ClearUpTo(guest: map<Path, seq<Box>>, n: nat): map<Path, seq<Box>> {
    if n == 0 then guest else ClearUpTo(guest, n - 1)[Top(n - 1) := []]
  }

  /** One guest's containers pushed onto the `guestElms` of each of the first `n` items
      whose selector is `sel`. */
  function AttachUpTo(guest: map<Path, seq<Box>>, items: seq<Item>, sel: string, boxes: seq<Box>, n: nat)
    : map<Path, seq<Box>>
    requires n <= |items|
  {
    if n == 0 then guest
    else
      var before := AttachUpTo(guest, items, sel, boxes, n - 1);
      if items[n - 1].selector == sel then before[Top(n - 1) := ElmsAt(before, Top(n - 1)) + boxes]
      else before
  }

  /** The second loop of `SortByPriorities` over the first `n` items. */
  function GuestsUpTo(guest: map<Path, seq<Box>>, items: seq<Item>, targets: seq<Target>,
                      elms: map<Path, seq<Box>>, n: nat): map<Path, seq<Box>>
    requires n <= |targets| == |items|
  {
    if n == 0 then guest
    else
      var before := GuestsUpTo(guest, items, targets, elms, n - 1);
      match targets[n - 1]
      case Slot(_, _) => before
      case Guest(host) => AttachUpTo(before, items, host, ElmsAt(elms, Top(n - 1)), |items|)
  }

  /** The first two loops of `SortByPriorities`: clear, then attach every guest. */
  function GuestPass(guest: map<Path, seq<Box>>, items: seq<Item>, targets: seq<Target>,
                     elms: map<Path, seq<Box>>): map<Path, seq<Box>>
    requires |targets| == |items|
  {
    GuestsUpTo(ClearUpTo(guest, |items|), items, targets, elms, |items|)
  }

  /** Reference description: the guests of item `h` are the containers of the items
      among the first `n` that name it, in item order. */
  function GuestsOf(items: seq<Item>, targets: seq<Target>, elms: map<Path, seq<Box>>, h: nat, n: nat): seq<Box>
    requires h < |items| && n <= |targets| == |items|
  {
    if n == 0 then []
    else GuestsOf(items, targets, elms, h, n - 1) + (if GuestOf(items, targets, n - 1, h) then ElmsAt(elms, Top(n - 1)) else [])
  }

  /** A path of a top-level item among the first `n`. */
  predicate TopBelow(p: Path, n: nat) {
    |p| == 1 && p[0] < n
  }

  lemma {:induction false} ClearUpToAt(guest: map<Path, seq<Box>>, n: nat, p: Path)
    ensures ElmsAt(ClearUpTo(guest, n), p) == if TopBelow(p, n) then [] else ElmsAt(guest, p)
  {
    if n > 0 {
      ClearUpToAt(guest, n - 1, p);
      if p == Top(n - 1) {
        assert TopBelow(p, n);
      } else if TopBelow(p, n) {
        assert p[0] != n - 1;
      }
    }
  }

  lemma {:induction false} AttachUpToAt(guest: map<Path, seq<Box>>, items: seq<Item>, sel: string, boxes: seq<Box>,
                                        n: nat, p: Path)
    requires n <= |items|
    ensures ElmsAt(AttachUpTo(guest, items, sel, boxes, n), p) ==
            ElmsAt(guest, p) + if TopBelow(p, n) && items[p[0]].selector == sel then boxes else []
  {
    if n > 0 {
      AttachUpToAt(guest, items, sel, boxes, n - 1, p);
      if p == Top(n - 1) {
        assert TopBelow(p, n) && !TopBelow(p, n - 1);
      } else if TopBelow(p, n) {
        assert p[0] != n - 1;
      }
    }
  }

  /** What the `n`-th item adds to the guest list of item `h`. */
  lemma GuestsStepTop(guest: map<Path, seq<Box>>, items: seq<Item>, targets: seq<Target>,
                      elms: map<Path, seq<Box>>, n: nat, h: nat)
    requires 0 < n <= |targets| == |items| && h < |items|
    ensures ElmsAt(GuestsUpTo(guest, items, targets, elms, n), Top(h)) ==
            ElmsAt(GuestsUpTo(guest, items, targets, elms, n - 1), Top(h)) +
            if GuestOf(items, targets, n - 1, h) then ElmsAt(elms, Top(n - 1)) else []
  {
    var before := GuestsUpTo(guest, items, targets, elms, n - 1);
    match targets[n - 1]
    case Slot(_, _) =>
    case Guest(host) =>
      AttachUpToAt(before, items, host, ElmsAt(elms, Top(n - 1)), |items|, Top(h));
  }

  lemma {:induction false} GuestsUpToTop(guest: map<Path, seq<Box>>, items: seq<Item>, targets: seq<Target>,
                                         elms: map<Path, seq<Box>>, n: nat, h: nat)
    requires n <= |targets| == |items| && h < |items|
    ensures ElmsAt(GuestsUpTo(guest, items, targets, elms, n), Top(h)) ==
            ElmsAt(guest, Top(h)) + GuestsOf(items, targets, elms, h, n)
  {
    if n > 0 {
      GuestsUpToTop(guest, items, targets, elms, n - 1, h);
      GuestsStepTop(guest, items, targets, elms, n, h);
      var added := if GuestOf(items, targets, n - 1, h) then ElmsAt(elms, Top(n - 1)) else [];
      assert ElmsAt(guest, Top(h)) + GuestsOf(items, targets, elms, h, n - 1) + added ==
             ElmsAt(guest, Top(h)) + (GuestsOf(items, targets, elms, h, n - 1) + added);
    }
  }

  /** The guest pass writes no path but those of the top-level items. */
  lemma {:induction false} GuestsUpToFrame(guest: map<Path, seq<Box>>, items: seq<Item>, targets: seq<Target>,
                                           elms: map<Path, seq<Box>>, n: nat, p: Path)
    requires n <= |targets| == |items| && !TopBelow(p, |items|)
    ensures ElmsAt(GuestsUpTo(guest, items, targets, elms, n), p) == ElmsAt(guest, p)
  {
    if n > 0 {
      GuestsUpToFrame(guest, items, targets, elms, n - 1, p);
      var before := GuestsUpTo(guest, items, targets, elms, n - 1);
      match targets[n - 1]
      case Slot(_, _) =>
      case Guest(host) =>
        AttachUpToAt(before, items, host, ElmsAt(elms, Top(n - 1)), |items|, p);
    }
  }

  /** After the guest pass each top-level item's `guestElms` holds exactly the
      containers of the items whose priority names it, in item order (so an item that
      names no existing selector is dropped); other paths are untouched. */
  lemma GuestPassCollects(guest: map<Path, seq<Box>>, items: seq<Item>, targets: seq<Target>,
                          elms: map<Path, seq<Box>>, p: Path)
    requires |targets| == |items|
    ensures ElmsAt(GuestPass(guest, items, targets, elms), p) ==
            if TopBelow(p, |items|) then GuestsOf(items, targets, elms, p[0], |items|) else ElmsAt(guest, p)
  {
    var cleared := ClearUpTo(guest, |items|);
    ClearUpToAt(guest, |items|, p);
    if TopBelow(p, |items|) {
      assert p == Top(p[0]);
      GuestsUpToTop(cleared, items, targets, elms, |items|, p[0]);
    } else {
      GuestsUpToFrame(cleared, items, targets, elms, |items|, p);
    }
  }

  /** An item whose reference matches no selector lends its containers to nobody: no
      item's guest list depends on them. */
  lemma {:induction false} UnmatchedGuestDropped(items: seq<Item>, targets: seq<Target>, elms: map<Path, seq<Box>>,
                                                 i: nat, h: nat, n: nat)
    requires i < |items| && h < |items| && n <= |targets| == |items|
    requires forall k :: 0 <= k < |items| ==> !GuestOf(items, targets, i, k)
    ensures GuestsOf(items, targets, elms, h, n) == GuestsOf(items, targets, elms[Top(i) := []], h, n)
  {
    if n > 0 {
      UnmatchedGuestDropped(items, targets, elms, i, h, n - 1);
      if n - 1 != i {
        assert Top(n - 1) != Top(i);
      }
    }
  }

  // ----- getItemElms -----

  /** The cells `getItemElms` returns, and the container widths it leaves behind. */
  datatype Merge = Merge(cells: seq<Cell>, width: map<Box, string>)

  function OwnCells(boxes: seq<Box>): seq<Cell> {
    seq(|boxes|, (k: int) requires 0 <= k < |boxes| => Own(boxes[k]))
  }

  /** The inner loop for guest `g` over the first `n` host containers: each wrapper
      takes the host's width as it is at that moment, then host and guest are set
      to "100%". */
  function WrapHosts(m: Merge, hosts: seq<Box>, g: Box, n: nat): Merge
    requires n <= |hosts|
  {
    if n == 0 then m
    else
      var before := WrapHosts(m, hosts, g, n - 1);
      var h := hosts[n - 1];
      Merge(before.cells + [Merged(WidthOf(before.width, h), h, g)], before.width[h := "100%"][g := "100%"])
  }

  /** The outer loop over the first `n` guests. */
  function WrapGuests(m: Merge, hosts: seq<Box>, guests: seq<Box>, n: nat): Merge
    requires n <= |guests|
  {
    if n == 0 then m else WrapHosts(WrapGuests(m, hosts, guests, n - 1), hosts, guests[n - 1], |hosts|)
  }

  /** `getItemElms(item)`: the item's own containers when it has no guests, otherwise
      one wrapper per (guest, host) pair, guest by guest. */
  function ItemElms(width: map<Box, string>, hosts: seq<Box>, guests: seq<Box>): Merge {
    if guests == [] then Merge(OwnCells(hosts), width)
    else WrapGuests(Merge([], width), hosts, guests, |guests|)
  }

  lemma {:induction false} WrapHostsCells(m: Merge, hosts: seq<Box>, g: Box, n: nat)
    requires n <= |hosts|
    ensures var r := WrapHosts(m, hosts, g, n);
            |r.cells| == |m.cells| + n && r.cells[..|m.cells|] == m.cells
  {
    if n > 0 {
      WrapHostsCells(m, hosts, g, n - 1);
      var before := WrapHosts(m, hosts, g, n - 1);
      var r := WrapHosts(m, hosts, g, n);
      assert r.cells[..|m.cells|] == r.cells[..|before.cells|][..|m.cells|];
    }
  }

  /** The `k`-th wrapper of the inner loop holds host `k` and the guest, and takes the
      host's width as the loop found it. */
  lemma WrapHostsCell(m: Merge, hosts: seq<Box>, g: Box, n: nat, k: nat)
    requires k < n <= |hosts|
    ensures var r := WrapHosts(m, hosts, g, n);
            |m.cells| + k < |r.cells| &&
            r.cells[|m.cells| + k] == Merged(WidthOf(WrapHosts(m, hosts, g, k).width, hosts[k]), hosts[k], g)
  {
    var next := WrapHosts(m, hosts, g, k + 1);
    WrapHostsCells(m, hosts, g, k);
    assert next.cells[|m.cells| + k] == Merged(WidthOf(WrapHosts(m, hosts, g, k).width, hosts[k]), hosts[k], g);
    WrapHostsPrefix(m, hosts, g, k + 1, n);
    var r := WrapHosts(m, hosts, g, n);
    assert r.cells[|m.cells| + k] == r.cells[..|next.cells|][|m.cells| + k];
  }

  /** Later hosts only append. */
  lemma {:induction false} WrapHostsPrefix(m: Merge, hosts: seq<Box>, g: Box, a: nat, n: nat)
    requires a <= n <= |hosts|
    ensures var r := WrapHosts(m, hosts, g, n);
            var at := WrapHosts(m, hosts, g, a);
            |at.cells| <= |r.cells| && r.cells[..|at.cells|] == at.cells
    decreases n - a
  {
    if a < n {
      WrapHostsPrefix(m, hosts, g, a, n - 1);
      var before := WrapHosts(m, hosts, g, n - 1);
      var at := WrapHosts(m, hosts, g, a);
      var r := WrapHosts(m, hosts, g, n);
      assert r.cells[..|at.cells|] == r.cells[..|before.cells|][..|at.cells|];
    }
  }

  /** The inner loop sets its hosts and (once it has run) its guest to "100%" and
      touches no other container. */
  lemma {:induction false} WrapHostsWidth(m: Merge, hosts: seq<Box>, g: Box, n: nat, b: Box)
    requires n <= |hosts|
    ensures b in hosts[..n] || (n > 0 && b == g) ==> WidthOf(WrapHosts(m, hosts, g, n).width, b) == "100%"
    ensures !(b in hosts[..n] || (n > 0 && b == g)) ==> WidthOf(WrapHosts(m, hosts, g, n).width, b) == WidthOf(m.width, b)
  {
    if n > 0 {
      WrapHostsWidth(m, hosts, g, n - 1, b);
      assert hosts[..n] == hosts[..n - 1] + [hosts[n - 1]];
    }
  }

  lemma {:induction false} WrapGuestsCells(m: Merge, hosts: seq<Box>, guests: seq<Box>, n: nat)
    requires n <= |guests|
    ensures var r := WrapGuests(m, hosts, guests, n);
            |r.cells| == |m.cells| + n * |hosts| && r.cells[..|m.cells|] == m.cells
  {
    if n > 0 {
      WrapGuestsCells(m, hosts, guests, n - 1);
      var before := WrapGuests(m, hosts, guests, n - 1);
      WrapHostsCells(before, hosts, guests[n - 1], |hosts|);
      assert (n - 1) * |hosts| + |hosts| == n * |hosts|;
      var r := WrapGuests(m, hosts, guests, n);
      assert r.cells[..|m.cells|] == r.cells[..|before.cells|][..|m.cells|];
    }
  }

  /** The wrapper of guest `gi` around host `hk` sits at `gi * |hosts| + hk`. */
  lemma {:induction false} WrapGuestsCell(m: Merge, hosts: seq<Box>, guests: seq<Box>, n: nat, gi: nat, hk: nat)
    requires gi < n <= |guests| && hk < |hosts|
    ensures var r := WrapGuests(m, hosts, guests, n);
            var at := WrapGuests(m, hosts, guests, gi);
            && |m.cells| + gi * |hosts| + hk < |r.cells|
            && r.cells[|m.cells| + gi * |hosts| + hk] ==
               Merged(WidthOf(WrapHosts(at, hosts, guests[gi], hk).width, hosts[hk]), hosts[hk], guests[gi])
  {
    var at := WrapGuests(m, hosts, guests, gi);
    var next := WrapGuests(m, hosts, guests, gi + 1);
    WrapGuestsCells(m, hosts, guests, gi);
    WrapHostsCell(at, hosts, guests[gi], |hosts|, hk);
    var i := |m.cells| + gi * |hosts| + hk;
    assert next.cells[i] ==
           Merged(WidthOf(WrapHosts(at, hosts, guests[gi], hk).width, hosts[hk]), hosts[hk], guests[gi]);
    WrapGuestsPrefix(m, hosts, guests, gi + 1, n);
    var r := WrapGuests(m, hosts, guests, n);
    assert r.cells[..|next.cells|] == next.cells;
    assert r.cells[i] == r.cells[..|next.cells|][i];
  }

  /** Later guests only append. */
  lemma {:induction false} WrapGuestsPrefix(m: Merge, hosts: seq<Box>, guests: seq<Box>, a: nat, n: nat)
    requires a <= n <= |guests|
    ensures var r := WrapGuests(m, hosts, guests, n);
            var at := WrapGuests(m, hosts, guests, a);
            |at.cells| <= |r.cells| && r.cells[..|at.cells|] == at.cells
    decreases n - a
  {
    if a < n {
      WrapGuestsPrefix(m, hosts, guests, a, n - 1);
      var before := WrapGuests(m, hosts, guests, n - 1);
      var at := WrapGuests(m, hosts, guests, a);
      WrapHostsCells(before, hosts, guests[n - 1], |hosts|);
      var r := WrapGuests(m, hosts, guests, n);
      assert r.cells[..|at.cells|] == r.cells[..|before.cells|][..|at.cells|];
    }
  }

  /** After the first `n` guests (with at least one host) every host and every one of
      those guests reads "100%"; no other container changes. */
  lemma {:induction false} WrapGuestsWidth(m: Merge, hosts: seq<Box>, guests: seq<Box>, n: nat, b: Box)
    requires n <= |guests|
    ensures hosts != [] && n > 0 && (b in hosts || b in guests[..n]) ==>
              WidthOf(WrapGuests(m, hosts, guests, n).width, b) == "100%"
    ensures (hosts == [] || (b !in hosts && b !in guests[..n])) ==>
              WidthOf(WrapGuests(m, hosts, guests, n).width, b) == WidthOf(m.width, b)
  {
    if n > 0 {
      WrapGuestsWidth(m, hosts, guests, n - 1, b);
      WrapHostsWidth(WrapGuests(m, hosts, guests, n - 1), hosts, guests[n - 1], |hosts|, b);
      assert hosts[..|hosts|] == hosts;
      assert guests[..n] == guests[..n - 1] + [guests[n - 1]];
    }
  }

  /** An item without guests contributes exactly its own containers, in order, and
      changes no width. */
  lemma ItemElmsWithoutGuests(width: map<Box, string>, hosts: seq<Box>)
    ensures var r := ItemElms(width, hosts, []);
            |r.cells| == |hosts| && (forall k :: 0 <= k < |hosts| ==> r.cells[k] == Own(hosts[k])) && r.width == width
  {
  }

  /** With M guests and N own containers the result is the M×N wrappers, guest-major:
      position `gi * N + hk` wraps host `hk` followed by guest `gi`. */
  lemma ItemElmsCrossProduct(width: map<Box, string>, hosts: seq<Box>, guests: seq<Box>, gi: nat, hk: nat)
    requires gi < |guests| && hk < |hosts|
    ensures var r := ItemElms(width, hosts, guests);
            && |r.cells| == |guests| * |hosts|
            && gi * |hosts| + hk < |r.cells|
            && r.cells[gi * |hosts| + hk].Merged?
            && r.cells[gi * |hosts| + hk].host == hosts[hk]
            && r.cells[gi * |hosts| + hk].guest == guests[gi]
  {
    WrapGuestsCells(Merge([], width), hosts, guests, |guests|);
    WrapGuestsCell(Merge([], width), hosts, guests, |guests|, gi, hk);
  }

  /** A wrapper takes the host's width at the moment it is built: the first guest's
      wrappers get each host's previous width, every later one "100%" (the host and
      guest containers being distinct). */
  lemma ItemElmsWrapperWidth(width: map<Box, string>, hosts: seq<Box>, guests: seq<Box>, gi: nat, hk: nat)
    requires gi < |guests| && hk < |hosts|
    requires NoDuplicates(hosts)
    requires forall g :: g in guests ==> g !in hosts
    ensures var r := ItemElms(width, hosts, guests);
            gi * |hosts| + hk < |r.cells| && r.cells[gi * |hosts| + hk].Merged? &&
            r.cells[gi * |hosts| + hk].width == if gi == 0 then WidthOf(width, hosts[hk]) else "100%"
  {
    var m := Merge([], width);
    var at := WrapGuests(m, hosts, guests, gi);
    WrapGuestsCell(m, hosts, guests, |guests|, gi, hk);
    var h := hosts[hk];
    LaterNotInPrefix(hosts, hk);
    assert guests[gi] in guests;
    WrapHostsWidth(at, hosts, guests[gi], hk, h);
    WrapGuestsWidth(m, hosts, guests, gi, h);
  }

  lemma LaterNotInPrefix(s: seq<Box>, k: nat)
    requires k < |s| && NoDuplicates(s)
    ensures s[k] !in s[..k]
  {
    forall i | 0 <= i < k ensures s[..k][i] != s[k] {
      assert s[..k][i] == s[i];
    }
  }

  /** Afterwards every host and guest container involved reads "100%" (when there is
      at least one host and one guest), and no other container changes. */
  lemma ItemElmsWidths(width: map<Box, string>, hosts: seq<Box>, guests: seq<Box>, b: Box)
    ensures hosts != [] && guests != [] && (b in hosts || b in guests) ==>
              WidthOf(ItemElms(width, hosts, guests).width, b) == "100%"
    ensures (hosts == [] || guests == [] || (b !in hosts && b !in guests)) ==>
              WidthOf(ItemElms(width, hosts, guests).width, b) == WidthOf(width, b)
  {
    if guests != [] {
      WrapGuestsWidth(Merge([], width), hosts, guests, |guests|, b);
      assert guests[..|guests|] == guests;
    }
  }

  // ----- the placement pass -----

  function BucketAt(plan: Plan, col: ColumnKey, row: int): seq<Cell> {
    if col in plan && row in plan[col] then plan[col][row] else []
  }

  /** `_pageFlexiblePriorities[column][priority]` is created when missing (even when
      nothing is pushed into it) and the cells are pushed at its end. */
  function Append(plan: Plan, col: ColumnKey, row: int, cells: seq<Cell>): Plan {
    var rows := if col in plan then plan[col] else map[];
    plan[col := rows[row := BucketAt(plan, col, row) + cells]]
  }

  /** The plan being built and the container widths `getItemElms` changes. */
  datatype Placement = Placement(plan: Plan, width: map<Box, string>)

  /** The third loop of `SortByPriorities` over the first `n` items: items that are
      guests add nothing, every other item pushes `getItemElms(item)` into its slot. */
  function PlaceUpTo(st: Placement, targets: seq<Target>, elms: map<Path, seq<Box>>, guest: map<Path, seq<Box>>,
                     n: nat): Placement
    requires n <= |targets|
  {
    if n == 0 then st
    else
      var before := PlaceUpTo(st, targets, elms, guest, n - 1);
      match targets[n - 1]
      case Guest(_) => before
      case Slot(col, row) =>
        var m := ItemElms(before.width, ElmsAt(elms, Top(n - 1)), ElmsAt(guest, Top(n - 1)));
        Placement(Append(before.plan, col, row, m.cells), m.width)
  }

  /** What `SortByPriorities` leaves behind. */
  datatype Sorted = Sorted(guestElms: map<Path, seq<Box>>, plan: Plan, width: map<Box, string>)

  /** `SortByPriorities(setting.items)` on the containers `c` and the plan `plan`. */
  function SortByPriorities(c: Containers, plan: Plan, items: seq<Item>, targets: seq<Target>): Sorted
    requires |targets| == |items|
  {
    var guest := GuestPass(c.guestElms, items, targets, c.elms);
    var st := PlaceUpTo(Placement(plan, c.width), targets, c.elms, guest, |targets|);
    Sorted(guest, st.plan, st.width)
  }

  lemma AppendTarget(plan: Plan, col: ColumnKey, row: int, cells: seq<Cell>)
    ensures var r := Append(plan, col, row, cells);
            col in r && row in r[col] && BucketAt(r, col, row) == BucketAt(plan, col, row) + cells
  {
  }

  lemma AppendOther(plan: Plan, col: ColumnKey, row: int, cells: seq<Cell>, c: ColumnKey, k: int)
    requires c != col || k != row
    ensures var r := Append(plan, col, row, cells);
            && BucketAt(r, c, k) == BucketAt(plan, c, k)
            && (c in plan ==> c in r && plan[c].Keys <= r[c].Keys)
  {
  }

  predicate AimsAt(t: Target, col: ColumnKey, row: int) {
    t.Slot? && t.column == col && t.row == row
  }

  /** Reference description of a bucket after the placement pass: the cells of the
      items aimed at it, in item order, each item's cells computed from the widths
      `width` the pass started from. */
  function Placed(targets: seq<Target>, elms: map<Path, seq<Box>>, guest: map<Path, seq<Box>>,
                  width: map<Box, string>, col: ColumnKey, row: int, n: nat): seq<Cell>
    requires n <= |targets|
  {
    if n == 0 then []
    else
      Placed(targets, elms, guest, width, col, row, n - 1) +
      if AimsAt(targets[n - 1], col, row) then ItemElms(width, ElmsAt(elms, Top(n - 1)), ElmsAt(guest, Top(n - 1))).cells
      else []
  }

  /** The containers of placed items belong to no other placed item and to no placed
      item's guests, so no item's `getItemElms` touches the widths another placed item reads. */
  predicate Untangled(targets: seq<Target>, elms: map<Path, seq<Box>>, guest: map<Path, seq<Box>>) {
    forall i, j, b :: 0 <= i < |targets| && 0 <= j < |targets| && targets[i].Slot? && targets[j].Slot? &&
                      b in ElmsAt(elms, Top(i)) ==>
                        (i != j ==> b !in ElmsAt(elms, Top(j))) && b !in ElmsAt(guest, Top(j))
  }

  /** Two width maps that agree on the hosts give the same cells. */
  predicate AgreeOn(w1: map<Box, string>, w2: map<Box, string>, boxes: seq<Box>) {
    forall b :: b in boxes ==> WidthOf(w1, b) == WidthOf(w2, b)
  }

  lemma {:induction false} WrapHostsAgree(m1: Merge, m2: Merge, hosts: seq<Box>, g: Box, n: nat)
    requires n <= |hosts|
    requires m1.cells == m2.cells && AgreeOn(m1.width, m2.width, hosts)
    ensures var r1 := WrapHosts(m1, hosts, g, n);
            var r2 := WrapHosts(m2, hosts, g, n);
            r1.cells == r2.cells && AgreeOn(r1.width, r2.width, hosts)
  {
    if n > 0 {
      WrapHostsAgree(m1, m2, hosts, g, n - 1);
      var b1 := WrapHosts(m1, hosts, g, n - 1);
      var b2 := WrapHosts(m2, hosts, g, n - 1);
      assert hosts[n - 1] in hosts;
      var r1 := WrapHosts(m1, hosts, g, n);
      var r2 := WrapHosts(m2, hosts, g, n);
      forall b | b in hosts ensures WidthOf(r1.width, b) == WidthOf(r2.width, b) {
        assert WidthOf(b1.width, b) == WidthOf(b2.width, b);
      }
    }
  }

  lemma {:induction false} WrapGuestsAgree(m1: Merge, m2: Merge, hosts: seq<Box>, guests: seq<Box>, n: nat)
    requires n <= |guests|
    requires m1.cells == m2.cells && AgreeOn(m1.width, m2.width, hosts)
    ensures var r1 := WrapGuests(m1, hosts, guests, n);
            var r2 := WrapGuests(m2, hosts, guests, n);
            r1.cells == r2.cells && AgreeOn(r1.width, r2.width, hosts)
  {
    if n > 0 {
      WrapGuestsAgree(m1, m2, hosts, guests, n - 1);
      WrapHostsAgree(WrapGuests(m1, hosts, guests, n - 1), WrapGuests(m2, hosts, guests, n - 1), hosts, guests[n - 1], |hosts|);
    }
  }

  /** `getItemElms` reads no width but its hosts'. */
  lemma ItemElmsReadsHosts(w1: map<Box, string>, w2: map<Box, string>, hosts: seq<Box>, guests: seq<Box>)
    requires AgreeOn(w1, w2, hosts)
    ensures ItemElms(w1, hosts, guests).cells == ItemElms(w2, hosts, guests).cells
  {
    if guests != [] {
      WrapGuestsAgree(Merge([], w1), Merge([], w2), hosts, guests, |guests|);
    }
  }

  /** A container that no earlier placed item owns or hosts keeps its width. */
  lemma {:induction false} PlaceUpToWidthFrame(st: Placement, targets: seq<Target>, elms: map<Path, seq<Box>>,
                                               guest: map<Path, seq<Box>>, n: nat, b: Box)
    requires n <= |targets|
    requires forall j :: 0 <= j < n && targets[j].Slot? ==> b !in ElmsAt(elms, Top(j)) && b !in ElmsAt(guest, Top(j))
    ensures WidthOf(PlaceUpTo(st, targets, elms, guest, n).width, b) == WidthOf(st.width, b)
  {
    if n > 0 {
      PlaceUpToWidthFrame(st, targets, elms, guest, n - 1, b);
      var before := PlaceUpTo(st, targets, elms, guest, n - 1);
      if targets[n - 1].Slot? {
        ItemElmsWidths(before.width, ElmsAt(elms, Top(n - 1)), ElmsAt(guest, Top(n - 1)), b);
      }
    }
  }

  /** When item `i` is reached its own containers still have the widths the pass
      started from. */
  lemma PlaceUpToHostsUntouched(st: Placement, targets: seq<Target>, elms: map<Path, seq<Box>>,
                                guest: map<Path, seq<Box>>, n: nat, i: nat)
    requires n <= i < |targets| && targets[i].Slot?
    requires Untangled(targets, elms, guest)
    ensures AgreeOn(PlaceUpTo(st, targets, elms, guest, n).width, st.width, ElmsAt(elms, Top(i)))
  {
    forall b | b in ElmsAt(elms, Top(i))
      ensures WidthOf(PlaceUpTo(st, targets, elms, guest, n).width, b) == WidthOf(st.width, b)
    {
      PlaceUpToWidthFrame(st, targets, elms, guest, n, b);
    }
  }

  /** The `n`-th item pushes its cells onto the end of its own bucket ... */
  lemma PlaceStepTarget(st: Placement, targets: seq<Target>, elms: map<Path, seq<Box>>, guest: map<Path, seq<Box>>,
                        n: nat)
    requires 0 < n <= |targets| && targets[n - 1].Slot?
    requires Untangled(targets, elms, guest)
    ensures var t := targets[n - 1];
            BucketAt(PlaceUpTo(st, targets, elms, guest, n).plan, t.column, t.row) ==
            BucketAt(PlaceUpTo(st, targets, elms, guest, n - 1).plan, t.column, t.row) +
            ItemElms(st.width, ElmsAt(elms, Top(n - 1)), ElmsAt(guest, Top(n - 1))).cells
  {
    var before := PlaceUpTo(st, targets, elms, guest, n - 1);
    var t := targets[n - 1];
    var hosts := ElmsAt(elms, Top(n - 1));
    var m := ItemElms(before.width, hosts, ElmsAt(guest, Top(n - 1)));
    AppendTarget(before.plan, t.column, t.row, m.cells);
    PlaceUpToHostsUntouched(st, targets, elms, guest, n - 1, n - 1);
    ItemElmsReadsHosts(before.width, st.width, hosts, ElmsAt(guest, Top(n - 1)));
  }

  /** ... and leaves every other bucket as it was. */
  lemma PlaceStepOther(st: Placement, targets: seq<Target>, elms: map<Path, seq<Box>>, guest: map<Path, seq<Box>>,
                       n: nat, c: ColumnKey, r: int)
    requires 0 < n <= |targets| && !AimsAt(targets[n - 1], c, r)
    ensures BucketAt(PlaceUpTo(st, targets, elms, guest, n).plan, c, r) ==
            BucketAt(PlaceUpTo(st, targets, elms, guest, n - 1).plan, c, r)
  {
    var before := PlaceUpTo(st, targets, elms, guest, n - 1);
    match targets[n - 1]
    case Guest(_) =>
    case Slot(col, row) =>
      var m := ItemElms(before.width, ElmsAt(elms, Top(n - 1)), ElmsAt(guest, Top(n - 1)));
      AppendOther(before.plan, col, row, m.cells, c, r);
  }

  /** Each bucket keeps what it held and gains, at its end and in item order, the
      `getItemElms` output of the items aimed at it. */
  lemma {:induction false} PlaceUpToBucket(st: Placement, targets: seq<Target>, elms: map<Path, seq<Box>>,
                                           guest: map<Path, seq<Box>>, n: nat, c: ColumnKey, r: int)
    requires n <= |targets|
    requires Untangled(targets, elms, guest)
    ensures BucketAt(PlaceUpTo(st, targets, elms, guest, n).plan, c, r) ==
            BucketAt(st.plan, c, r) + Placed(targets, elms, guest, st.width, c, r, n)
  {
    if n > 0 {
      PlaceUpToBucket(st, targets, elms, guest, n - 1, c, r);
      var earlier := Placed(targets, elms, guest, st.width, c, r, n - 1);
      if AimsAt(targets[n - 1], c, r) {
        PlaceStepTarget(st, targets, elms, guest, n);
        var added := ItemElms(st.width, ElmsAt(elms, Top(n - 1)), ElmsAt(guest, Top(n - 1))).cells;
        assert Placed(targets, elms, guest, st.width, c, r, n) == earlier + added;
        assert BucketAt(st.plan, c, r) + earlier + added == BucketAt(st.plan, c, r) + (earlier + added);
      } else {
        PlaceStepOther(st, targets, elms, guest, n, c, r);
        assert Placed(targets, elms, guest, st.width, c, r, n) == earlier;
      }
    }
  }

  /** Columns and rows already in the plan stay, and every placed item's bucket exists. */
  lemma {:induction false} PlaceUpToKeys(st: Placement, targets: seq<Target>, elms: map<Path, seq<Box>>,
                                         guest: map<Path, seq<Box>>, n: nat)
    requires n <= |targets|
    ensures var p := PlaceUpTo(st, targets, elms, guest, n).plan;
            && (forall c :: c in st.plan ==> c in p && st.plan[c].Keys <= p[c].Keys)
            && (forall i :: 0 <= i < n && targets[i].Slot? ==> targets[i].column in p && targets[i].row in p[targets[i].column])
  {
    if n > 0 {
      PlaceUpToKeys(st, targets, elms, guest, n - 1);
    }
  }

  lemma {:induction false} NotGuestOfPlaced(items: seq<Item>, targets: seq<Target>, elms: map<Path, seq<Box>>,
                                            h: nat, n: nat, b: Box)
    requires h < |items| && n <= |targets| == |items|
    requires Structured(elms)
    requires TopBelow(b.item, |targets|) && targets[b.item[0]].Slot?
    ensures b !in GuestsOf(items, targets, elms, h, n)
  {
    if n > 0 {
      NotGuestOfPlaced(items, targets, elms, h, n - 1, b);
      if GuestOf(items, targets, n - 1, h) {
        BoxesBelongToPath(elms, Top(n - 1));
        assert b.item != Top(n - 1);
      }
    }
  }

  /** Under numbered containers, the guest pass leaves the plan inputs untangled. */
  lemma GuestPassUntangled(c: Containers, items: seq<Item>, targets: seq<Target>)
    requires |targets| == |items|
    requires Structured(c.elms)
    ensures Untangled(targets, c.elms, GuestPass(c.guestElms, items, targets, c.elms))
  {
    var guest := GuestPass(c.guestElms, items, targets, c.elms);
    forall i, j, b | 0 <= i < |targets| && 0 <= j < |targets| && targets[i].Slot? && targets[j].Slot? &&
                     b in ElmsAt(c.elms, Top(i))
      ensures (i != j ==> b !in ElmsAt(c.elms, Top(j))) && b !in ElmsAt(guest, Top(j))
    {
      BoxesBelongToPath(c.elms, Top(i));
      BoxesBelongToPath(c.elms, Top(j));
      assert b.item == Top(i);
      GuestPassCollects(c.guestElms, items, targets, c.elms, Top(j));
      NotGuestOfPlaced(items, targets, c.elms, j, |items|, b);
    }
  }

  /** `SortByPriorities`: every bucket of the plan keeps its contents and gains, in item
      order, the cells of the numbered items aimed at it, each computed from the
      widths `setWidths` left and the guests the guest pass collected. */
  lemma SortByPrioritiesBuckets(c: Containers, plan: Plan, items: seq<Item>, targets: seq<Target>,
                                col: ColumnKey, row: int)
    requires |targets| == |items|
    requires Structured(c.elms)
    ensures var s := SortByPriorities(c, plan, items, targets);
            BucketAt(s.plan, col, row) ==
            BucketAt(plan, col, row) + Placed(targets, c.elms, s.guestElms, c.width, col, row, |targets|)
  {
    GuestPassUntangled(c, items, targets);
    var guest := GuestPass(c.guestElms, items, targets, c.elms);
    PlaceUpToBucket(Placement(plan, c.width), targets, c.elms, guest, |targets|, col, row);
  }

  // ----- materialisation order -----

  /** One column as `addToPage` lays it out: a row container per bucket. */
  datatype ColumnView = ColumnView(key: ColumnKey, rows: seq<seq<Cell>>)

  /** The buckets of one column in the order `for…in` visits their integer keys. */
  function RowsInOrder(rows: Rows): seq<seq<Cell>> {
    var order := Ascending(rows.Keys);
    seq(|order|, (k: int) requires 0 <= k < |order| => rows[order[k]])
  }

  /** `addToPage(column)`. */
  function AddToPage(plan: Plan, key: ColumnKey): ColumnView
    requires key in plan
  {
    ColumnView(key, RowsInOrder(plan[key]))
  }

  function ColumnNumbers(plan: Plan): (s: set<int>)
    ensures forall x :: x in s ==> x >= 0 && Column(x) in plan
    ensures forall c :: c in plan && c.Column? ==> c.index in s
  {
    set c | c in plan && c.Column? :: c.index as int
  }

  /** Every listed column is a column of the plan. */
  predicate InPlan(plan: Plan, keys: seq<ColumnKey>) {
    forall k :: 0 <= k < |keys| ==> keys[k] in plan
  }

  lemma ConcatInPlan(plan: Plan, a: seq<ColumnKey>, b: seq<ColumnKey>)
    requires InPlan(plan, a) && InPlan(plan, b)
    ensures InPlan(plan, a + b)
  {
    forall k | 0 <= k < |a + b| ensures (a + b)[k] in plan {
      if k >= |a| {
        assert (a + b)[k] == b[k - |a|];
      }
    }
  }

  /** The column keys of a list of column numbers. */
  function ColumnsOf(numbers: seq<int>): (r: seq<ColumnKey>)
    requires forall k :: 0 <= k < |numbers| ==> numbers[k] >= 0
    ensures |r| == |numbers| && forall k :: 0 <= k < |r| ==> r[k] == Column(numbers[k])
  {
    seq(|numbers|, (k: int) requires 0 <= k < |numbers| => Column(numbers[k]))
  }

  /** The numbered columns of the plan, in the ascending order in which `for…in`
      visits integer-like keys. */
  function NumberedKeys(plan: Plan): seq<ColumnKey> {
    ColumnsOf(Ascending(ColumnNumbers(plan)))
  }

  /** The numbered columns are the plan's numbered columns, strictly ascending. */
  predicate NumberedPart(plan: Plan, middle: seq<ColumnKey>) {
    && InPlan(plan, middle)
    && (forall k :: 0 <= k < |middle| ==> middle[k].Column?)
    && (forall i, j :: 0 <= i < j < |middle| ==> middle[i].index < middle[j].index)
    && (forall c :: c in plan && c.Column? ==> c in middle)
  }

  lemma NumberedKeysFacts(plan: Plan)
    ensures NumberedPart(plan, NumberedKeys(plan))
  {
    var s := ColumnNumbers(plan);
    var numbers := Ascending(s);
    var r := ColumnsOf(numbers);
    forall k | 0 <= k < |r| ensures r[k] in plan {
      assert numbers[k] in s;
    }
    forall c | c in plan && c.Column? ensures c in r {
      assert c.index in numbers;
      var k :| 0 <= k < |numbers| && numbers[k] == c.index;
      assert r[k] == c;
    }
  }

  function HeaderKeys(plan: Plan): seq<ColumnKey> {
    if Header in plan then [Header] else []
  }

  function UnresolvedKeys(plan: Plan): seq<ColumnKey> {
    if Unresolved in plan then [Unresolved] else []
  }

  /** The columns in the order `switchToFlexibleState` appends them: "header" when
      present, then the numbered columns ascending, then "undefined", the only other
      string key a column can take. */
  function ColumnOrder(plan: Plan): seq<ColumnKey> {
    HeaderKeys(plan) + NumberedKeys(plan) + UnresolvedKeys(plan)
  }

  /** What `switchToFlexibleState` puts into the flexible container. */
  function Layout(plan: Plan): seq<ColumnView> {
    ColumnOrderInPlan(plan);
    ViewsOf(plan, ColumnOrder(plan))
  }

  /** Only columns of the plan are laid out. */
  lemma ColumnOrderInPlan(plan: Plan)
    ensures InPlan(plan, ColumnOrder(plan))
  {
    NumberedKeysFacts(plan);
    ConcatInPlan(plan, HeaderKeys(plan), NumberedKeys(plan));
    ConcatInPlan(plan, HeaderKeys(plan) + NumberedKeys(plan), UnresolvedKeys(plan));
  }

  /** Every column of the plan is laid out. */
  lemma ColumnOrderComplete(plan: Plan)
    ensures forall c :: c in plan ==> c in ColumnOrder(plan)
  {
    NumberedKeysFacts(plan);
    var head := HeaderKeys(plan);
    var middle := NumberedKeys(plan);
    var tail := UnresolvedKeys(plan);
    forall c | c in plan ensures c in head + middle + tail {
      match c
      case Header => assert c in head;
      case Unresolved => assert c in tail;
      case Column(_) => assert c in middle;
    }
  }

  /** An order made of at most one "header", then strictly ascending numbered
      columns, then at most one "undefined" lists no column twice. */
  lemma PartsSorted(head: seq<ColumnKey>, middle: seq<ColumnKey>, tail: seq<ColumnKey>)
    requires |head| <= 1 && (forall k :: 0 <= k < |head| ==> head[k] == Header)
    requires forall k :: 0 <= k < |middle| ==> middle[k].Column?
    requires forall i, j :: 0 <= i < j < |middle| ==> middle[i].index < middle[j].index
    requires |tail| <= 1 && (forall k :: 0 <= k < |tail| ==> tail[k] == Unresolved)
    ensures var order := head + middle + tail;
            && (forall i, j :: 0 <= i < j < |order| && order[i].Column? && order[j].Column? ==> order[i].index < order[j].index)
            && NoDuplicates(order)
  {
    var order := head + middle + tail;
    forall i | 0 <= i < |order|
      ensures i < |head| ==> order[i] == Header
      ensures |head| <= i < |head| + |middle| ==> order[i] == middle[i - |head|]
      ensures |head| + |middle| <= i ==> order[i] == Unresolved
    {
      if |head| + |middle| <= i {
        assert order[i] == tail[i - |head| - |middle|];
      }
    }
  }

  /** "header" comes first and "undefined" last; the numbered columns in between are
      in strictly ascending order, so no column is laid out twice. */
  lemma ColumnOrderSorted(plan: Plan)
    ensures var order := ColumnOrder(plan);
            && (Header in plan ==> order[0] == Header)
            && (Unresolved in plan ==> order[|order| - 1] == Unresolved)
            && (forall i, j :: 0 <= i < j < |order| && order[i].Column? && order[j].Column? ==> order[i].index < order[j].index)
            && NoDuplicates(order)
  {
    NumberedKeysFacts(plan);
    PartsSorted(HeaderKeys(plan), NumberedKeys(plan), UnresolvedKeys(plan));
  }

  /** The keys of a plan in the order `for…in` visits them: the integer-like column
      numbers ascending, then the string keys "header" and "undefined". The order of
      the two string keys is their insertion order, which the model does not track;
      `switchToFlexibleState` skips "header" in this loop, so the choice cannot be
      observed. */
  function ForInKeys(plan: Plan): seq<ColumnKey> {
    NumberedKeys(plan) + HeaderKeys(plan) + UnresolvedKeys(plan)
  }

  lemma ForInKeysInPlan(plan: Plan)
    ensures InPlan(plan, ForInKeys(plan))
  {
    NumberedKeysFacts(plan);
    ConcatInPlan(plan, NumberedKeys(plan), HeaderKeys(plan));
    ConcatInPlan(plan, NumberedKeys(plan) + HeaderKeys(plan), UnresolvedKeys(plan));
  }

  /** The first `n` keys of `keys` without "header": the columns the `for…in` loop
      of `switchToFlexibleState` hands to `addToPage`. */
  function SkipHeader(keys: seq<ColumnKey>, n: nat): seq<ColumnKey>
    requires n <= |keys|
  {
    if n == 0 then []
    else if keys[n - 1] == Header then SkipHeader(keys, n - 1)
    else SkipHeader(keys, n - 1) + [keys[n - 1]]
  }

  /** One column view per key. */
  function ViewsOf(plan: Plan, keys: seq<ColumnKey>): (r: seq<ColumnView>)
    requires InPlan(plan, keys)
    ensures |r| == |keys| && forall k :: 0 <= k < |keys| ==> r[k] == AddToPage(plan, keys[k])
  {
    seq(|keys|, (k: int) requires 0 <= k < |keys| => AddToPage(plan, keys[k]))
  }

  /** Keys taken from a list of the plan's columns are the plan's columns. */
  lemma {:induction false} SkipHeaderInPlan(plan: Plan, keys: seq<ColumnKey>, n: nat)
    requires n <= |keys| && InPlan(plan, keys)
    ensures InPlan(plan, SkipHeader(keys, n))
  {
    if n > 0 {
      SkipHeaderInPlan(plan, keys, n - 1);
      if keys[n - 1] != Header {
        ConcatInPlan(plan, SkipHeader(keys, n - 1), [keys[n - 1]]);
      }
    }
  }

  lemma ViewsOfSnoc(plan: Plan, keys: seq<ColumnKey>, key: ColumnKey)
    requires InPlan(plan, keys) && key in plan
    ensures InPlan(plan, keys + [key])
    ensures ViewsOf(plan, keys + [key]) == ViewsOf(plan, keys) + [AddToPage(plan, key)]
  {
    ConcatInPlan(plan, keys, [key]);
    var views := ViewsOf(plan, keys) + [AddToPage(plan, key)];
    forall k | 0 <= k < |keys| + 1 ensures views[k] == ViewsOf(plan, keys + [key])[k] {
      if k < |keys| {
        assert (keys + [key])[k] == keys[k];
      }
    }
  }

  lemma {:induction false} SkipHeaderNone(keys: seq<ColumnKey>, n: nat)
    requires n <= |keys|
    requires forall k :: 0 <= k < |keys| ==> keys[k] != Header
    ensures SkipHeader(keys, n) == keys[..n]
  {
    if n > 0 {
      SkipHeaderNone(keys, n - 1);
      TakeSnoc(keys, n);
    }
  }

  lemma {:induction false} SkipHeaderOnly(keys: seq<ColumnKey>, n: nat)
    requires n <= |keys|
    requires forall k :: 0 <= k < |keys| ==> keys[k] == Header
    ensures SkipHeader(keys, n) == []
  {
    if n > 0 {
      SkipHeaderOnly(keys, n - 1);
    }
  }

  lemma {:induction false} SkipHeaderPrefix(a: seq<ColumnKey>, b: seq<ColumnKey>, n: nat)
    requires n <= |a|
    ensures SkipHeader(a + b, n) == SkipHeader(a, n)
  {
    if n > 0 {
      SkipHeaderPrefix(a, b, n - 1);
      assert (a + b)[n - 1] == a[n - 1];
    }
  }

  /** Skipping "header" in `a + b` skips it in `a`, then in `b`. */
  lemma {:induction false} SkipHeaderConcat(a: seq<ColumnKey>, b: seq<ColumnKey>, n: nat)
    requires n <= |b|
    ensures SkipHeader(a + b, |a| + n) == SkipHeader(a, |a|) + SkipHeader(b, n)
  {
    if n == 0 {
      SkipHeaderPrefix(a, b, |a|);
    } else {
      SkipHeaderConcat(a, b, n - 1);
      assert (a + b)[|a| + n - 1] == b[n - 1];
    }
  }

  /** Numbered columns, then "header"s, then other columns: skipping "header"
      leaves the numbered and the other columns. */
  lemma SkipHeaderParts(middle: seq<ColumnKey>, head: seq<ColumnKey>, tail: seq<ColumnKey>)
    requires forall k :: 0 <= k < |middle| ==> middle[k] != Header
    requires forall k :: 0 <= k < |head| ==> head[k] == Header
    requires forall k :: 0 <= k < |tail| ==> tail[k] != Header
    ensures SkipHeader(middle + head + tail, |middle + head + tail|) == middle + tail
  {
    SkipHeaderNone(middle, |middle|);
    assert middle[..|middle|] == middle;
    SkipHeaderNone(tail, |tail|);
    assert tail[..|tail|] == tail;
    SkipHeaderOnly(head, |head|);
    SkipHeaderConcat(middle, head, |head|);
    var mh := middle + head;
    assert SkipHeader(mh, |mh|) == middle;
    SkipHeaderConcat(mh, tail, |tail|);
  }

  lemma NumberedKeysAreColumns(plan: Plan)
    ensures forall k :: 0 <= k < |NumberedKeys(plan)| ==> NumberedKeys(plan)[k].Column?
  {
  }

  /** `switchToFlexibleState`'s `for…in` loop, which skips "header", hands the
      numbered columns, then "undefined", to `addToPage`. */
  lemma ForInSkipsHeader(plan: Plan)
    ensures SkipHeader(ForInKeys(plan), |ForInKeys(plan)|) == NumberedKeys(plan) + UnresolvedKeys(plan)
  {
    NumberedKeysAreColumns(plan);
    SkipHeaderParts(NumberedKeys(plan), HeaderKeys(plan), UnresolvedKeys(plan));
  }

  lemma ViewsOfConcat(plan: Plan, a: seq<ColumnKey>, b: seq<ColumnKey>)
    requires InPlan(plan, a) && InPlan(plan, b)
    ensures InPlan(plan, a + b)
    ensures ViewsOf(plan, a + b) == ViewsOf(plan, a) + ViewsOf(plan, b)
  {
    ConcatInPlan(plan, a, b);
    var views := ViewsOf(plan, a) + ViewsOf(plan, b);
    forall k | 0 <= k < |a + b| ensures views[k] == ViewsOf(plan, a + b)[k] {
      if k >= |a| {
        assert (a + b)[k] == b[k - |a|];
      }
    }
  }

  lemma PartsInPlan(plan: Plan)
    ensures InPlan(plan, HeaderKeys(plan)) && InPlan(plan, NumberedKeys(plan)) && InPlan(plan, UnresolvedKeys(plan))
  {
    NumberedKeysFacts(plan);
  }

  lemma HeaderView(plan: Plan)
    ensures InPlan(plan, HeaderKeys(plan))
    ensures ViewsOf(plan, HeaderKeys(plan)) == if Header in plan then [AddToPage(plan, Header)] else []
  {
  }

  /** `switchToFlexibleState`'s two steps — `addToPage("header")` first when the
      plan has a header, then the `for…in` loop that skips it — lay out exactly the
      columns of `Layout`. */
  lemma HeaderThenForInIsLayout(plan: Plan)
    ensures InPlan(plan, ForInKeys(plan))
    ensures InPlan(plan, SkipHeader(ForInKeys(plan), |ForInKeys(plan)|))
    ensures (if Header in plan then [AddToPage(plan, Header)] else []) +
            ViewsOf(plan, SkipHeader(ForInKeys(plan), |ForInKeys(plan)|)) == Layout(plan)
  {
    ForInKeysInPlan(plan);
    SkipHeaderInPlan(plan, ForInKeys(plan), |ForInKeys(plan)|);
    ForInSkipsHeader(plan);
    PartsInPlan(plan);
    var head := HeaderKeys(plan);
    var rest := NumberedKeys(plan) + UnresolvedKeys(plan);
    ConcatInPlan(plan, NumberedKeys(plan), UnresolvedKeys(plan));
    ViewsOfConcat(plan, head, rest);
    HeaderView(plan);
    ColumnOrderInPlan(plan);
    assert ColumnOrder(plan) == head + rest;
  }

  /** Within a column the rows come out in ascending row number, one per bucket, each
      holding its bucket's cells in bucket order. */
  lemma RowsAscending(rows: Rows)
    ensures var view := RowsInOrder(rows);
            var order := Ascending(rows.Keys);
            && |view| == |rows|
            && (forall k :: 0 <= k < |view| ==> order[k] in rows && view[k] == rows[order[k]])
            && (forall r :: r in rows ==> exists k :: 0 <= k < |view| && order[k] == r)
            && (forall i, j :: 0 <= i < j < |view| ==> order[i] < order[j])
  {
    var order := Ascending(rows.Keys);
    assert |rows.Keys| == |rows|;
    forall r | r in rows ensures exists k :: 0 <= k < |order| && order[k] == r {
      assert r in order;
    }
  }

  /** Buckets created in the order 3, 1, 2 are laid out as rows 1, 2, 3. */
  lemma RowsInOrderExample(b1: seq<Cell>, b2: seq<Cell>, b3: seq<Cell>)
    ensures RowsInOrder(map[3 := b3][1 := b1][2 := b2]) == [b1, b2, b3]
  {
    var rows := map[3 := b3][1 := b1][2 := b2];
    assert rows.Keys == {1, 2, 3};
    var order := Ascending(rows.Keys);
    assert order == [1, 2, 3] by {
      assert |order| == 3;
      assert forall k :: 0 <= k < 3 ==> order[k] in {1, 2, 3};
      assert order[0] < order[1] < order[2];
    }
  }
}

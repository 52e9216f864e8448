/** The configuration of alef.js as a concrete scenario: its items at the active
    breakpoint 840, where `#mainDiv8Main` becomes a guest of `#mainBoth-1`. */
module Alef {
  import opened Base
  import opened Config
  import opened Breakpoints
  import opened Registry
  import opened Planner

  const HeaderLogo: string :=
    "<a href=\"http://alef.ir/\" class=\"headlglnk\" target=\"_blank\"><img src=\"logo.jpg\" /></a>"

  /** The `items` of alef.js, in order (`pick` and `childNodes` are absent). */
  function AlefItems(): seq<Item> {
    [HeaderItem(), MainDiv1(), Snbox2(), MainBoth1(), MainBoth2(), MainDiv6A(), Cartoon1(), MainDiv8Main()]
  }

  function HeaderItem(): Item {
    Item("#header", None, Some(map[990 := Row(0)]), Some(HeaderLiteral), Some(map[990 := "100%"]), HeaderLogo, [])
  }

  function MainDiv1(): Item {
    Item("#mainDiv1", None, Some(map[990 := Row(1)]), Some(PerBreakpoint(map[990 := 1])),
         Some(map[990 := "100%"]), "", [])
  }

  function Snbox2(): Item {
    Item("#snbox2", None, Some(map[990 := Row(2)]), Some(PerBreakpoint(map[990 := 1])),
         Some(map[990 := "100%"]), "", [])
  }

  function MainBoth1(): Item {
    Item("#mainBoth-1", None, Some(map[990 := Row(3), 840 := Row(4), 560 := Row(6)]),
         Some(PerBreakpoint(map[990 := 1])), Some(map[990 := "35%", 840 := "40%", 560 := "100%"]), "", [])
  }

  function MainBoth2(): Item {
    Item("#mainBoth-2", None, Some(map[990 := Row(3), 840 := Row(4), 560 := Row(5)]),
         Some(PerBreakpoint(map[990 := 1])), Some(map[990 := "65%", 840 := "60%", 560 := "100%"]), "", [])
  }

  function MainDiv6A(): Item {
    Item("#mainDiv6A", None, Some(map[990 := Row(1), 840 := Row(3)]),
         Some(PerBreakpoint(map[990 := 2, 840 := 1])), Some(map[990 := "100%", 840 := "50%", 560 := "100%"]), "", [])
  }

  function Cartoon1(): Item {
    Item("#cartoon1", None, Some(map[990 := Row(2), 840 := Row(3), 560 := Row(4)]),
         Some(PerBreakpoint(map[990 := 2, 840 := 1])), Some(map[990 := "100%", 840 := "50%", 560 := "100%"]), "", [])
  }

  function MainDiv8Main(): Item {
    Item("#mainDiv8Main", None, Some(map[990 := Row(3), 840 := Host(">#mainBoth-1"), 560 := Row(7)]),
         Some(PerBreakpoint(map[990 := 2, 840 := 1])), Some(map[990 := "100%", 840 := "100%", 560 := "100%"]), "", [])
  }

  // Proof helper for the example lemmas below.
  /** A map with the single key `k` resolves to its value at any breakpoint up to `k`. */
  lemma ResolveSingle<V>(k: int, v: V, current: int)
    requires current <= k
    ensures Resolve(map[k := v], Some(current)) == Some(v)
  {
    assert map[k := v].Keys == {k};
  }

  /** Where each item goes at breakpoint 840. */
  function AlefTargets(): seq<Target> {
    [Slot(Header, 0), Slot(Column(1), 1), Slot(Column(1), 2), Slot(Column(1), 4), Slot(Column(1), 4),
     Slot(Column(1), 3), Slot(Column(1), 3), Guest("#mainBoth-1")]
  }

  /** Each item's place at breakpoint 840. */
  lemma AlefItemTargets()
    ensures TargetOf(HeaderItem(), Some(840)) == Some(Slot(Header, 0))
    ensures TargetOf(MainDiv1(), Some(840)) == Some(Slot(Column(1), 1))
    ensures TargetOf(Snbox2(), Some(840)) == Some(Slot(Column(1), 2))
    ensures TargetOf(MainBoth1(), Some(840)) == Some(Slot(Column(1), 4))
    ensures TargetOf(MainBoth2(), Some(840)) == Some(Slot(Column(1), 4))
    ensures TargetOf(MainDiv6A(), Some(840)) == Some(Slot(Column(1), 3))
    ensures TargetOf(Cartoon1(), Some(840)) == Some(Slot(Column(1), 3))
    ensures TargetOf(MainDiv8Main(), Some(840)) == Some(Guest("#mainBoth-1"))
  {
    ResolveSingle(990, Row(0), 840);
    ResolveSingle(990, Row(1), 840);
    ResolveSingle(990, Row(2), 840);
    ResolveSingle(990, 1, 840);
    ResolveExactKey(map[990 := Row(3), 840 := Row(4), 560 := Row(6)], 840);
    ResolveExactKey(map[990 := Row(3), 840 := Row(4), 560 := Row(5)], 840);
    ResolveExactKey(map[990 := Row(1), 840 := Row(3)], 840);
    ResolveExactKey(map[990 := Row(2), 840 := Row(3), 560 := Row(4)], 840);
    ResolveExactKey(map[990 := Row(3), 840 := Host(">#mainBoth-1"), 560 := Row(7)], 840);
    ResolveExactKey(map[990 := 2, 840 := 1], 840);
    assert HostSelector(">#mainBoth-1") == "#mainBoth-1";
  }

  /** Eight items whose targets at `bp` are given one by one are placeable, with those targets. */
  lemma TargetsOfEight(i0: Item, i1: Item, i2: Item, i3: Item, i4: Item, i5: Item, i6: Item, i7: Item,
                       bp: Option<int>,
                       t0: Target, t1: Target, t2: Target, t3: Target, t4: Target, t5: Target, t6: Target, t7: Target)
    requires TargetOf(i0, bp) == Some(t0) && TargetOf(i1, bp) == Some(t1)
    requires TargetOf(i2, bp) == Some(t2) && TargetOf(i3, bp) == Some(t3)
    requires TargetOf(i4, bp) == Some(t4) && TargetOf(i5, bp) == Some(t5)
    requires TargetOf(i6, bp) == Some(t6) && TargetOf(i7, bp) == Some(t7)
    ensures var items := [i0, i1, i2, i3, i4, i5, i6, i7];
            Placeable(items, bp) && Targets(items, bp) == [t0, t1, t2, t3, t4, t5, t6, t7]
  {
    var items := [i0, i1, i2, i3, i4, i5, i6, i7];
    var expected := [t0, t1, t2, t3, t4, t5, t6, t7];
    forall i | 0 <= i < 8 ensures TargetOf(items[i], bp) == Some(expected[i]) {
      if i < 4 {
        assert i == 0 || i == 1 || i == 2 || i == 3;
      } else {
        assert i == 4 || i == 5 || i == 6 || i == 7;
      }
    }
    forall i | 0 <= i < |items| ensures Targets(items, bp)[i] == expected[i] {
      TargetsAt(items, bp, i);
    }
  }

  /** At breakpoint 840 every item has a place, and the places are `AlefTargets`: the
      priority ">#mainBoth-1" of `#mainDiv8Main` names the selector "#mainBoth-1". */
  lemma AlefPlaces()
    ensures Placeable(AlefItems(), Some(840))
    ensures Targets(AlefItems(), Some(840)) == AlefTargets()
  {
    AlefItemTargets();
    TargetsOfEight(HeaderItem(), MainDiv1(), Snbox2(), MainBoth1(), MainBoth2(), MainDiv6A(), Cartoon1(), MainDiv8Main(),
                   Some(840),
                   Slot(Header, 0), Slot(Column(1), 1), Slot(Column(1), 2), Slot(Column(1), 4), Slot(Column(1), 4),
                   Slot(Column(1), 3), Slot(Column(1), 3), Guest("#mainBoth-1"));
  }

  /** With the targets of breakpoint 840, the only guest is item 7, and it is a guest of
      whichever item has the selector "#mainBoth-1". */
  lemma GuestsAt840(items: seq<Item>, elms: map<Path, seq<Box>>, h: nat)
    requires |items| == 8 && h < 8
    ensures GuestsOf(items, AlefTargets(), elms, h, 8) ==
            if items[h].selector == "#mainBoth-1" then ElmsAt(elms, Top(7)) else []
  {
    var targets := AlefTargets();
    assert GuestsOf(items, targets, elms, h, 1) == [];
    assert GuestsOf(items, targets, elms, h, 3) == [];
    assert GuestsOf(items, targets, elms, h, 5) == [];
    assert GuestsOf(items, targets, elms, h, 7) == [];
  }

  /** `#mainDiv8Main`'s containers are the guests of `#mainBoth-1`. */
  lemma AlefHostGuests(elms: map<Path, seq<Box>>)
    ensures GuestsOf(AlefItems(), AlefTargets(), elms, 3, 8) == ElmsAt(elms, Top(7))
  {
    GuestsAt840(AlefItems(), elms, 3);
  }

  /** `#mainBoth-2` has no guests. */
  lemma AlefNoGuests(elms: map<Path, seq<Box>>)
    ensures GuestsOf(AlefItems(), AlefTargets(), elms, 4, 8) == []
  {
    GuestsAt840(AlefItems(), elms, 4);
    assert MainBoth2().selector != "#mainBoth-1" by {
      assert MainBoth2().selector[10] == '2';
    }
  }

  /** With the targets of breakpoint 840 the bucket of column 1, row 4 is filled by
      items 3 and 4, in that order. */
  lemma PlacedRowFour(elms: map<Path, seq<Box>>, guest: map<Path, seq<Box>>, width: map<Box, string>)
    ensures Placed(AlefTargets(), elms, guest, width, Column(1), 4, 8) ==
            ItemElms(width, ElmsAt(elms, Top(3)), ElmsAt(guest, Top(3))).cells +
            ItemElms(width, ElmsAt(elms, Top(4)), ElmsAt(guest, Top(4))).cells
  {
    var t := AlefTargets();
    assert Placed(t, elms, guest, width, Column(1), 4, 1) == [];
    assert Placed(t, elms, guest, width, Column(1), 4, 2) == [];
    assert Placed(t, elms, guest, width, Column(1), 4, 3) == [];
    var own := ItemElms(width, ElmsAt(elms, Top(3)), ElmsAt(guest, Top(3))).cells;
    assert Placed(t, elms, guest, width, Column(1), 4, 4) == own;
    var both := own + ItemElms(width, ElmsAt(elms, Top(4)), ElmsAt(guest, Top(4))).cells;
    assert Placed(t, elms, guest, width, Column(1), 4, 5) == both;
    assert Placed(t, elms, guest, width, Column(1), 4, 6) == both;
    assert Placed(t, elms, guest, width, Column(1), 4, 7) == both;
  }

  /** The guest pass with the targets of breakpoint 840, for any eight items of which
      item 3, and not item 4, has the selector "#mainBoth-1". */
  lemma GuestPassAt840(guest: map<Path, seq<Box>>, items: seq<Item>, elms: map<Path, seq<Box>>)
    requires |items| == 8
    requires items[3].selector == "#mainBoth-1" && items[4].selector != "#mainBoth-1"
    ensures ElmsAt(GuestPass(guest, items, AlefTargets(), elms), Top(3)) == ElmsAt(elms, Top(7))
    ensures ElmsAt(GuestPass(guest, items, AlefTargets(), elms), Top(4)) == []
  {
    GuestsAt840(items, elms, 3);
    GuestsAt840(items, elms, 4);
    GuestPassCollects(guest, items, AlefTargets(), elms, Top(3));
    GuestPassCollects(guest, items, AlefTargets(), elms, Top(4));
  }

  /** An item without guests contributes its own containers. */
  lemma NoGuestsOwnCells(width: map<Box, string>, hosts: seq<Box>)
    ensures ItemElms(width, hosts, []).cells == OwnCells(hosts)
  {
    ItemElmsWithoutGuests(width, hosts);
  }

  /** Column 1, row 4 after `SortByPriorities` with the targets of breakpoint 840, for
      any eight items of which item 3, and not item 4, has the selector "#mainBoth-1". */
  lemma RowFourWithGuests(c: Containers, items: seq<Item>)
    requires |items| == 8 && Structured(c.elms)
    requires items[3].selector == "#mainBoth-1" && items[4].selector != "#mainBoth-1"
    ensures var s := SortByPriorities(c, map[], items, AlefTargets());
            BucketAt(s.plan, Column(1), 4) ==
            ItemElms(c.width, ElmsAt(c.elms, Top(3)), ElmsAt(c.elms, Top(7))).cells + OwnCells(ElmsAt(c.elms, Top(4)))
  {
    var targets := AlefTargets();
    var s := SortByPriorities(c, map[], items, targets);
    SortByPrioritiesBuckets(c, map[], items, targets, Column(1), 4);
    PlacedRowFour(c.elms, s.guestElms, c.width);
    GuestPassAt840(c.guestElms, items, c.elms);
    NoGuestsOwnCells(c.width, ElmsAt(c.elms, Top(4)));
  }

  /** After `SortByPriorities` at breakpoint 840 on an empty plan, column 1 row 4 holds
      the wrappers of `#mainBoth-1`'s containers with `#mainDiv8Main`'s, then the
      containers of `#mainBoth-2`. */
  lemma AlefRowFour(c: Containers)
    requires Structured(c.elms)
    ensures var s := SortByPriorities(c, map[], AlefItems(), AlefTargets());
            BucketAt(s.plan, Column(1), 4) ==
            ItemElms(c.width, ElmsAt(c.elms, Top(3)), ElmsAt(c.elms, Top(7))).cells + OwnCells(ElmsAt(c.elms, Top(4)))
  {
    assert MainBoth2().selector != "#mainBoth-1" by {
      assert MainBoth2().selector[10] == '2';
    }
    RowFourWithGuests(c, AlefItems());
  }
}

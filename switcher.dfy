/** The switcher session (`src/switcher.rs`): selection arithmetic, removal
    of duplicate titles, the column layout and the event loops of
    `run_switcher_loop`, `run_test_mode` and `show_switcher`. The X
    connection becomes a sequence of events in and a trace of effects out. */
module Switcher {
  import opened Base
  import opened XServer
  import opened Windows
  import opened Icons
  import opened Ui

  // X11 keycodes
  const TabKeycode: byte := 23
  const AltLKeycode: byte := 64
  const AltRKeycode: byte := 108
  const EscapeKeycode: byte := 9
  const ReturnKeycode: byte := 36

  // Layout constants
  const IconSize: u16 := 48
  const Padding: u16 := 8
  const MaxCols: u16 := 20

  // ---------------------------------------------------------------------
  // Selection

  /** `initial_selection`: the second window in MRU order (the one used
      before the current one), or the last one when Shift is held. */
  function InitialSelection(count: nat, shift: bool): (r: nat)
    ensures count >= 1 ==> r < count
    ensures count <= 1 ==> r == 0
  {
    if count > 1 then (if shift then count - 1 else 1) else 0
  }

  /** `navigate_selection`: Tab moves one window forward and Shift+Tab one
      back, both wrapping around. The source takes `% count` and
      `count - 1`, so it is only called with a non-empty list. */
  function NavigateSelection(current: nat, count: nat, shift: bool): (r: nat)
    requires count >= 1
    ensures current < count || !shift ==> r < count
    ensures current < count && shift ==> r == (current + count - 1) % count
  {
    if shift then (if current == 0 then count - 1 else current - 1)
    else (current + 1) % count
  }

  /** The opening selection is what one Tab (or Shift+Tab) press from the
      first window gives. */
  lemma InitialIsOneStep(count: nat, shift: bool)
    requires count >= 1
    ensures InitialSelection(count, shift) == NavigateSelection(0, count, shift)
  {
    if count > 1 {
      RowMajor(1, 0, count);
    }
  }

  /** Tab and Shift+Tab undo each other. */
  lemma NavigateRoundTrip(current: nat, count: nat)
    requires current < count
    ensures NavigateSelection(NavigateSelection(current, count, false), count, true) == current
    ensures NavigateSelection(NavigateSelection(current, count, true), count, false) == current
  {
    if current + 1 < count {
      RowMajor(current + 1, 0, count);
    } else {
      RowMajor(0, 1, count);
    }
    var back := if current == 0 then count - 1 else current - 1;
    if back + 1 < count {
      RowMajor(back + 1, 0, count);
    } else {
      RowMajor(0, 1, count);
    }
  }

  /** Where n Tab presses from `current` lead. */
  function Forward(current: nat, count: nat, n: nat): nat
    requires count >= 1
    decreases n
  {
    if n == 0 then current else Forward(NavigateSelection(current, count, false), count, n - 1)
  }

  /** n Tab presses move the selection n places on, modulo the window count. */
  lemma {:induction false} ForwardIsModular(current: nat, count: nat, n: nat)
    requires current < count
    ensures Forward(current, count, n) == (current + n) % count
    decreases n
  {
    if n == 0 {
      ModOfSmall(current, count);
    } else {
      var next := (current + 1) % count;
      ForwardIsModular(next, count, n - 1);
      ModOfSuccessor(current, n, count);
    }
  }

  /** Reducing the left summand first does not change a remainder. */
  lemma ModOfSum(a: nat, b: nat, m: nat)
    requires m >= 1
    ensures (a % m + b) % m == (a + b) % m
  {
    var q := a / m;
    var r := a % m;
    var q2 := (r + b) / m;
    var r2 := (r + b) % m;
    assert a + b == (q + q2) * m + r2;
    RowMajor(r2, q + q2, m);
  }

  // ---------------------------------------------------------------------
  // Duplicate titles (`deduplicate_windows`)

  /** The icon a listed window gets: its own, or else the generic one. */
  function IconFor(srv: Server, w: Window, hostLittleEndian: bool): (icon: BwIcon)
    ensures icon.width == IconSize && icon.height == IconSize && |icon.data| == IconSize * IconSize
  {
    match GetWindowIcon(srv, w, IconSize, hostLittleEndian)
    case Some(found) => found
    case None => GenericIcon(IconSize)
  }

  /** Scaling the 48-pixel generic icon to 48 pixels, as the fallback does,
      gives the generic icon back. */
  lemma GenericFallbackIsGeneric()
    ensures Scaled(GenericIcon(IconSize), IconSize) == GenericIcon(IconSize)
  {
    ScaleSquareIdentity(GenericIcon(IconSize), IconSize);
  }

  /** The icon lookup `deduplicate_windows` applies to each kept window. */
  function IconLookup(srv: Server, hostLittleEndian: bool): Window -> BwIcon {
    (w: Window) => IconFor(srv, w, hostLittleEndian)
  }

  /** The windows kept from `list`: an entry is skipped when the admission
      test rejects its window, or when its title is already in `seen`;
      otherwise it is kept, with the icon `iconOf` gives it, and its title
      becomes seen. */
  function Dedup(srv: Server, list: seq<(Window, string)>, seen: set<string>, iconOf: Window -> BwIcon): seq<WindowInfo>
    decreases |list|
  {
    if list == [] then []
    else
      var w, title := list[0].0, list[0].1;
      if w !in srv.managed || title in seen then Dedup(srv, list[1..], seen, iconOf)
      else [WindowInfo(w, title, iconOf(w))] + Dedup(srv, list[1..], seen + {title}, iconOf)
  }

  /** `deduplicate_windows`: one pass with a growing set of seen titles. */
  method DeduplicateWindows(srv: Server, list: seq<(Window, string)>, hostLittleEndian: bool) returns (wins: seq<WindowInfo>)
    ensures wins == Dedup(srv, list, {}, IconLookup(srv, hostLittleEndian))
  {
    var generic := CreateGenericIcon(IconSize);
    wins := KeepFirstOfEachTitle(srv, list, generic, hostLittleEndian);
  }

  /** The loop of `deduplicate_windows`, with the generic icon made. */
  method KeepFirstOfEachTitle(srv: Server, list: seq<(Window, string)>, generic: BwIcon, hostLittleEndian: bool) returns (wins: seq<WindowInfo>)
    requires generic == GenericIcon(IconSize)
    ensures wins == Dedup(srv, list, {}, IconLookup(srv, hostLittleEndian))
  {
    var seen: set<string> := {};
    ghost var iconOf := IconLookup(srv, hostLittleEndian);
    wins := [];
    for i := 0 to |list|
      invariant wins + Dedup(srv, list[i..], seen, iconOf) == Dedup(srv, list, {}, iconOf)
    {
      var wid, title := list[i].0, list[i].1;
      DedupSuffix(srv, list, i, seen, iconOf);
      if wid in srv.managed && title !in seen {
        ghost var rest := Dedup(srv, list[i + 1..], seen + {title}, iconOf);
        seen := seen + {title};
        var icon := IconOrGeneric(srv, wid, generic, hostLittleEndian);
        var info := WindowInfo(wid, title, icon);
        assert info == WindowInfo(wid, title, iconOf(wid));
        assert (wins + [info]) + rest == wins + ([info] + rest);
        wins := wins + [info];
      }
    }
  }

  /** `Dedup` on the suffix from i: entry i is kept or skipped, then the rest. */
  lemma DedupSuffix(srv: Server, list: seq<(Window, string)>, i: nat, seen: set<string>, iconOf: Window -> BwIcon)
    requires i < |list|
    ensures var w, t := list[i].0, list[i].1;
      Dedup(srv, list[i..], seen, iconOf)
      == if w in srv.managed && t !in seen
         then [WindowInfo(w, t, iconOf(w))] + Dedup(srv, list[i + 1..], seen + {t}, iconOf)
         else Dedup(srv, list[i + 1..], seen, iconOf)
  {
    assert list[i..][0] == list[i] && list[i..][1..] == list[i + 1..];
  }

  /** `get_window_icon(..).unwrap_or_else(|| generic_icon.scale(ICON_SIZE))`. */
  method IconOrGeneric(srv: Server, wid: Window, generic: BwIcon, hostLittleEndian: bool) returns (icon: BwIcon)
    requires generic == GenericIcon(IconSize)
    ensures icon == IconLookup(srv, hostLittleEndian)(wid)
  {
    match GetWindowIcon(srv, wid, IconSize, hostLittleEndian) {
      case Some(found) =>
        icon := found;
      case None =>
        icon := Scale(generic, IconSize);
        GenericFallbackIsGeneric();
    }
  }

  /** The (window, title) pairs of a window list. */
  function Pairs(wins: seq<WindowInfo>): (ps: seq<(Window, string)>)
    ensures |ps| == |wins|
  {
    if wins == [] then [] else [(wins[0].wid, wins[0].title)] + Pairs(wins[1..])
  }

  predicate DistinctTitles(wins: seq<WindowInfo>) {
    forall i, j :: 0 <= i < j < |wins| ==> wins[i].title != wins[j].title
  }

  /** The kept windows have pairwise different titles, none of them in
      `seen`; each was admitted and carries its icon or the generic one. */
  lemma {:induction false} DedupTitlesDistinct(srv: Server, list: seq<(Window, string)>, seen: set<string>, iconOf: Window -> BwIcon)
    ensures DistinctTitles(Dedup(srv, list, seen, iconOf))
    ensures forall i :: 0 <= i < |Dedup(srv, list, seen, iconOf)| ==>
      Dedup(srv, list, seen, iconOf)[i].title !in seen
      && Dedup(srv, list, seen, iconOf)[i].wid in srv.managed
      && Dedup(srv, list, seen, iconOf)[i].icon == iconOf(Dedup(srv, list, seen, iconOf)[i].wid)
    decreases |list|
  {
    if list != [] {
      var w, t := list[0].0, list[0].1;
      if w !in srv.managed || t in seen {
        DedupTitlesDistinct(srv, list[1..], seen, iconOf);
      } else {
        DedupTitlesDistinct(srv, list[1..], seen + {t}, iconOf);
        var rest := Dedup(srv, list[1..], seen + {t}, iconOf);
        var r := Dedup(srv, list, seen, iconOf);
        assert r == [WindowInfo(w, t, iconOf(w))] + rest;
        forall i, j | 0 <= i < j < |r|
          ensures r[i].title != r[j].title
        {
          assert r[j] == rest[j - 1];
          if i > 0 {
            assert r[i] == rest[i - 1];
          }
        }
        forall i | 0 < i < |r|
          ensures r[i].title !in seen && r[i].wid in srv.managed && r[i].icon == iconOf(r[i].wid)
        {
          assert r[i] == rest[i - 1];
        }
      }
    }
  }

  /** Entry j is admitted, its title is not in `seen`, and no admitted entry
      before it has the same title. */
  predicate FirstOfTitle(srv: Server, list: seq<(Window, string)>, seen: set<string>, j: nat)
    requires j < |list|
  {
    list[j].0 in srv.managed && list[j].1 !in seen
    && forall k :: 0 <= k < j ==> !(list[k].0 in srv.managed && list[k].1 == list[j].1)
  }

  /** How `FirstOfTitle` moves from a list to its tail: the tail's `seen`
      gains the head's title exactly when the head is kept. */
  lemma FirstOfTitleTail(srv: Server, list: seq<(Window, string)>, seen: set<string>, j: nat)
    requires 1 <= j < |list|
    ensures FirstOfTitle(srv, list, seen, j) <==> FirstOfTitle(srv, list[1..], SeenAfter(srv, list[0], seen), j - 1)
  {
    var rest := list[1..];
    assert forall k :: 0 <= k < j - 1 ==> rest[k] == list[k + 1];
    assert rest[j - 1] == list[j];
    if FirstOfTitle(srv, list, seen, j) {
      forall k | 0 <= k < j - 1
        ensures !(rest[k].0 in srv.managed && rest[k].1 == rest[j - 1].1)
      {
        assert rest[k] == list[k + 1];
      }
    }
  }

  /** Some entry equal to `p` is the first admitted one with its title. */
  predicate IsFirstOfTitle(srv: Server, list: seq<(Window, string)>, seen: set<string>, p: (Window, string)) {
    exists j :: 0 <= j < |list| && list[j] == p && FirstOfTitle(srv, list, seen, j)
  }

  /** The titles seen after entry `x` has been looked at. */
  function SeenAfter(srv: Server, x: (Window, string), seen: set<string>): set<string> {
    if x.0 in srv.managed && x.1 !in seen then seen + {x.1} else seen
  }

  /** A (window, title) pair is kept exactly when it is the first admitted
      entry with that title (and the title was not seen before): a rejected
      window never blocks a later admitted one with the same title. */
  lemma {:induction false} DedupKeepsFirstOfEachTitle(srv: Server, list: seq<(Window, string)>, seen: set<string>, iconOf: Window -> BwIcon)
    ensures forall p :: p in Pairs(Dedup(srv, list, seen, iconOf)) <==> IsFirstOfTitle(srv, list, seen, p)
    decreases |list|
  {
    if list != [] {
      DedupKeepsFirstOfEachTitle(srv, list[1..], SeenAfter(srv, list[0], seen), iconOf);
      DedupHead(srv, list, seen, iconOf);
      forall p
        ensures p in Pairs(Dedup(srv, list, seen, iconOf)) <==> IsFirstOfTitle(srv, list, seen, p)
      {
        FirstOfTitleStep(srv, list, seen, p);
      }
    }
  }

  /** The inductive step of `DedupKeepsFirstOfEachTitle` for one pair. */
  lemma FirstOfTitleStep(srv: Server, list: seq<(Window, string)>, seen: set<string>, p: (Window, string))
    requires list != []
    ensures IsFirstOfTitle(srv, list, seen, p) <==>
      (list[0].0 in srv.managed && list[0].1 !in seen && p == list[0])
      || IsFirstOfTitle(srv, list[1..], SeenAfter(srv, list[0], seen), p)
  {
    var rest, seen' := list[1..], SeenAfter(srv, list[0], seen);
    if IsFirstOfTitle(srv, rest, seen', p) {
      var j' :| 0 <= j' < |rest| && rest[j'] == p && FirstOfTitle(srv, rest, seen', j');
      FirstOfTitleTail(srv, list, seen, j' + 1);
      assert list[j' + 1] == p;
    }
    if list[0].0 in srv.managed && list[0].1 !in seen && p == list[0] {
      assert FirstOfTitle(srv, list, seen, 0);
    }
    if IsFirstOfTitle(srv, list, seen, p) {
      var j :| 0 <= j < |list| && list[j] == p && FirstOfTitle(srv, list, seen, j);
      if j > 0 {
        FirstOfTitleTail(srv, list, seen, j);
        assert rest[j - 1] == p;
      }
    }
  }

  /** The entries the admission test accepts, in order. */
  function Admitted(srv: Server, list: seq<(Window, string)>): seq<(Window, string)>
  {
    if list == [] then []
    else (if list[0].0 in srv.managed then [list[0]] else []) + Admitted(srv, list[1..])
  }

  /** `a` is `b` with some elements left out, the rest in the same order. */
  predicate Embeds<T(==)>(a: seq<T>, b: seq<T>)
    decreases |b|
  {
    a == [] || (b != [] && ((a[0] == b[0] && Embeds(a[1..], b[1..])) || Embeds(a, b[1..])))
  }

  /** The kept windows are the admitted entries with some left out, in the
      order of the list (most recently used first). */
  lemma {:induction false} DedupIsOrderedSubsequence(srv: Server, list: seq<(Window, string)>, seen: set<string>, iconOf: Window -> BwIcon)
    ensures Embeds(Pairs(Dedup(srv, list, seen, iconOf)), Admitted(srv, list))
    decreases |list|
  {
    if list != [] {
      var w, t := list[0].0, list[0].1;
      var a, a' := Admitted(srv, list), Admitted(srv, list[1..]);
      if w !in srv.managed {
        DedupIsOrderedSubsequence(srv, list[1..], seen, iconOf);
        assert a == a';
      } else if t in seen {
        DedupIsOrderedSubsequence(srv, list[1..], seen, iconOf);
        assert a == [list[0]] + a' && a[1..] == a';
      } else {
        DedupIsOrderedSubsequence(srv, list[1..], seen + {t}, iconOf);
        var r := Dedup(srv, list, seen, iconOf);
        var r' := Dedup(srv, list[1..], seen + {t}, iconOf);
        assert r == [WindowInfo(w, t, iconOf(w))] + r';
        assert r[1..] == r';
        assert Pairs(r) == [(w, t)] + Pairs(r');
        assert a == [list[0]] + a' && a[1..] == a';
        assert Pairs(r)[0] == a[0] && Pairs(r)[1..] == Pairs(r');
      }
    }
  }

  /** One step of `Dedup`, seen through `Pairs`. */
  lemma DedupHead(srv: Server, list: seq<(Window, string)>, seen: set<string>, iconOf: Window -> BwIcon)
    requires list != []
    ensures Pairs(Dedup(srv, list, seen, iconOf))
      == (if list[0].0 in srv.managed && list[0].1 !in seen then [list[0]] else [])
         + Pairs(Dedup(srv, list[1..], SeenAfter(srv, list[0], seen), iconOf))
  {
    var w, t := list[0].0, list[0].1;
    if w in srv.managed && t !in seen {
      var r := Dedup(srv, list, seen, iconOf);
      assert r[1..] == Dedup(srv, list[1..], seen + {t}, iconOf);
    }
  }

  /** A window the admission test rejects does not hide a later window with
      the same title: with window 1 rejected, window 3 shows "A". */
  lemma RejectedWindowDoesNotBlock(srv: Server, list: seq<(Window, string)>, iconOf: Window -> BwIcon)
    requires srv.managed == {2, 3, 4} && list == [(1, "A"), (2, "B"), (3, "A"), (4, "C")]
    ensures Pairs(Dedup(srv, list, {}, iconOf)) == [(2, "B"), (3, "A"), (4, "C")]
  {
    var l1, l2, l3 := list[1..], list[2..], list[3..];
    assert l1[1..] == l2 && l2[1..] == l3 && l3[1..] == [];
    assert "A" != "B" && "A" != "C" && "B" != "C";
    calc {
      Pairs(Dedup(srv, list, {}, iconOf));
      { DedupHead(srv, list, {}, iconOf); assert SeenAfter(srv, list[0], {}) == {}; }
      Pairs(Dedup(srv, l1, {}, iconOf));
      { DedupHead(srv, l1, {}, iconOf); assert SeenAfter(srv, l1[0], {}) == {"B"}; }
      [(2, "B")] + Pairs(Dedup(srv, l2, {"B"}, iconOf));
      { DedupHead(srv, l2, {"B"}, iconOf); assert SeenAfter(srv, l2[0], {"B"}) == {"A", "B"}; }
      [(2, "B")] + ([(3, "A")] + Pairs(Dedup(srv, l3, {"A", "B"}, iconOf)));
      { DedupHead(srv, l3, {"A", "B"}, iconOf); }
      [(2, "B")] + ([(3, "A")] + [(4, "C")]);
    }
  }

  /** The same list with every window admitted: window 3 is now hidden by
      window 1. */
  lemma AdmittedWindowBlocksLaterTitle(srv: Server, list: seq<(Window, string)>, iconOf: Window -> BwIcon)
    requires srv.managed == {1, 2, 3, 4} && list == [(1, "A"), (2, "B"), (3, "A"), (4, "C")]
    ensures Pairs(Dedup(srv, list, {}, iconOf)) == [(1, "A"), (2, "B"), (4, "C")]
  {
    var l1, l2, l3 := list[1..], list[2..], list[3..];
    assert l1[1..] == l2 && l2[1..] == l3 && l3[1..] == [];
    assert "A" != "B" && "A" != "C" && "B" != "C";
    calc {
      Pairs(Dedup(srv, list, {}, iconOf));
      { DedupHead(srv, list, {}, iconOf); assert SeenAfter(srv, list[0], {}) == {"A"}; }
      [(1, "A")] + Pairs(Dedup(srv, l1, {"A"}, iconOf));
      { DedupHead(srv, l1, {"A"}, iconOf); assert SeenAfter(srv, l1[0], {"A"}) == {"A", "B"}; }
      [(1, "A")] + ([(2, "B")] + Pairs(Dedup(srv, l2, {"A", "B"}, iconOf)));
      { DedupHead(srv, l2, {"A", "B"}, iconOf); assert SeenAfter(srv, l2[0], {"A", "B"}) == {"A", "B"}; }
      [(1, "A")] + ([(2, "B")] + Pairs(Dedup(srv, l3, {"A", "B"}, iconOf)));
      { DedupHead(srv, l3, {"A", "B"}, iconOf); }
      [(1, "A")] + ([(2, "B")] + [(4, "C")]);
    }
  }

  // ---------------------------------------------------------------------
  // Layout (`calculate_layout`, `create_x11_window`)

  /** `calculate_layout`: one column per window, capped by the columns that
      fit in `maxWidth` (80% of the screen width, computed in floating point
      by the caller), by 20 and from below by 1. The source's
      `max_width - PADDING` is a u16 subtraction, so `maxWidth` is at least 8. */
  function CalculateLayout(maxWidth: u16, count: nat): (l: Layout)
    requires maxWidth >= Padding
    ensures l.iconSize == IconSize && l.padding == Padding
    ensures 1 <= l.cols <= MaxCols
    ensures l.winWidth == l.cols * (IconSize + Padding) + Padding
    ensures l.cols <= Max(TruncU16(count), 1)
    ensures l.cols <= Max((maxWidth - Padding) / (IconSize + Padding), 1)
    ensures l.cols == 1 || l.winWidth <= maxWidth
    ensures l.cols < MaxCols && l.cols < TruncU16(count) ==> maxWidth < (l.cols + 1) * (IconSize + Padding) + Padding
  {
    var maxColsByWidth := Max((maxWidth - Padding) / (IconSize + Padding), 1);
    var cols := Max(Min(Min(TruncU16(count), maxColsByWidth), MaxCols), 1);
    Layout(cols, IconSize, Padding, cols * (IconSize + Padding) + Padding)
  }

  /** The height `create_x11_window` gives the switcher: room for one row
      of cells and the title bar, whatever the number of rows. */
  function WindowHeightAsWritten(l: Layout): nat {
    l.iconSize + l.padding * 2 + TitleHeight
  }

  /** The height that holds every row and the title bar below them. */
  function WindowHeight(n: nat, l: Layout): (h: int)
    requires l.cols >= 1
    ensures h >= TitleHeight
  {
    TitleY(n, l) + TitleHeight
  }

  /** With 21 windows on a 1920-pixel screen (`maxWidth` 1536) the layout
      has 20 columns and two rows, but the window is only 88 pixels high:
      the second row's cell reaches past the bottom edge and the title bar
      starts below it. */
  lemma WindowHeightAsWrittenCutsOff()
    ensures var l := CalculateLayout(1536, 21);
      && l.cols == 20 && Rows(21, l.cols) == 2
      && CellY(20, l) + l.iconSize > WindowHeightAsWritten(l)
      && TitleY(21, l) >= WindowHeightAsWritten(l)
  {
    var l := CalculateLayout(1536, 21);
    assert l.cols == 20;
    assert Rows(21, 20) == 2;
    assert CellY(20, l) == 64;
  }

  /** The corrected height holds every cell, with a padding below the last
      row, and the whole title bar. */
  lemma WindowHeightHoldsEverything(i: nat, n: nat, l: Layout)
    requires l.cols >= 1 && i < n < 0x1_0000
    ensures CellY(i, l) + l.iconSize + l.padding <= TitleY(n, l)
    ensures TitleY(n, l) + TitleHeight == WindowHeight(n, l)
  {
    CellYInside(i, n, l);
  }

  /** With a single row the corrected height is the one the source uses. */
  lemma WindowHeightOneRow(n: nat, l: Layout)
    requires 1 <= l.cols && n <= l.cols
    ensures WindowHeight(n, l) == WindowHeightAsWritten(l)
  {
    if n > 0 {
      assert (n + l.cols - 1) / l.cols == 1 by {
        RowMajor(n - 1, 1, l.cols);
      }
    } else {
      assert (l.cols - 1) / l.cols == 0;
    }
  }

  // ---------------------------------------------------------------------
  // The event loops (`run_switcher_loop`, `run_test_mode`)

  /** Daemon mode commits on an Alt release; test mode on Return. */
  datatype Mode = Daemon | Test

  datatype Event =
    | Expose
    | KeyPress(detail: byte, shift: bool)
    | KeyRelease(detail: byte)
    | OtherEvent
    | ConnectionError   // `wait_for_event` failed

  /** Open: still waiting for events. */
  datatype Status = Open | Committed(index: nat) | Cancelled | Failed

  datatype Effect =
    | CreateWindow(width: int, height: int)
    | Draw(selected: nat)   // `draw_switcher`: the requests `SwitcherOps(windows, selected, layout)`
    | Activate(window: Window, toplevel: Window)
    | GrabKeyboard
    | UngrabKeyboard
    | DestroyWindow

  /** What one event does: the new status and selection, and the effects it emits. */
  datatype Reaction = Reaction(status: Status, selected: nat, emitted: seq<Effect>)

  datatype Session = Session(status: Status, selected: nat, effects: seq<Effect>)

  /** The events that activate the selection and end the loop. */
  predicate Commits(mode: Mode, ev: Event) {
    match ev
    case KeyRelease(d) => mode == Daemon && (d == AltLKeycode || d == AltRKeycode)
    case KeyPress(d, _) => mode == Test && d == ReturnKeycode
    case _ => false
  }

  /** `activate_window` raises and focuses the window and its top-level
      ancestor, found by the bounded parent walk. */
  function ActivateEffect(srv: Server, root: Window, w: Window): Effect {
    Activate(w, ParentWalk(srv, w, root, w, MaxParentSteps))
  }

  /** One event of the loop with `sel` selected. */
  function Step(mode: Mode, srv: Server, root: Window, wins: seq<WindowInfo>, l: Layout, sel: nat, ev: Event): (r: Reaction)
    requires sel < |wins| && l.cols >= 1
    ensures r.selected < |wins|
    ensures r.selected != sel ==> ev.KeyPress? && ev.detail == TabKeycode
    ensures r.status.Committed? <==> Commits(mode, ev)
    ensures r.status.Committed? ==> r.status.index == sel && r.emitted == [ActivateEffect(srv, root, wins[sel].wid)]
    ensures r.status == Cancelled <==> ev.KeyPress? && ev.detail == EscapeKeycode
    ensures r.status == Failed <==> ev.ConnectionError?
    ensures !r.status.Committed? ==> forall e :: e in r.emitted ==> Redraw(e, |wins|)
    ensures ev.KeyPress? && ev.detail == TabKeycode ==>
      r == Reaction(Open, NavigateSelection(sel, |wins|, ev.shift), [Draw(NavigateSelection(sel, |wins|, ev.shift))])
    ensures ev.Expose? ==> r == Reaction(Open, sel, [Draw(sel)])
    ensures !Commits(mode, ev) && !ev.Expose? && !ev.ConnectionError?
            && !(ev.KeyPress? && (ev.detail == TabKeycode || ev.detail == EscapeKeycode))
            ==> r == Reaction(Open, sel, [])
  {
    match ev
    case Expose => Reaction(Open, sel, [Draw(sel)])
    case KeyPress(d, shift) =>
      if d == TabKeycode then
        var next := NavigateSelection(sel, |wins|, shift);
        Reaction(Open, next, [Draw(next)])
      else if d == ReturnKeycode && mode == Test then
        Reaction(Committed(sel), sel, [ActivateEffect(srv, root, wins[sel].wid)])
      else if d == EscapeKeycode then Reaction(Cancelled, sel, [])
      else Reaction(Open, sel, [])
    case KeyRelease(d) =>
      if mode == Daemon && (d == AltLKeycode || d == AltRKeycode) then
        Reaction(Committed(sel), sel, [ActivateEffect(srv, root, wins[sel].wid)])
      else Reaction(Open, sel, [])
    case OtherEvent => Reaction(Open, sel, [])
    case ConnectionError => Reaction(Failed, sel, [])
  }

  /** The loop over `events`: it stops at the first event that ends it, and
      stays open when the events run out first. */
  function Run(mode: Mode, srv: Server, root: Window, wins: seq<WindowInfo>, l: Layout, s: Session, events: seq<Event>): (r: Session)
    requires s.selected < |wins| && l.cols >= 1
    ensures r.selected < |wins|
    ensures |s.effects| <= |r.effects| && r.effects[..|s.effects|] == s.effects
    ensures s.status != Open ==> r == s
    decreases |events|
  {
    if events == [] || s.status != Open then s
    else
      var re := Step(mode, srv, root, wins, l, s.selected, events[0]);
      Run(mode, srv, root, wins, l, Session(re.status, re.selected, s.effects + re.emitted), events[1..])
  }

  /** The body of the loop for one event: the arm of the `match` that the
      event selects, updating `selected` in place. */
  method HandleEvent(mode: Mode, srv: Server, root: Window, wins: seq<WindowInfo>, l: Layout, selected: nat, ev: Event)
    returns (status: Status, next: nat, emitted: seq<Effect>)
    requires selected < |wins| && l.cols >= 1
    ensures Reaction(status, next, emitted) == Step(mode, srv, root, wins, l, selected, ev)
  {
    status, next, emitted := Open, selected, [];
    match ev {
      case Expose =>
        emitted := [Draw(selected)];
      case KeyPress(detail, shift) =>
        if detail == TabKeycode {
          next := NavigateSelection(selected, |wins|, shift);
          emitted := [Draw(next)];
        } else if detail == ReturnKeycode && mode == Test {
          var top := FindToplevelParent(srv, wins[selected].wid, root);
          emitted := [Activate(wins[selected].wid, top)];
          status := Committed(selected);
        } else if detail == EscapeKeycode {
          status := Cancelled;
        }
      case KeyRelease(detail) =>
        if mode == Daemon && (detail == AltLKeycode || detail == AltRKeycode) {
          var top := FindToplevelParent(srv, wins[selected].wid, root);
          emitted := [Activate(wins[selected].wid, top)];
          status := Committed(selected);
        }
      case OtherEvent =>
      case ConnectionError =>
        status := Failed;
    }
  }

  /** `run_switcher_loop` (daemon mode) and the loop of `run_test_mode`:
      wait for an event, handle it, and stop once it ends the session. */
  method SwitcherLoop(mode: Mode, srv: Server, root: Window, wins: seq<WindowInfo>, l: Layout, start: nat, events: seq<Event>)
    returns (s: Session)
    requires start < |wins| && l.cols >= 1
    ensures s == Run(mode, srv, root, wins, l, Session(Open, start, []), events)
  {
    var selected: nat := start;
    var status := Open;
    var effects: seq<Effect> := [];
    var i := 0;
    while i < |events| && status == Open
      invariant 0 <= i <= |events| && selected < |wins|
      invariant Run(mode, srv, root, wins, l, Session(status, selected, effects), events[i..])
             == Run(mode, srv, root, wins, l, Session(Open, start, []), events)
    {
      RunCons(mode, srv, root, wins, l, Session(status, selected, effects), events[i], events[i + 1..]);
      assert events[i..] == [events[i]] + events[i + 1..];
      var emitted;
      status, selected, emitted := HandleEvent(mode, srv, root, wins, l, selected, events[i]);
      effects := effects + emitted;
      i := i + 1;
    }
    s := Session(status, selected, effects);
  }

  /** A session that starts open with only redraws behind it activates a
      window only if it commits, and then exactly once, as its last effect,
      and the window is the one selected. */
  lemma {:induction false} ActivationOnlyOnCommit(mode: Mode, srv: Server, root: Window, wins: seq<WindowInfo>, l: Layout, s: Session, events: seq<Event>)
    requires s.selected < |wins| && l.cols >= 1 && s.status == Open
    requires forall e :: e in s.effects ==> Redraw(e, |wins|)
    ensures Run(mode, srv, root, wins, l, s, events).status.Committed? ==>
      OnlyDrawsThen(Run(mode, srv, root, wins, l, s, events).effects,
                    ActivateEffect(srv, root, wins[Run(mode, srv, root, wins, l, s, events).selected].wid), |wins|)
      && Run(mode, srv, root, wins, l, s, events).status.index == Run(mode, srv, root, wins, l, s, events).selected
    ensures !Run(mode, srv, root, wins, l, s, events).status.Committed? ==>
      forall e :: e in Run(mode, srv, root, wins, l, s, events).effects ==> Redraw(e, |wins|)
    decreases |events|
  {
    if events != [] {
      var re := Step(mode, srv, root, wins, l, s.selected, events[0]);
      var next := Session(re.status, re.selected, s.effects + re.emitted);
      if re.status == Open {
        ActivationOnlyOnCommit(mode, srv, root, wins, l, next, events[1..]);
      } else if re.status.Committed? {
        var effs := s.effects + re.emitted;
        assert effs[..|effs| - 1] == s.effects;
      }
    }
  }

  /** `effs` is a run of redraws followed by `last`. */
  predicate OnlyDrawsThen(effs: seq<Effect>, last: Effect, count: nat) {
    |effs| >= 1 && effs[|effs| - 1] == last && forall e :: e in effs[..|effs| - 1] ==> Redraw(e, count)
  }

  /** A redraw that highlights one of the `count` listed windows. */
  predicate Redraw(e: Effect, count: nat) {
    e.Draw? && e.selected < count
  }

  /** Escape ends the loop at once, with nothing activated. */
  lemma EscapeCancels(mode: Mode, srv: Server, root: Window, wins: seq<WindowInfo>, l: Layout, s: Session, shift: bool, rest: seq<Event>)
    requires s.selected < |wins| && l.cols >= 1 && s.status == Open
    ensures Run(mode, srv, root, wins, l, s, [KeyPress(EscapeKeycode, shift)] + rest) == Session(Cancelled, s.selected, s.effects)
  {
    var events := [KeyPress(EscapeKeycode, shift)] + rest;
    assert events[0] == KeyPress(EscapeKeycode, shift) && events[1..] == rest;
  }

  /** n presses of Tab. */
  function Tabs(n: nat): seq<Event> {
    if n == 0 then [] else [KeyPress(TabKeycode, false)] + Tabs(n - 1)
  }

  /** n Tab presses and then the committing key activate the window n
      places after the starting one, counting around the list. */
  lemma TabsThenCommit(mode: Mode, srv: Server, root: Window, wins: seq<WindowInfo>, l: Layout, s: Session, n: nat, last: Event)
    requires s.selected < |wins| && l.cols >= 1 && s.status == Open && Commits(mode, last)
    ensures Run(mode, srv, root, wins, l, s, Tabs(n) + [last]).status == Committed((s.selected + n) % |wins|)
  {
    TabsReachForward(mode, srv, root, wins, l, s, n, last);
    ForwardIsModular(s.selected, |wins|, n);
  }

  lemma {:induction false} TabsReachForward(mode: Mode, srv: Server, root: Window, wins: seq<WindowInfo>, l: Layout, s: Session, n: nat, last: Event)
    requires s.selected < |wins| && l.cols >= 1 && s.status == Open && Commits(mode, last)
    ensures Run(mode, srv, root, wins, l, s, Tabs(n) + [last]).status == Committed(Forward(s.selected, |wins|, n))
    decreases n
  {
    if n == 0 {
      CommitNow(mode, srv, root, wins, l, s, last);
    } else {
      var sel := (s.selected + 1) % |wins|;
      TabsReachForward(mode, srv, root, wins, l, Session(Open, sel, s.effects + [Draw(sel)]), n - 1, last);
      TabThenRest(mode, srv, root, wins, l, s, n, last);
    }
  }

  /** The inductive step of `TabsReachForward`: one Tab press, then the
      remaining presses from the next window. */
  lemma TabThenRest(mode: Mode, srv: Server, root: Window, wins: seq<WindowInfo>, l: Layout, s: Session, n: nat, last: Event)
    requires s.selected < |wins| && l.cols >= 1 && s.status == Open && n >= 1
    requires var sel := (s.selected + 1) % |wins|;
      Run(mode, srv, root, wins, l, Session(Open, sel, s.effects + [Draw(sel)]), Tabs(n - 1) + [last]).status
      == Committed(Forward(sel, |wins|, n - 1))
    ensures Run(mode, srv, root, wins, l, s, Tabs(n) + [last]).status == Committed(Forward(s.selected, |wins|, n))
  {
    var rest := Tabs(n - 1) + [last];
    assert Tabs(n) + [last] == [KeyPress(TabKeycode, false)] + rest;
    RunTab(mode, srv, root, wins, l, s, rest);
  }

  /** The committing key activates the current selection and ends the loop. */
  lemma CommitNow(mode: Mode, srv: Server, root: Window, wins: seq<WindowInfo>, l: Layout, s: Session, last: Event)
    requires s.selected < |wins| && l.cols >= 1 && s.status == Open && Commits(mode, last)
    ensures Run(mode, srv, root, wins, l, s, Tabs(0) + [last]).status == Committed(Forward(s.selected, |wins|, 0))
  {
    RunCons(mode, srv, root, wins, l, s, last, []);
    assert Tabs(0) + [last] == [last] + [];
  }

  /** A Tab press redraws with the next window selected. */
  lemma RunTab(mode: Mode, srv: Server, root: Window, wins: seq<WindowInfo>, l: Layout, s: Session, rest: seq<Event>)
    requires s.selected < |wins| && l.cols >= 1 && s.status == Open
    ensures var sel := (s.selected + 1) % |wins|;
      Run(mode, srv, root, wins, l, s, [KeyPress(TabKeycode, false)] + rest)
      == Run(mode, srv, root, wins, l, Session(Open, sel, s.effects + [Draw(sel)]), rest)
  {
    RunCons(mode, srv, root, wins, l, s, KeyPress(TabKeycode, false), rest);
  }

  lemma ModOfSmall(a: nat, m: nat)
    requires a < m
    ensures (a + 0) % m == a
  {
    RowMajor(a, 0, m);
  }

  lemma ModOfSuccessor(a: nat, n: nat, m: nat)
    requires n >= 1 && m >= 1
    ensures ((a + 1) % m + (n - 1)) % m == (a + n) % m
  {
    ModOfSum(a + 1, n - 1, m);
    assert a + 1 + (n - 1) == a + n;
  }

  /** An open session consumes the first event with `Step`. */
  lemma RunCons(mode: Mode, srv: Server, root: Window, wins: seq<WindowInfo>, l: Layout, s: Session, ev: Event, rest: seq<Event>)
    requires s.selected < |wins| && l.cols >= 1 && s.status == Open
    ensures var re := Step(mode, srv, root, wins, l, s.selected, ev);
      Run(mode, srv, root, wins, l, s, [ev] + rest)
      == Run(mode, srv, root, wins, l, Session(re.status, re.selected, s.effects + re.emitted), rest)
  {
    assert ([ev] + rest)[0] == ev && ([ev] + rest)[1..] == rest;
  }

  // ---------------------------------------------------------------------
  // Whole sessions (`show_switcher`, `run_test_mode`)

  /** NoWindows: the list was empty and no loop ran. */
  datatype Outcome = NoWindows(effects: seq<Effect>) | Ran(status: Status, selected: nat, effects: seq<Effect>)

  /** The windows `create_switcher_window` shows, most recently used first. */
  function SwitcherWindows(srv: Server, root: Window, hostLittleEndian: bool): seq<WindowInfo> {
    Dedup(srv, CollectWindowsByZorder(srv, root), {}, IconLookup(srv, hostLittleEndian))
  }

  /** `show_switcher`: create the window; with no windows destroy it and
      stop; otherwise grab the keyboard, run the loop from the initial
      selection and, once it has ended in any way, release the keyboard
      and destroy the window. */
  function ShowSwitcherOutcome(srv: Server, root: Window, maxWidth: u16, shift: bool, hostLittleEndian: bool, events: seq<Event>): Outcome
    requires maxWidth >= Padding
  {
    var wins := SwitcherWindows(srv, root, hostLittleEndian);
    var l := CalculateLayout(maxWidth, |wins|);
    var create := [CreateWindow(l.winWidth, WindowHeight(|wins|, l))];
    if wins == [] then NoWindows(create + [DestroyWindow])
    else
      var s := Run(Daemon, srv, root, wins, l, Session(Open, InitialSelection(|wins|, shift), []), events);
      Ran(s.status, s.selected, create + [GrabKeyboard] + s.effects
                                + (if s.status == Open then [] else [UngrabKeyboard, DestroyWindow]))
  }

  method ShowSwitcher(srv: Server, root: Window, maxWidth: u16, shift: bool, hostLittleEndian: bool, events: seq<Event>)
    returns (out: Outcome)
    requires maxWidth >= Padding
    ensures out == ShowSwitcherOutcome(srv, root, maxWidth, shift, hostLittleEndian, events)
  {
    var list := CollectWindowsByZorder(srv, root);
    var wins := DeduplicateWindows(srv, list, hostLittleEndian);
    var l := CalculateLayout(maxWidth, |wins|);
    var effects := [CreateWindow(l.winWidth, WindowHeight(|wins|, l))];
    if |wins| == 0 {
      return NoWindows(effects + [DestroyWindow]);
    }
    var selected := InitialSelection(|wins|, shift);
    effects := effects + [GrabKeyboard];
    var s := SwitcherLoop(Daemon, srv, root, wins, l, selected, events);
    effects := effects + s.effects;
    if s.status != Open {
      effects := effects + [UngrabKeyboard, DestroyWindow];
    }
    out := Ran(s.status, s.selected, effects);
  }

  /** `run_test_mode`: like `show_switcher` but starting at the first
      window, committing on Return, without a keyboard grab, and leaving
      the window in place (also when the list is empty). */
  function TestModeOutcome(srv: Server, root: Window, maxWidth: u16, hostLittleEndian: bool, events: seq<Event>): Outcome
    requires maxWidth >= Padding
  {
    var wins := SwitcherWindows(srv, root, hostLittleEndian);
    var l := CalculateLayout(maxWidth, |wins|);
    var create := [CreateWindow(l.winWidth, WindowHeight(|wins|, l))];
    if wins == [] then NoWindows(create)
    else
      var s := Run(Test, srv, root, wins, l, Session(Open, 0, []), events);
      Ran(s.status, s.selected, create + s.effects)
  }

  method RunTestMode(srv: Server, root: Window, maxWidth: u16, hostLittleEndian: bool, events: seq<Event>)
    returns (out: Outcome)
    requires maxWidth >= Padding
    ensures out == TestModeOutcome(srv, root, maxWidth, hostLittleEndian, events)
  {
    var list := CollectWindowsByZorder(srv, root);
    var wins := DeduplicateWindows(srv, list, hostLittleEndian);
    var l := CalculateLayout(maxWidth, |wins|);
    var effects := [CreateWindow(l.winWidth, WindowHeight(|wins|, l))];
    if |wins| == 0 {
      return NoWindows(effects);
    }
    var s := SwitcherLoop(Test, srv, root, wins, l, 0, events);
    out := Ran(s.status, s.selected, effects + s.effects);
  }

  /** Whatever ends the daemon-mode loop (a commit, Escape or a connection
      error), the keyboard grabbed right after the window was created is
      released and the window destroyed as the last two effects, and
      nothing else grabs, releases, creates or destroys. Nothing is ever
      activated when there are no windows. */
  lemma ShowSwitcherCleansUp(srv: Server, root: Window, maxWidth: u16, shift: bool, le: bool, events: seq<Event>)
    requires maxWidth >= Padding
    ensures var out := ShowSwitcherOutcome(srv, root, maxWidth, shift, le, events);
      && (out.NoWindows? ==> |out.effects| == 2 && out.effects[1] == DestroyWindow)
      && (out.Ran? && out.status != Open ==>
            |out.effects| >= 4 && out.effects[1] == GrabKeyboard
            && out.effects[|out.effects| - 2..] == [UngrabKeyboard, DestroyWindow]
            && forall e :: e in out.effects[2..|out.effects| - 2] ==> e.Draw? || e.Activate?)
  {
    var wins := SwitcherWindows(srv, root, le);
    if wins != [] {
      var l := CalculateLayout(maxWidth, |wins|);
      var start := Session(Open, InitialSelection(|wins|, shift), []);
      RunEmitsDrawsAndActivation(Daemon, srv, root, wins, l, start, events);
      var s := Run(Daemon, srv, root, wins, l, start, events);
      BracketedByGrab(CreateWindow(l.winWidth, WindowHeight(|wins|, l)), s.effects);
    }
  }

  /** A run from a fresh session emits only redraws and activations. */
  lemma RunEmitsDrawsAndActivation(mode: Mode, srv: Server, root: Window, wins: seq<WindowInfo>, l: Layout, s: Session, events: seq<Event>)
    requires s.selected < |wins| && l.cols >= 1 && s.status == Open && s.effects == []
    ensures forall e :: e in Run(mode, srv, root, wins, l, s, events).effects ==> e.Draw? || e.Activate?
  {
    ActivationOnlyOnCommit(mode, srv, root, wins, l, s, events);
    var r := Run(mode, srv, root, wins, l, s, events);
    if r.status.Committed? {
      var n := |r.effects|;
      var last := ActivateEffect(srv, root, wins[r.selected].wid);
      assert OnlyDrawsThen(r.effects, last, |wins|);
      forall e | e in r.effects
        ensures e.Draw? || e.Activate?
      {
        var i :| 0 <= i < n && r.effects[i] == e;
        if i < n - 1 {
          assert e in r.effects[..n - 1];
          assert Redraw(e, |wins|);
        } else {
          assert e == last;
        }
      }
    }
  }

  lemma BracketedByGrab(create: Effect, effs: seq<Effect>)
    requires forall e :: e in effs ==> e.Draw? || e.Activate?
    ensures var all := [create] + [GrabKeyboard] + effs + [UngrabKeyboard, DestroyWindow];
      && |all| >= 4 && all[1] == GrabKeyboard
      && all[|all| - 2..] == [UngrabKeyboard, DestroyWindow]
      && all[2..|all| - 2] == effs
  {
    var all := [create] + [GrabKeyboard] + effs + [UngrabKeyboard, DestroyWindow];
    assert all[2..|all| - 2] == effs;
  }

  /** A quick Alt+Tab (Alt released before any other key) activates the
      window used before the current one. */
  lemma QuickAltTabSwitchesToPrevious(srv: Server, root: Window, maxWidth: u16, le: bool)
    requires maxWidth >= Padding && |SwitcherWindows(srv, root, le)| >= 2
    ensures var wins := SwitcherWindows(srv, root, le);
      var out := ShowSwitcherOutcome(srv, root, maxWidth, false, le, [KeyRelease(AltLKeycode)]);
      out == Ran(Committed(1), 1,
                 [CreateWindow(CalculateLayout(maxWidth, |wins|).winWidth, WindowHeight(|wins|, CalculateLayout(maxWidth, |wins|))),
                  GrabKeyboard, ActivateEffect(srv, root, wins[1].wid), UngrabKeyboard, DestroyWindow])
  {
    var wins := SwitcherWindows(srv, root, le);
    var l := CalculateLayout(maxWidth, |wins|);
    var events := [KeyRelease(AltLKeycode)];
    assert events[1..] == [];
  }
}

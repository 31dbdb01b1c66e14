/** Window discovery (src/window.rs): titles, the depth-capped search for a
    titled window, most-recently-used collection and the walk up to the
    top-level ancestor. */
module Windows {
  import opened Base
  import opened Utf8
  import opened XServer

  // ---------------------------------------------------------------------
  // Titles

  /** `get_net_wm_name`: the `_NET_WM_NAME` value when it is non-empty,
      valid UTF-8 and not blank. */
  function GetNetWmName(srv: Server, w: Window): (r: Option<string>)
    ensures r.Some? ==> !Blank(r.value) && w in srv.netWmName && Encode(r.value) == srv.netWmName[w]
  {
    if w !in srv.netWmName then None
    else
      var v := srv.netWmName[w];
      if v == [] then None
      else match Decode(v)
        case None => None
        case Some(s) =>
          EncodeDecode(v);
          if Blank(s) then None else Some(s)
  }

  /** `get_wm_name`: `WM_NAME` read as UTF-8 when that gives a non-blank
      string, otherwise byte by byte as Latin-1; `None` when that too is blank. */
  function GetWmName(srv: Server, w: Window): (r: Option<string>)
    ensures r.Some? ==> !Blank(r.value)
  {
    if w !in srv.wmName then None
    else
      var v := srv.wmName[w];
      if v == [] then None
      else
        var utf := Decode(v);
        if utf.Some? && !Blank(utf.value) then utf
        else
          var s := Latin1(v);
          if Blank(s) then None else Some(s)
  }

  /** `get_window_title`: `_NET_WM_NAME` first, `WM_NAME` only as a fallback. */
  function GetWindowTitle(srv: Server, w: Window): (r: Option<string>)
    ensures r.Some? ==> |r.value| > 0 && !Blank(r.value)
  {
    match GetNetWmName(srv, w)
    case Some(t) => Some(t)
    case None => GetWmName(srv, w)
  }

  /** When `_NET_WM_NAME` gives a title: exactly when the property is
      present, valid UTF-8 and not blank, and then it is the decoded value. */
  lemma NetWmNamePresence(srv: Server, w: Window)
    ensures GetNetWmName(srv, w).Some? <==>
      w in srv.netWmName && Decode(srv.netWmName[w]).Some? && !Blank(Decode(srv.netWmName[w]).value)
    ensures GetNetWmName(srv, w).Some? ==> GetNetWmName(srv, w) == Decode(srv.netWmName[w])
  {
  }

  /** `WM_NAME` is the fallback: without a `_NET_WM_NAME` title, the title
      is whatever `WM_NAME` gives. */
  lemma TitleFallsBack(srv: Server, w: Window)
    ensures GetNetWmName(srv, w).None? ==> GetWindowTitle(srv, w) == GetWmName(srv, w)
  {
  }

  /** A `WM_NAME` title is either the property's bytes unchanged (valid,
      non-blank UTF-8) or their Latin-1 reading, one char per byte; there is
      one exactly when the property is present and the chosen reading is not
      blank. */
  lemma WmNameReading(srv: Server, w: Window)
    ensures w !in srv.wmName ==> GetWmName(srv, w).None?
    ensures w in srv.wmName ==>
      var v := srv.wmName[w];
      GetWmName(srv, w) ==
        if Decode(v).Some? && !Blank(Decode(v).value) then Decode(v)
        else if Blank(Latin1(v)) then None
        else Some(Latin1(v))
    ensures GetWmName(srv, w).Some? ==>
      var v, t := srv.wmName[w], GetWmName(srv, w).value;
      if Decode(v).Some? && !Blank(Decode(v).value)
      then Encode(t) == v
      else |t| == |v| && forall i :: 0 <= i < |v| ==> t[i] as int == v[i]
  {
    if w in srv.wmName {
      var v := srv.wmName[w];
      if Decode(v).Some? {
        EncodeDecode(v);
      }
    }
  }

  /** `WM_NAME` is not consulted when `_NET_WM_NAME` gives a title: changing
      it cannot change the result. */
  lemma TitlePrefersNetWmName(srv: Server, w: Window, wmName': map<Window, seq<byte>>)
    requires GetNetWmName(srv, w).Some?
    ensures GetWindowTitle(srv.(wmName := wmName'), w) == GetNetWmName(srv, w)
  {
  }

  // ---------------------------------------------------------------------
  // Depth-capped search

  const MaxSearchDepth: nat := 10

  /** The measure that bounds the search: how many more levels it may enter. */
  function Budget(depth: nat): nat {
    if depth <= MaxSearchDepth + 1 then MaxSearchDepth + 1 - depth else 0
  }

  /** `find_window_with_title`: the window itself when it is viewable and
      titled; otherwise the first child, in child-list order, whose own
      search succeeds; `None` past depth 10 or when the tree query fails. */
  function FindWindowWithTitle(srv: Server, w: Window, depth: nat): (r: Option<(Window, string)>)
    ensures depth > MaxSearchDepth ==> r == None
    ensures r.Some? ==> r.value.0 in srv.viewable && GetWindowTitle(srv, r.value.0) == Some(r.value.1)
    ensures depth <= MaxSearchDepth && w in srv.viewable && GetWindowTitle(srv, w).Some? ==>
              r == Some((w, GetWindowTitle(srv, w).value))
    decreases Budget(depth), 0
  {
    if depth > MaxSearchDepth then None
    else if w in srv.viewable && GetWindowTitle(srv, w).Some? then
      Some((w, GetWindowTitle(srv, w).value))
    else if w !in srv.tree then None
    else FindInChildren(srv, srv.tree[w].children, depth + 1)
  }

  /** The `for child in tree.children` loop: the first child whose search succeeds. */
  function FindInChildren(srv: Server, children: seq<Window>, depth: nat): (r: Option<(Window, string)>)
    ensures r.Some? ==> r.value.0 in srv.viewable && GetWindowTitle(srv, r.value.0) == Some(r.value.1)
    decreases Budget(depth), |children|
  {
    if children == [] then None
    else match FindWindowWithTitle(srv, children[0], depth)
      case Some(found) => Some(found)
      case None => FindInChildren(srv, children[1..], depth)
  }

  /** The child loop is a first-match search: it returns the result of the
      first child that succeeds, and `None` exactly when none does. */
  lemma {:induction false} FindInChildrenFirstMatch(srv: Server, children: seq<Window>, depth: nat)
    ensures FindInChildren(srv, children, depth).None? <==>
              forall j :: 0 <= j < |children| ==> FindWindowWithTitle(srv, children[j], depth).None?
    ensures FindInChildren(srv, children, depth).Some? ==>
              exists i :: 0 <= i < |children|
                && FindInChildren(srv, children, depth) == FindWindowWithTitle(srv, children[i], depth)
                && forall j :: 0 <= j < i ==> FindWindowWithTitle(srv, children[j], depth).None?
    decreases |children|
  {
    if children != [] {
      FindInChildrenFirstMatch(srv, children[1..], depth);
      if FindWindowWithTitle(srv, children[0], depth).None? {
        if FindInChildren(srv, children, depth).Some? {
          var i :| 0 <= i < |children| - 1
            && FindInChildren(srv, children[1..], depth) == FindWindowWithTitle(srv, children[1..][i], depth)
            && forall j :: 0 <= j < i ==> FindWindowWithTitle(srv, children[1..][j], depth).None?;
          assert FindInChildren(srv, children, depth) == FindWindowWithTitle(srv, children[i + 1], depth);
          forall j | 0 <= j < i + 1
            ensures FindWindowWithTitle(srv, children[j], depth).None?
          {
            if j > 0 { assert children[j] == children[1..][j - 1]; }
          }
        } else {
          forall j | 0 <= j < |children|
            ensures FindWindowWithTitle(srv, children[j], depth).None?
          {
            if j > 0 { assert children[j] == children[1..][j - 1]; }
          }
        }
      }
    }
  }

  /** `b` lies at most `k` levels below `a` in the reported tree. */
  ghost predicate ReachableWithin(srv: Server, a: Window, b: Window, k: nat)
    decreases k
  {
    a == b
    || (k > 0 && a in srv.tree
        && exists i :: 0 <= i < |srv.tree[a].children| && ReachableWithin(srv, srv.tree[a].children[i], b, k - 1))
  }

  /** The search never looks more than `10 - depth` levels below where it
      starts, so a search started at depth 0 visits at most 11 levels. */
  lemma {:induction false} FindStaysWithinDepth(srv: Server, w: Window, depth: nat)
    requires FindWindowWithTitle(srv, w, depth).Some?
    ensures depth <= MaxSearchDepth
    ensures ReachableWithin(srv, w, FindWindowWithTitle(srv, w, depth).value.0, MaxSearchDepth - depth)
    decreases Budget(depth), 0
  {
    if w in srv.viewable && GetWindowTitle(srv, w).Some? {
    } else {
      var cs := srv.tree[w].children;
      var i := ChildrenStayWithinDepth(srv, cs, depth + 1);
      assert ReachableWithin(srv, cs[i], FindWindowWithTitle(srv, w, depth).value.0, MaxSearchDepth - depth - 1);
    }
  }

  /** The converse: a viewable, titled window within `10 - depth` levels
      of `w` guarantees that the search from `w` finds something. */
  lemma {:induction false} FindFindsReachable(srv: Server, w: Window, b: Window, depth: nat)
    requires depth <= MaxSearchDepth && ReachableWithin(srv, w, b, MaxSearchDepth - depth)
    requires b in srv.viewable && GetWindowTitle(srv, b).Some?
    ensures FindWindowWithTitle(srv, w, depth).Some?
    decreases MaxSearchDepth - depth
  {
    if !(w in srv.viewable && GetWindowTitle(srv, w).Some?) {
      assert w != b;
      var cs := srv.tree[w].children;
      var i :| 0 <= i < |cs| && ReachableWithin(srv, cs[i], b, MaxSearchDepth - depth - 1);
      FindFindsReachable(srv, cs[i], b, depth + 1);
      FindInChildrenFirstMatch(srv, cs, depth + 1);
    }
  }

  lemma {:induction false} ChildrenStayWithinDepth(srv: Server, children: seq<Window>, depth: nat) returns (i: nat)
    requires FindInChildren(srv, children, depth).Some?
    ensures depth <= MaxSearchDepth && i < |children|
    ensures ReachableWithin(srv, children[i], FindInChildren(srv, children, depth).value.0, MaxSearchDepth - depth)
    decreases Budget(depth), |children|
  {
    if FindWindowWithTitle(srv, children[0], depth).Some? {
      FindStaysWithinDepth(srv, children[0], depth);
      i := 0;
    } else {
      var j := ChildrenStayWithinDepth(srv, children[1..], depth);
      i := j + 1;
    }
  }

  // ---------------------------------------------------------------------
  // Most-recently-used collection

  function Reverse<T>(s: seq<T>): (r: seq<T>)
    ensures |r| == |s| && forall i :: 0 <= i < |s| ==> r[i] == s[|s| - 1 - i]
  {
    if s == [] then [] else Reverse(s[1..]) + [s[0]]
  }

  /** Rust's `filter_map`: the `Some` results of `f`, in order. */
  function FilterMap<T, U>(f: T -> Option<U>, s: seq<T>): seq<U>
  {
    if s == [] then []
    else match f(s[0])
      case Some(u) => [u] + FilterMap(f, s[1..])
      case None => FilterMap(f, s[1..])
  }

  /** The search run on each child of the root, starting at depth 0. */
  function TopSearch(srv: Server): Window -> Option<(Window, string)> {
    w => FindWindowWithTitle(srv, w, 0)
  }

  /** `collect_windows_by_zorder`: the root's children top-to-bottom, each
      replaced by its search result; empty when the root query fails. */
  function CollectWindowsByZorder(srv: Server, root: Window): (r: seq<(Window, string)>)
    ensures root !in srv.tree ==> r == []
  {
    if root !in srv.tree then []
    else FilterMap(TopSearch(srv), Reverse(srv.tree[root].children))
  }

  /** Which positions of `s`, counted from `base`, contributed to `FilterMap(f, s)`. */
  ghost function Origins<T, U>(f: T -> Option<U>, s: seq<T>, base: nat): seq<nat>
  {
    if s == [] then []
    else (if f(s[0]).Some? then [base] else []) + Origins(f, s[1..], base + 1)
  }

  lemma {:induction false} OriginsInRange<T, U>(f: T -> Option<U>, s: seq<T>, base: nat)
    ensures var o := Origins(f, s, base);
      && |o| == |FilterMap(f, s)| <= |s|
      && (forall k :: 0 <= k < |o| ==> base <= o[k] < base + |s|)
      && (forall k, l :: 0 <= k < l < |o| ==> o[k] < o[l])
  {
    if s != [] {
      OriginsInRange(f, s[1..], base + 1);
    }
  }

  /** Position `o` (counted from `base`) of `s` is where result `u` came from. */
  ghost predicate OriginOf<T, U>(f: T -> Option<U>, s: seq<T>, base: nat, o: nat, u: U) {
    base <= o && o - base < |s| && f(s[o - base]) == Some(u)
  }

  lemma {:induction false} OriginsFound<T, U>(f: T -> Option<U>, s: seq<T>, base: nat)
    ensures forall k :: 0 <= k < |Origins(f, s, base)| && k < |FilterMap(f, s)| ==>
      OriginOf(f, s, base, Origins(f, s, base)[k], FilterMap(f, s)[k])
  {
    if s != [] {
      OriginsFound(f, s[1..], base + 1);
      OriginsFoundStep(f, s, base);
    }
  }

  /** The inductive step of `OriginsFound`: from the tail to the whole sequence. */
  lemma OriginsFoundStep<T, U>(f: T -> Option<U>, s: seq<T>, base: nat)
    requires s != []
    requires forall k :: 0 <= k < |Origins(f, s[1..], base + 1)| && k < |FilterMap(f, s[1..])| ==>
      OriginOf(f, s[1..], base + 1, Origins(f, s[1..], base + 1)[k], FilterMap(f, s[1..])[k])
    ensures forall k :: 0 <= k < |Origins(f, s, base)| && k < |FilterMap(f, s)| ==>
      OriginOf(f, s, base, Origins(f, s, base)[k], FilterMap(f, s)[k])
  {
    var o, o' := Origins(f, s, base), Origins(f, s[1..], base + 1);
    var r, r' := FilterMap(f, s), FilterMap(f, s[1..]);
    if f(s[0]).Some? {
      assert o == [base] + o' && r == [f(s[0]).value] + r';
      forall k | 0 < k < |o| && k < |r|
        ensures OriginOf(f, s, base, o[k], r[k])
      {
        var j := k - 1;
        assert o[k] == o'[j] && r[k] == r'[j];
        assert OriginOf(f, s[1..], base + 1, o'[j], r'[j]);
        assert s[o[k] - base] == s[1..][o'[j] - (base + 1)];
      }
    } else {
      assert o == o' && r == r';
      forall k | 0 <= k < |o| && k < |r|
        ensures OriginOf(f, s, base, o[k], r[k])
      {
        assert OriginOf(f, s[1..], base + 1, o'[k], r'[k]);
        assert s[o[k] - base] == s[1..][o'[k] - (base + 1)];
      }
    }
  }

  lemma {:induction false} OriginsCover<T, U>(f: T -> Option<U>, s: seq<T>, base: nat)
    ensures forall i :: 0 <= i < |s| && base + i !in Origins(f, s, base) ==> f(s[i]).None?
  {
    if s != [] {
      OriginsCover(f, s[1..], base + 1);
      var o' := Origins(f, s[1..], base + 1);
      forall i | 0 < i < |s| && base + i !in Origins(f, s, base)
        ensures f(s[i]).None?
      {
        assert s[i] == s[1..][i - 1];
        assert base + 1 + (i - 1) !in o';
      }
    }
  }

  /** Which positions of `s`, counted from its end, contributed to
      `FilterMap(f, Reverse(s))`. */
  ghost function FromTop<T, U>(f: T -> Option<U>, s: seq<T>): seq<nat> {
    Origins(f, Reverse(s), 0)
  }

  /** `FilterMap` over the reversed sequence keeps, in order, one result per
      contributing position counted from the end; a position that does not
      contribute yields `None`. */
  lemma FilterMapReversed<T, U>(f: T -> Option<U>, s: seq<T>)
    ensures |FromTop(f, s)| == |FilterMap(f, Reverse(s))| <= |s|
    ensures forall k :: 0 <= k < |FromTop(f, s)| ==>
      FromTop(f, s)[k] < |s| && f(s[|s| - 1 - FromTop(f, s)[k]]) == Some(FilterMap(f, Reverse(s))[k])
    ensures forall k, l :: 0 <= k < l < |FromTop(f, s)| ==> FromTop(f, s)[k] < FromTop(f, s)[l]
    ensures forall i :: 0 <= i < |s| && i !in FromTop(f, s) ==> f(s[|s| - 1 - i]).None?
  {
    var rev, r, o := Reverse(s), FilterMap(f, Reverse(s)), FromTop(f, s);
    OriginsInRange(f, rev, 0);
    OriginsFound(f, rev, 0);
    OriginsCover(f, rev, 0);
    forall k | 0 <= k < |o|
      ensures o[k] < |s| && f(s[|s| - 1 - o[k]]) == Some(r[k])
    {
      assert OriginOf(f, rev, 0, o[k], r[k]);
      assert rev[o[k]] == s[|s| - 1 - o[k]];
    }
    forall i | 0 <= i < |s| && i !in o
      ensures f(s[|s| - 1 - i]).None?
    {
      assert f(rev[i]).None?;
    }
  }

  /** The MRU list holds at most one entry per top-level window, taken from
      the top of the stack downwards; a top-level window it skips found
      nothing (`TopSearch(srv)(w)` is the search from `w` at depth 0). */
  lemma CollectWindowsOrder(srv: Server, root: Window, cs: seq<Window>)
    requires root in srv.tree && cs == srv.tree[root].children
    ensures |FromTop(TopSearch(srv), cs)| == |CollectWindowsByZorder(srv, root)| <= |cs|
    ensures forall k :: 0 <= k < |FromTop(TopSearch(srv), cs)| ==>
      FromTop(TopSearch(srv), cs)[k] < |cs|
      && TopSearch(srv)(cs[|cs| - 1 - FromTop(TopSearch(srv), cs)[k]]) == Some(CollectWindowsByZorder(srv, root)[k])
    ensures forall k, l :: 0 <= k < l < |FromTop(TopSearch(srv), cs)| ==>
      FromTop(TopSearch(srv), cs)[k] < FromTop(TopSearch(srv), cs)[l]
    ensures forall i :: 0 <= i < |cs| && i !in FromTop(TopSearch(srv), cs) ==> TopSearch(srv)(cs[|cs| - 1 - i]).None?
  {
    FilterMapReversed(TopSearch(srv), cs);
  }

  // ---------------------------------------------------------------------
  // Top-level ancestor

  const MaxParentSteps: nat := 20

  /** The parent link is root or 0: the window is a direct child of the root. */
  predicate IsTopLevel(srv: Server, w: Window, root: Window)
  {
    w in srv.tree && (srv.tree[w].parent == root || srv.tree[w].parent == 0)
  }

  /** The window `k` parent links above `w`, when every query on the way succeeds. */
  function Ancestor(srv: Server, w: Window, k: nat): Option<Window>
  {
    if k == 0 then Some(w)
    else match Ancestor(srv, w, k - 1)
      case None => None
      case Some(a) => if a in srv.tree then Some(srv.tree[a].parent) else None
  }

  /** The walk of `find_toplevel_parent` from `current` with `steps` steps left. */
  function ParentWalk(srv: Server, window: Window, root: Window, current: Window, steps: nat): Window
    decreases steps
  {
    if steps == 0 || current !in srv.tree then window
    else if IsTopLevel(srv, current, root) then current
    else ParentWalk(srv, window, root, srv.tree[current].parent, steps - 1)
  }

  /** `find_toplevel_parent`: walks up at most 20 parent links. */
  method FindToplevelParent(srv: Server, window: Window, root: Window) returns (top: Window)
    ensures top == ParentWalk(srv, window, root, window, MaxParentSteps)
  {
    var current := window;
    var i := 0;
    while i < MaxParentSteps
      invariant 0 <= i <= MaxParentSteps
      invariant ParentWalk(srv, window, root, current, MaxParentSteps - i) == ParentWalk(srv, window, root, window, MaxParentSteps)
    {
      if current !in srv.tree {
        return window;
      }
      var reply := srv.tree[current];
      if reply.parent == root || reply.parent == 0 {
        return current;
      }
      current := reply.parent;
      i := i + 1;
    }
    return window;
  }

  /** The walk's result is the original window, or the first top-level
      window among the first 20 ancestors. */
  lemma {:induction false} ParentWalkFindsFirstTopLevel(srv: Server, window: Window, root: Window, start: nat, steps: nat)
    requires Ancestor(srv, window, start).Some?
    ensures var r := ParentWalk(srv, window, root, Ancestor(srv, window, start).value, steps);
      r == window
      || (exists k :: start <= k < start + steps && Ancestor(srv, window, k) == Some(r) && IsTopLevel(srv, r, root)
            && forall j :: start <= j < k ==> Ancestor(srv, window, j).Some? && !IsTopLevel(srv, Ancestor(srv, window, j).value, root))
    decreases steps
  {
    var cur := Ancestor(srv, window, start).value;
    if steps > 0 && cur in srv.tree && !IsTopLevel(srv, cur, root) {
      assert Ancestor(srv, window, start + 1) == Some(srv.tree[cur].parent);
      ParentWalkFindsFirstTopLevel(srv, window, root, start + 1, steps - 1);
    }
  }

  /** The k-th ancestor is the first top-level one: it and every window
      below it on the way up were queried successfully. */
  predicate FirstTopLevelAt(srv: Server, window: Window, root: Window, k: nat)
  {
    && Ancestor(srv, window, k).Some? && IsTopLevel(srv, Ancestor(srv, window, k).value, root)
    && forall j :: 0 <= j < k ==> Ancestor(srv, window, j).Some? && !IsTopLevel(srv, Ancestor(srv, window, j).value, root)
  }

  /** A walk that starts at ancestor `start` with enough steps left stops at
      the first top-level ancestor. */
  lemma {:induction false} ParentWalkReachesTopLevel(srv: Server, window: Window, root: Window, start: nat, steps: nat, k: nat)
    requires start <= k < start + steps && FirstTopLevelAt(srv, window, root, k)
    ensures Ancestor(srv, window, start).Some?
    ensures ParentWalk(srv, window, root, Ancestor(srv, window, start).value, steps) == Ancestor(srv, window, k).value
    decreases steps
  {
    if start < k {
      var cur := Ancestor(srv, window, start).value;
      assert !IsTopLevel(srv, cur, root);
      assert Ancestor(srv, window, start + 1).Some?;
      assert cur in srv.tree;
      ParentWalkReachesTopLevel(srv, window, root, start + 1, steps - 1, k);
    }
  }

  /** A walk that meets no first top-level ancestor within its steps falls
      back to the original window. */
  lemma {:induction false} ParentWalkWithoutTopLevel(srv: Server, window: Window, root: Window, start: nat, steps: nat)
    requires Ancestor(srv, window, start).Some?
    requires forall j :: 0 <= j < start ==> Ancestor(srv, window, j).Some? && !IsTopLevel(srv, Ancestor(srv, window, j).value, root)
    requires forall k :: start <= k < start + steps ==> !FirstTopLevelAt(srv, window, root, k)
    ensures ParentWalk(srv, window, root, Ancestor(srv, window, start).value, steps) == window
    decreases steps
  {
    var cur := Ancestor(srv, window, start).value;
    if steps > 0 && cur in srv.tree {
      assert !FirstTopLevelAt(srv, window, root, start);
      assert !IsTopLevel(srv, cur, root);
      assert Ancestor(srv, window, start + 1) == Some(srv.tree[cur].parent);
      ParentWalkWithoutTopLevel(srv, window, root, start + 1, steps - 1);
    }
  }

  /** `find_toplevel_parent`'s promise for the whole walk: the first
      top-level ancestor within 20 links when there is one, the window
      itself otherwise. */
  lemma ToplevelParentIsFirstTopLevelAncestor(srv: Server, window: Window, root: Window)
    ensures var r := ParentWalk(srv, window, root, window, MaxParentSteps);
      r == window
      || (exists k :: 0 <= k < MaxParentSteps && Ancestor(srv, window, k) == Some(r) && IsTopLevel(srv, r, root)
            && forall j :: 0 <= j < k ==> Ancestor(srv, window, j).Some? && !IsTopLevel(srv, Ancestor(srv, window, j).value, root))
    ensures forall k :: 0 <= k < MaxParentSteps && FirstTopLevelAt(srv, window, root, k) ==>
      ParentWalk(srv, window, root, window, MaxParentSteps) == Ancestor(srv, window, k).value
    ensures (forall k :: 0 <= k < MaxParentSteps ==> !FirstTopLevelAt(srv, window, root, k)) ==>
      ParentWalk(srv, window, root, window, MaxParentSteps) == window
  {
    ParentWalkFindsFirstTopLevel(srv, window, root, 0, MaxParentSteps);
    forall k | 0 <= k < MaxParentSteps && FirstTopLevelAt(srv, window, root, k)
      ensures ParentWalk(srv, window, root, window, MaxParentSteps) == Ancestor(srv, window, k).value
    {
      ParentWalkReachesTopLevel(srv, window, root, 0, MaxParentSteps, k);
    }
    if forall k :: 0 <= k < MaxParentSteps ==> !FirstTopLevelAt(srv, window, root, k) {
      ParentWalkWithoutTopLevel(srv, window, root, 0, MaxParentSteps);
    }
  }
}

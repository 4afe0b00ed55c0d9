/**
 * The tab strip controller of the navigation component: which tabs fit in
 * the strip and which overflow into the "More" menu, which tab is active,
 * and what happens when a tab is clicked.
 *
 * The controller is a small immutable record; each handler returns the new
 * record together with the effects it caused on its collaborators (the
 * deferred measurement, location writes, change notifications).
 */
module HawtioTabs {
  import opened Wrappers

  /** A tab. `ref` stands for the object's identity, the thing JavaScript's
      `===` compares; `title` is the source's `label` (a reserved word here); `visible` is undefined until the tab has been measured. */
  datatype Tab = Tab(ref: nat, title: string, path: string, visible: Option<bool>)

  /** The controller's fields: the bound tab list (possibly undefined), the
      "measurement pending" flag and the active tab. */
  datatype Controller = Controller(tabs: Option<seq<Tab>>, adjustingTabs: bool, activeTab: Option<Tab>)

  /** What a handler does to the outside world. */
  datatype Effect =
    | MeasurementScheduled      // the width computation is deferred to after the next render
    | LocationWrite(path: string)
    | ChangeNotified(tab: Tab)   // the `onChange` output binding fired with this tab

  datatype Step = Step(ctrl: Controller, effects: seq<Effect>)

  /** One entry of the framework's changes object: absent, or present with its current value. */
  datatype Change<T> = Unchanged | ChangedTo(currentValue: T)

  datatype Changes = Changes(tabs: Change<Option<seq<Tab>>>, activeTab: Change<Option<Tab>>)

  /** The tab list as something to index; an undefined list has no tabs. */
  function TabList(c: Controller): seq<Tab> {
    c.tabs.GetOr([])
  }

  predicate SameObject(a: Tab, b: Tab) {
    a.ref == b.ref
  }

  // ---------------------------------------------------------------------
  // Width partition
  // ---------------------------------------------------------------------

  function Sum(s: seq<int>): int {
    if |s| == 0 then 0 else s[0] + Sum(s[1..])
  }

  /** Total width of the tabs 0..i inclusive. */
  function PrefixSum(widths: seq<int>, i: nat): int
    requires i < |widths|
  {
    Sum(widths[..i + 1])
  }

  lemma {:induction false} SumSnoc(s: seq<int>, x: int)
    ensures Sum(s + [x]) == Sum(s) + x
  {
    if |s| == 0 {
      assert s + [x] == [x];
    } else {
      assert (s + [x])[1..] == s[1..] + [x];
      SumSnoc(s[1..], x);
    }
  }

  /** Splitting off the first tab from every prefix sum. */
  lemma PrefixSumTail(widths: seq<int>)
    requires |widths| > 0
    ensures PrefixSum(widths, 0) == widths[0]
    ensures forall i :: 0 <= i < |widths| - 1 ==> PrefixSum(widths, i + 1) == widths[0] + PrefixSum(widths[1..], i)
  {
    assert widths[..1][1..] == [];
    assert Sum(widths[..1]) == widths[..1][0] + Sum(widths[..1][1..]);
    forall i | 0 <= i < |widths| - 1
      ensures PrefixSum(widths, i + 1) == widths[0] + PrefixSum(widths[1..], i)
    {
      assert widths[..i + 2][1..] == widths[1..][..i + 1];
    }
  }

  /** With non-negative widths the running total never decreases. */
  lemma {:induction false} PrefixSumMonotone(widths: seq<int>, i: nat, j: nat)
    requires forall k :: 0 <= k < |widths| ==> widths[k] >= 0
    requires i <= j < |widths|
    ensures PrefixSum(widths, i) <= PrefixSum(widths, j)
  {
    if i < j {
      PrefixSumMonotone(widths, i, j - 1);
      assert widths[..j + 1] == widths[..j] + [widths[j]];
      SumSnoc(widths[..j], widths[j]);
    }
  }

  /** The flags the measurement loop assigns: it walks the rendered tabs left
      to right, adds each width to a running total that starts at `acc`, and
      marks the tab visible while the total stays below `available`. */
  function Flags(widths: seq<int>, available: int, acc: int): (r: seq<bool>)
    ensures |r| == |widths|
    ensures forall i :: 0 <= i < |widths| ==> (r[i] <==> acc + PrefixSum(widths, i) < available)
    decreases |widths|
  {
    if |widths| == 0 then []
    else
      var total := acc + widths[0];
      var rest := Flags(widths[1..], available, total);
      PrefixSumTail(widths);
      [total < available] + rest
  }

  /** Sets `visible` of tab i from flag i, for every i both lists have. */
  function Mark(tabs: seq<Tab>, flags: seq<bool>): (r: seq<Tab>)
    ensures |r| == |tabs|
  {
    seq(|tabs|, i requires 0 <= i < |tabs| =>
      if i < |flags| then tabs[i].(visible := Some(flags[i])) else tabs[i])
  }

  /** What a change of the bound inputs does first: mark the strip as being
      adjusted and schedule the measurement for after the next render. */
  function BeginAdjust(c: Controller): (r: Step)
    ensures r.ctrl.adjustingTabs
    ensures r.ctrl.(adjustingTabs := c.adjustingTabs) == c
    ensures r.effects == [MeasurementScheduled]
  {
    Step(c.(adjustingTabs := true), [MeasurementScheduled])
  }

  /** Result of the deferred measurement: it completes, or it throws a
      TypeError (more rendered tabs than entries in the tab list) after
      having updated the tabs it reached. */
  datatype Outcome = Adjusted(ctrl: Controller) | Threw(ctrl: Controller)

  /** The deferred measurement. `widths` are the rendered widths of the
      tabs shown in the strip, left to right; the available width is the
      strip's width less the "More" dropdown's width. */
  function FinishAdjust(c: Controller, widths: seq<int>, ulWidth: int, dropdownWidth: int): (r: Outcome)
    ensures r.Adjusted? <==> |widths| <= |TabList(c)|
    ensures r.Adjusted? ==> !r.ctrl.adjustingTabs
    ensures r.Threw? ==> r.ctrl.adjustingTabs == c.adjustingTabs
    ensures r.ctrl.activeTab == c.activeTab
    ensures r.ctrl.tabs.Some? <==> c.tabs.Some?
    ensures |TabList(r.ctrl)| == |TabList(c)|
    ensures forall i :: 0 <= i < |TabList(c)| && i < |widths| ==>
      TabList(r.ctrl)[i].visible == Some(PrefixSum(widths, i) < ulWidth - dropdownWidth)
    ensures forall i :: 0 <= i < |TabList(c)| ==>
      TabList(r.ctrl)[i].(visible := TabList(c)[i].visible) == TabList(c)[i]
    ensures forall i :: |widths| <= i < |TabList(c)| ==> TabList(r.ctrl)[i] == TabList(c)[i]
  {
    var flags := Flags(widths, ulWidth - dropdownWidth, 0);
    var tabs := match c.tabs
      case Some(ts) => Some(Mark(ts, flags))
      case None => None;
    if |widths| <= |TabList(c)| then
      Adjusted(c.(tabs := tabs, adjustingTabs := false))
    else
      Threw(c.(tabs := tabs))
  }

  /** With non-negative widths, the measured tabs marked visible form a
      prefix: after the first measured tab that overflows, every later
      measured tab overflows too. */
  lemma MeasuredVisibleIsPrefix(c: Controller, widths: seq<int>, ulWidth: int, dropdownWidth: int, i: nat, j: nat)
    requires forall k :: 0 <= k < |widths| ==> widths[k] >= 0
    requires i < j < |widths| && j < |TabList(c)|
    requires TabList(FinishAdjust(c, widths, ulWidth, dropdownWidth).ctrl)[i].visible == Some(false)
    ensures TabList(FinishAdjust(c, widths, ulWidth, dropdownWidth).ctrl)[j].visible == Some(false)
  {
    PrefixSumMonotone(widths, i, j);
  }

  // ---------------------------------------------------------------------
  // Derived queries
  // ---------------------------------------------------------------------

  /** The tabs whose `visible` is exactly `flag`, in list order; tabs not yet
      measured match neither flag. */
  function Filter(tabs: seq<Tab>, flag: bool): (r: seq<Tab>)
    ensures |r| <= |tabs|
  {
    if |tabs| == 0 then []
    else
      var last := tabs[|tabs| - 1];
      Filter(tabs[..|tabs| - 1], flag) + (if last.visible == Some(flag) then [last] else [])
  }

  /** A tab is kept by the filter iff it is in the list with `visible`
      defined and equal to the flag. */
  lemma {:induction false} FilterMembers(tabs: seq<Tab>, flag: bool)
    ensures forall t :: t in Filter(tabs, flag) <==> t in tabs && t.visible == Some(flag)
  {
    if |tabs| > 0 {
      var n := |tabs| - 1;
      FilterMembers(tabs[..n], flag);
      assert tabs == tabs[..n] + [tabs[n]];
    }
  }

  /** Reference for the filter: the indices of the tabs whose `visible` is
      `flag`, in increasing order. */
  ghost function Positions(tabs: seq<Tab>, flag: bool): (p: seq<nat>)
    ensures forall k :: 0 <= k < |p| ==> p[k] < |tabs|
    ensures forall k, l :: 0 <= k < l < |p| ==> p[k] < p[l]
    ensures forall i :: 0 <= i < |tabs| ==> (i in p <==> tabs[i].visible == Some(flag))
  {
    if |tabs| == 0 then []
    else
      var n := |tabs| - 1;
      var p := Positions(tabs[..n], flag);
      assert forall i :: 0 <= i < n ==> tabs[..n][i] == tabs[i];
      p + (if tabs[n].visible == Some(flag) then [n] else [])
  }

  function VisibleTabs(c: Controller): seq<Tab> {
    Filter(TabList(c), true)
  }

  function MoreTabs(c: Controller): seq<Tab> {
    Filter(TabList(c), false)
  }

  /** The filter keeps exactly the tabs at the flagged indices, in list order:
      it is an order-preserving subsequence of the tab list. */
  lemma {:induction false} FilterIsOrderedSelection(tabs: seq<Tab>, flag: bool)
    ensures |Filter(tabs, flag)| == |Positions(tabs, flag)|
    ensures forall k :: 0 <= k < |Filter(tabs, flag)| ==>
      Filter(tabs, flag)[k] == tabs[Positions(tabs, flag)[k]]
  {
    if |tabs| > 0 {
      var n := |tabs| - 1;
      var pre := tabs[..n];
      FilterIsOrderedSelection(pre, flag);
      var fp, pp := Filter(pre, flag), Positions(pre, flag);
      if tabs[n].visible == Some(flag) {
        assert Filter(tabs, flag) == fp + [tabs[n]];
        assert Positions(tabs, flag) == pp + [n];
      } else {
        assert Filter(tabs, flag) == fp;
        assert Positions(tabs, flag) == pp;
      }
      forall k | 0 <= k < |fp|
        ensures fp[k] == tabs[pp[k]]
      {
        assert pre[pp[k]] == tabs[pp[k]];
      }
    }
  }

  /** Filtering a list with one more tab at its end. */
  lemma FilterSnoc(pre: seq<Tab>, x: Tab, flag: bool)
    ensures Filter(pre + [x], flag) == Filter(pre, flag) + (if x.visible == Some(flag) then [x] else [])
  {
    assert (pre + [x])[..|pre|] == pre;
  }

  /** Once every tab has been measured, the strip and the "More" menu
      together hold every tab, each as often as the list does. */
  lemma {:induction false} VisibleAndMorePartition(tabs: seq<Tab>)
    requires forall i :: 0 <= i < |tabs| ==> tabs[i].visible.Some?
    ensures multiset(Filter(tabs, true)) + multiset(Filter(tabs, false)) == multiset(tabs)
  {
    if |tabs| > 0 {
      var n := |tabs| - 1;
      var pre, x := tabs[..n], tabs[n];
      assert tabs == pre + [x];
      forall i | 0 <= i < |pre| ensures pre[i].visible.Some? {
        assert pre[i] == tabs[i];
      }
      VisibleAndMorePartition(pre);
      FilterSnoc(pre, x, true);
      FilterSnoc(pre, x, false);
      var vp, mp := Filter(pre, true), Filter(pre, false);
      assert multiset(tabs) == multiset(pre) + multiset{x};
      assert x.visible.Some?;
      if x.visible.value {
        assert x.visible == Some(true);
        assert multiset(Filter(tabs, true)) == multiset(vp) + multiset{x};
        assert multiset(Filter(tabs, false)) == multiset(mp);
      } else {
        assert x.visible == Some(false);
        assert multiset(Filter(tabs, true)) == multiset(vp);
        assert multiset(Filter(tabs, false)) == multiset(mp) + multiset{x};
      }
    }
  }

  /** A filter no tab matches is empty. */
  lemma {:induction false} FilterNoneMatch(tabs: seq<Tab>, flag: bool)
    requires forall i :: 0 <= i < |tabs| ==> tabs[i].visible != Some(flag)
    ensures Filter(tabs, flag) == []
  {
    if |tabs| > 0 {
      var n := |tabs| - 1;
      assert forall i :: 0 <= i < n ==> tabs[..n][i] == tabs[i];
      FilterNoneMatch(tabs[..n], flag);
    }
  }

  /** Every tab is measured and, once one overflows, all later ones do. */
  predicate PrefixShaped(tabs: seq<Tab>) {
    && (forall i :: 0 <= i < |tabs| ==> tabs[i].visible.Some?)
    && (forall i, j :: 0 <= i < j < |tabs| && tabs[i].visible == Some(false) ==> tabs[j].visible == Some(false))
  }

  /** On a prefix-shaped list the strip shows the leading tabs and the
      "More" menu holds exactly the remaining ones, in order. */
  lemma {:induction false} PrefixShapedSplit(tabs: seq<Tab>)
    requires PrefixShaped(tabs)
    ensures |Filter(tabs, true)| <= |tabs|
    ensures Filter(tabs, true) == tabs[..|Filter(tabs, true)|]
    ensures Filter(tabs, false) == tabs[|Filter(tabs, true)|..]
  {
    if |tabs| > 0 {
      var n := |tabs| - 1;
      var pre, x := tabs[..n], tabs[n];
      assert tabs == pre + [x];
      assert forall i :: 0 <= i < |pre| ==> pre[i] == tabs[i];
      assert PrefixShaped(pre);
      PrefixShapedSplit(pre);
      assert x.visible.Some?;
      if x.visible.value {
        forall i | 0 <= i < |pre| ensures pre[i].visible != Some(false) {
          assert tabs[i].visible != Some(false) by {
            assert tabs[n].visible != Some(false);
          }
        }
        SplitStepVisible(pre, x);
      } else {
        SplitStepHidden(pre, x);
      }
    }
  }

  /** The step of the split where the last tab fits: then every tab fits. */
  lemma SplitStepVisible(pre: seq<Tab>, x: Tab)
    requires x.visible == Some(true)
    requires forall i :: 0 <= i < |pre| ==> pre[i].visible != Some(false)
    requires |Filter(pre, true)| <= |pre|
    requires Filter(pre, true) == pre[..|Filter(pre, true)|]
    requires Filter(pre, false) == pre[|Filter(pre, true)|..]
    ensures Filter(pre + [x], true) == pre + [x]
    ensures Filter(pre + [x], false) == []
  {
    FilterSnoc(pre, x, true);
    FilterSnoc(pre, x, false);
    FilterNoneMatch(pre, false);
    assert |pre[|Filter(pre, true)|..]| == 0;
  }

  /** The step of the split where the last tab overflows: it joins the
      "More" menu and the strip is unchanged. */
  lemma SplitStepHidden(pre: seq<Tab>, x: Tab)
    requires x.visible == Some(false)
    requires |Filter(pre, true)| <= |pre|
    requires Filter(pre, true) == pre[..|Filter(pre, true)|]
    requires Filter(pre, false) == pre[|Filter(pre, true)|..]
    ensures Filter(pre + [x], true) == (pre + [x])[..|Filter(pre, true)|]
    ensures Filter(pre + [x], false) == (pre + [x])[|Filter(pre, true)|..]
  {
    FilterSnoc(pre, x, true);
    FilterSnoc(pre, x, false);
    var k := |Filter(pre, true)|;
    assert (pre + [x])[k..] == pre[k..] + [x];
  }

  /** After a measurement that covers every tab, with non-negative widths,
      the strip shows a prefix of the tabs and the "More" menu the rest. */
  lemma FullMeasurementSplitsTabs(c: Controller, widths: seq<int>, ulWidth: int, dropdownWidth: int)
    requires c.tabs.Some? && |widths| == |c.tabs.value|
    requires forall k :: 0 <= k < |widths| ==> widths[k] >= 0
    ensures var d := FinishAdjust(c, widths, ulWidth, dropdownWidth).ctrl;
      && |VisibleTabs(d)| <= |TabList(d)|
      && VisibleTabs(d) == TabList(d)[..|VisibleTabs(d)|]
      && MoreTabs(d) == TabList(d)[|VisibleTabs(d)|..]
  {
    var d := FinishAdjust(c, widths, ulWidth, dropdownWidth).ctrl;
    var t := TabList(d);
    forall i, j | 0 <= i < j < |t| && t[i].visible == Some(false)
      ensures t[j].visible == Some(false)
    {
      MeasuredVisibleIsPrefix(c, widths, ulWidth, dropdownWidth, i, j);
    }
    PrefixShapedSplit(t);
  }

  /** The queries as the controller exposes them: no tab is in both lists,
      an undefined tab list shows nothing, and once every tab has been
      measured the two lists' lengths add up to the number of tabs. */
  lemma ControllerQueries(c: Controller)
    ensures forall t :: !(t in VisibleTabs(c) && t in MoreTabs(c))
    ensures c.tabs.None? ==> VisibleTabs(c) == [] && MoreTabs(c) == []
    ensures (forall i :: 0 <= i < |TabList(c)| ==> TabList(c)[i].visible.Some?) ==>
      |VisibleTabs(c)| + |MoreTabs(c)| == |TabList(c)|
  {
    FilterMembers(TabList(c), true);
    FilterMembers(TabList(c), false);
    if forall i :: 0 <= i < |TabList(c)| ==> TabList(c)[i].visible.Some? {
      VisibleAndMorePartition(TabList(c));
      assert |multiset(VisibleTabs(c)) + multiset(MoreTabs(c))| == |multiset(TabList(c))|;
    }
  }

  /** No two entries of the list are the same object. The template repeats
      the strip's tabs `track by tab.path`, which rejects a list holding one
      tab object twice. */
  predicate DistinctObjects(tabs: seq<Tab>) {
    forall i, j :: 0 <= i < j < |tabs| ==> tabs[i].ref != tabs[j].ref
  }

  /** On a list of distinct objects, no tab object is both in the strip and
      in the "More" menu. */
  lemma NoObjectInBothLists(c: Controller)
    requires DistinctObjects(TabList(c))
    ensures forall t, u :: t in VisibleTabs(c) && u in MoreTabs(c) ==> !SameObject(t, u)
  {
    var ts := TabList(c);
    FilterMembers(ts, true);
    FilterMembers(ts, false);
    forall t, u | t in VisibleTabs(c) && u in MoreTabs(c)
      ensures !SameObject(t, u)
    {
      var i :| 0 <= i < |ts| && ts[i] == t;
      var j :| 0 <= j < |ts| && ts[j] == u;
      assert i != j by {
        assert t.visible != u.visible;
      }
      assert ts[i].ref != ts[j].ref by {
        if i > j {
          assert ts[j].ref != ts[i].ref;
        }
      }
    }
  }

  /** The measurement keeps every entry's identity, so after measuring a
      list of distinct objects no tab object is in both lists. */
  lemma MeasuredListsShareNoObject(c: Controller, widths: seq<int>, ulWidth: int, dropdownWidth: int)
    requires DistinctObjects(TabList(c))
    ensures var d := FinishAdjust(c, widths, ulWidth, dropdownWidth).ctrl;
      forall t, u :: t in VisibleTabs(d) && u in MoreTabs(d) ==> !SameObject(t, u)
  {
    var d := FinishAdjust(c, widths, ulWidth, dropdownWidth).ctrl;
    var before, after := TabList(c), TabList(d);
    forall i, j | 0 <= i < j < |after|
      ensures after[i].ref != after[j].ref
    {
      assert after[i].(visible := before[i].visible) == before[i];
      assert after[j].(visible := before[j].visible) == before[j];
    }
    NoObjectInBothLists(d);
  }

  // ---------------------------------------------------------------------
  // Active tab
  // ---------------------------------------------------------------------

  /** Index of the first tab satisfying `p` (lodash `_.find`, by position). */
  function FindIndex(tabs: seq<Tab>, p: Tab -> bool): (r: Option<nat>)
    ensures r.Some? ==> r.value < |tabs| && p(tabs[r.value])
    ensures r.Some? ==> forall j :: 0 <= j < r.value ==> !p(tabs[j])
    ensures r.None? ==> forall j :: 0 <= j < |tabs| ==> !p(tabs[j])
  {
    if |tabs| == 0 then None
    else if p(tabs[0]) then Some(0)
    else match FindIndex(tabs[1..], p)
      case Some(k) => Some(k + 1)
      case None => None
  }

  /** The outcome of active-tab resolution: the new active tab and the path
      written to the location, if any. */
  datatype Resolution = Resolution(active: Option<Tab>, write: Option<string>)

  /** The explicit active tab the changes object carries, if it carries a
      defined one. */
  function Explicit(changes: Changes): Option<Tab> {
    match changes.activeTab
    case ChangedTo(Some(t)) => Some(t)
    case _ => None
  }

  function ActivateTab(tabs: seq<Tab>, changes: Changes, location: string, current: Option<Tab>): (r: Resolution)
    // an explicit tab is looked up by identity; the location is not consulted
    ensures Explicit(changes).Some? ==> r.write.None?
    ensures Explicit(changes).Some? ==>
      (r.active.Some? <==> exists i :: 0 <= i < |tabs| && SameObject(tabs[i], Explicit(changes).value))
    ensures Explicit(changes).Some? && r.active.Some? ==>
      exists i :: 0 <= i < |tabs| && tabs[i] == r.active.value && SameObject(tabs[i], Explicit(changes).value)
        && (forall j :: 0 <= j < i ==> !SameObject(tabs[j], Explicit(changes).value))
    // otherwise the first tab whose path is the current location wins
    ensures Explicit(changes).None? && (exists i :: 0 <= i < |tabs| && tabs[i].path == location) ==>
      && r.write == Some(location)
      && (exists i :: 0 <= i < |tabs| && r.active == Some(tabs[i]) && tabs[i].path == location
            && forall j :: 0 <= j < i ==> tabs[j].path != location)
    // otherwise the first tab, and the location follows it
    ensures Explicit(changes).None? && (forall i :: 0 <= i < |tabs| ==> tabs[i].path != location) && |tabs| > 0 ==>
      r.active == Some(tabs[0]) && r.write == Some(tabs[0].path)
    // with no tabs nothing changes
    ensures Explicit(changes).None? && |tabs| == 0 ==> r == Resolution(current, None)
  {
    match Explicit(changes)
    case Some(t) =>
      var k := FindIndex(tabs, (u: Tab) => SameObject(u, t));
      Resolution(if k.Some? then Some(tabs[k.value]) else None, None)
    case None =>
      var k := FindIndex(tabs, (u: Tab) => u.path == location);
      if k.Some? then
        Resolution(Some(tabs[k.value]), Some(tabs[k.value].path))
      else if |tabs| > 0 then
        Resolution(Some(tabs[0]), Some(tabs[0].path))
      else
        Resolution(current, None)
  }

  // ---------------------------------------------------------------------
  // Handlers
  // ---------------------------------------------------------------------

  /** The framework's one-way binding update, done before the change
      handler runs: every changed input is assigned its current value. */
  function ApplyBindings(c: Controller, changes: Changes): (r: Controller)
    ensures r.adjustingTabs == c.adjustingTabs
    ensures changes.tabs.Unchanged? ==> r.tabs == c.tabs
    ensures changes.tabs.ChangedTo? ==> r.tabs == changes.tabs.currentValue
    ensures changes.activeTab.Unchanged? ==> r.activeTab == c.activeTab
    ensures changes.activeTab.ChangedTo? ==> r.activeTab == changes.activeTab.currentValue
  {
    var withTabs := match changes.tabs
      case ChangedTo(v) => c.(tabs := v)
      case Unchanged => c;
    match changes.activeTab
    case ChangedTo(v) => withTabs.(activeTab := v)
    case Unchanged => withTabs
  }

  /** The change handler, run on the controller after its bindings were
      updated: with a tab list, schedule the measurement and resolve the
      active tab; without one, do nothing. */
  function OnChanges(c: Controller, changes: Changes, location: string): (r: Step)
    ensures c.tabs.None? ==> r == Step(c, [])
    ensures c.tabs.Some? ==>
      var res := ActivateTab(c.tabs.value, changes, location, c.activeTab);
      && r.ctrl == c.(adjustingTabs := true, activeTab := res.active)
      && (res.write.None? ==> r.effects == [MeasurementScheduled])
      && (res.write.Some? ==> r.effects == [MeasurementScheduled, LocationWrite(res.write.value)])
  {
    match c.tabs
    case None => Step(c, [])
    case Some(ts) =>
      var begun := BeginAdjust(c);
      var res := ActivateTab(ts, changes, location, c.activeTab);
      var writes := match res.write
        case Some(p) => [LocationWrite(p)]
        case None => [];
      Step(begun.ctrl.(activeTab := res.active), begun.effects + writes)
  }

  /** A click on a tab makes it active and notifies the parent once. */
  function OnClick(c: Controller, t: Tab): (r: Step)
    ensures r.ctrl.activeTab == Some(t)
    ensures r.ctrl.tabs == c.tabs && r.ctrl.adjustingTabs == c.adjustingTabs
    ensures r.effects == [ChangeNotified(t)]
  {
    Step(c.(activeTab := Some(t)), [ChangeNotified(t)])
  }

  /** A full adjustment cycle: the flag is raised by the change handler and
      lowered by the measurement when the widths fit the tab list,
      while the active tab and the tab order stay as the handler left them. */
  lemma AdjustCycle(c: Controller, changes: Changes, location: string, widths: seq<int>, ulWidth: int, dropdownWidth: int)
    requires c.tabs.Some? && |widths| <= |c.tabs.value|
    ensures var s := OnChanges(c, changes, location);
      && s.ctrl.adjustingTabs
      && var f := FinishAdjust(s.ctrl, widths, ulWidth, dropdownWidth);
      && f.Adjusted? && !f.ctrl.adjustingTabs
      && f.ctrl.activeTab == s.ctrl.activeTab
      && forall i :: 0 <= i < |c.tabs.value| ==>
           TabList(f.ctrl)[i].ref == c.tabs.value[i].ref && TabList(f.ctrl)[i].path == c.tabs.value[i].path
  {
  }
}

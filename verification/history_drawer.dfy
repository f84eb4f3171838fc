/** The history drawer: the visited pages grouped by the calendar day of
    their visit, days in order of first appearance in the history, pages in
    history order within a day; an empty history shows a fixed message, and
    clicking an entry hands its address back to the session.

    The locale-dependent date rendering is a parameter `dateKey` from a
    timestamp to the day's label. */
module HistoryDrawer {
  import opened Types
  import ProxyApp
  import opened Wrappers

  /** One day's entries, under that day's label. */
  datatype Group = Group(key: string, items: seq<HistoryItem>)

  const EmptyText := "No browsing history yet"

  function KeyOf(item: HistoryItem, dateKey: string -> string): string {
    dateKey(item.timestamp)
  }

  predicate HasKey(groups: seq<Group>, k: string) {
    exists i :: 0 <= i < |groups| && groups[i].key == k
  }

  predicate DistinctKeys(groups: seq<Group>) {
    forall i, j :: 0 <= i < j < |groups| ==> groups[i].key != groups[j].key
  }

  /** The position of the group with label `k`, or -1 when there is none
      (the `groups[dateKey]` lookup of the reducer). */
  function IndexOfKey(groups: seq<Group>, k: string): (i: int)
    ensures -1 <= i < |groups|
    ensures i >= 0 ==> groups[i].key == k
    ensures i == -1 <==> !HasKey(groups, k)
  {
    if groups == [] then -1
    else if groups[0].key == k then 0
    else
      var j := IndexOfKey(groups[1..], k);
      if j == -1 then -1 else j + 1
  }

  /** One step of the reducer: append the item to its day's group, opening
      a new group at the end when the day has none yet. */
  function AddToGroups(groups: seq<Group>, item: HistoryItem, dateKey: string -> string): (r: seq<Group>)
    requires DistinctKeys(groups)
    ensures |groups| <= |r| <= |groups| + 1
    ensures DistinctKeys(r) && HasKey(r, KeyOf(item, dateKey))
    ensures forall j :: 0 <= j < |groups| ==> r[j].key == groups[j].key
    ensures forall j :: 0 <= j < |groups| && groups[j].key != KeyOf(item, dateKey) ==> r[j] == groups[j]
    ensures HasKey(groups, KeyOf(item, dateKey)) ==>
              |r| == |groups|
              && forall j :: 0 <= j < |groups| && groups[j].key == KeyOf(item, dateKey) ==>
                               r[j].items == groups[j].items + [item]
    ensures !HasKey(groups, KeyOf(item, dateKey)) ==>
              |r| == |groups| + 1 && r[|groups|] == Group(KeyOf(item, dateKey), [item])
  {
    var k := KeyOf(item, dateKey);
    var i := IndexOfKey(groups, k);
    if i == -1 then
      var r := groups + [Group(k, [item])];
      assert r[|groups|].key == k;
      r
    else
      var r := groups[i := Group(k, groups[i].items + [item])];
      assert r[i].key == k;
      r
  }

  /** `groupedHistory`: the history folded from the left with `AddToGroups`.
      Labels are distinct, no group is empty, and there are no groups
      exactly when there is no history. */
  function GroupHistory(h: seq<HistoryItem>, dateKey: string -> string): (r: seq<Group>)
    ensures DistinctKeys(r)
    ensures forall i :: 0 <= i < |r| ==> r[i].items != []
    ensures |r| == 0 <==> h == []
    decreases |h|
  {
    if h == [] then []
    else AddToGroups(GroupHistory(h[..|h| - 1], dateKey), h[|h| - 1], dateKey)
  }

  // ----- reference definitions ----------------------------------------------------

  /** The items of `h` on day `k`, in history order. */
  function Filter(h: seq<HistoryItem>, k: string, dateKey: string -> string): (r: seq<HistoryItem>)
    ensures forall y :: y in r ==> y in h && KeyOf(y, dateKey) == k
    ensures forall i :: 0 <= i < |h| && KeyOf(h[i], dateKey) == k ==> h[i] in r
    decreases |h|
  {
    if h == [] then []
    else
      var last := h[|h| - 1];
      assert h == h[..|h| - 1] + [last];
      Filter(h[..|h| - 1], k, dateKey) + (if KeyOf(last, dateKey) == k then [last] else [])
  }

  /** The position of the first item of day `k`, or `|h|` when there is none. */
  function FirstIndex(h: seq<HistoryItem>, k: string, dateKey: string -> string): (r: nat)
    ensures r <= |h|
    ensures r < |h| ==> KeyOf(h[r], dateKey) == k
    ensures forall j :: 0 <= j < r ==> KeyOf(h[j], dateKey) != k
    decreases |h|
  {
    if h == [] then 0
    else if KeyOf(h[0], dateKey) == k then 0
    else 1 + FirstIndex(h[1..], k, dateKey)
  }

  /** The groups' items laid end to end, in display order. */
  function Flatten(groups: seq<Group>): seq<HistoryItem>
    decreases |groups|
  {
    if groups == [] then [] else Flatten(groups[..|groups| - 1]) + groups[|groups| - 1].items
  }

  /** An item between two items of one day is of that day too. */
  predicate NoGapBetween(h: seq<HistoryItem>, a: nat, b: nat, c: nat, dateKey: string -> string)
    requires a < b < c < |h|
  {
    KeyOf(h[a], dateKey) == KeyOf(h[c], dateKey) ==> KeyOf(h[b], dateKey) == KeyOf(h[a], dateKey)
  }

  /** Items of the same day form one unbroken run. */
  predicate Contiguous(h: seq<HistoryItem>, dateKey: string -> string) {
    forall a: nat, b: nat, c: nat :: a < b < c < |h| ==> NoGapBetween(h, a, b, c, dateKey)
  }

  // ----- facts about the reference definitions ---------------------------------------

  lemma FilterAppend(h: seq<HistoryItem>, x: HistoryItem, k: string, dateKey: string -> string)
    ensures Filter(h + [x], k, dateKey)
            == Filter(h, k, dateKey) + (if KeyOf(x, dateKey) == k then [x] else [])
  {
    assert (h + [x])[..|h|] == h;
  }

  lemma FirstIndexAppend(h: seq<HistoryItem>, x: HistoryItem, k: string, dateKey: string -> string)
    ensures FirstIndex(h, k, dateKey) < |h| ==> FirstIndex(h + [x], k, dateKey) == FirstIndex(h, k, dateKey)
    ensures FirstIndex(h, k, dateKey) == |h| ==>
              (FirstIndex(h + [x], k, dateKey) < |h| + 1 <==> KeyOf(x, dateKey) == k)
    ensures FirstIndex(h, k, dateKey) == |h| && KeyOf(x, dateKey) == k ==>
              FirstIndex(h + [x], k, dateKey) == |h|
  {
    assert forall j :: 0 <= j < |h| ==> (h + [x])[j] == h[j];
    assert (h + [x])[|h|] == x;
  }

  lemma FilterAbsent(h: seq<HistoryItem>, k: string, dateKey: string -> string)
    requires FirstIndex(h, k, dateKey) == |h|
    ensures Filter(h, k, dateKey) == []
  {
  }

  /** Flattening distributes over concatenation of group lists. */
  lemma {:induction false} FlattenAppend(a: seq<Group>, b: seq<Group>)
    ensures Flatten(a + b) == Flatten(a) + Flatten(b)
    decreases |b|
  {
    if b == [] {
      assert a + b == a;
    } else {
      var c := a + b;
      assert c[..|c| - 1] == a + b[..|b| - 1];
      FlattenAppend(a, b[..|b| - 1]);
    }
  }

  lemma SplitAt<T>(s: seq<T>, i: nat)
    requires i < |s|
    ensures s == s[..i] + [s[i]] + s[i + 1..]
  {
  }

  /** The flattened groups around group `i`. */
  lemma FlattenAround(groups: seq<Group>, i: nat)
    requires i < |groups|
    ensures Flatten(groups) == Flatten(groups[..i]) + groups[i].items + Flatten(groups[i + 1..])
  {
    SplitAt(groups, i);
    FlattenAppend(groups[..i] + [groups[i]], groups[i + 1..]);
    FlattenAppend(groups[..i], [groups[i]]);
    assert [groups[i]][..0] == [];
  }

  // ----- what the grouping does ----------------------------------------------------

  /** The labels of the groups are exactly the days that occur in the history. */
  lemma {:induction false} GroupKeys(h: seq<HistoryItem>, dateKey: string -> string)
    ensures var gs := GroupHistory(h, dateKey);
            forall k :: HasKey(gs, k) <==> FirstIndex(h, k, dateKey) < |h|
    decreases |h|
  {
    if h != [] {
      var p := h[..|h| - 1];
      var x := h[|h| - 1];
      assert h == p + [x];
      GroupKeys(p, dateKey);
      var gs := GroupHistory(p, dateKey);
      var gs' := GroupHistory(h, dateKey);
      assert gs' == AddToGroups(gs, x, dateKey);
      forall k
        ensures HasKey(gs', k) <==> FirstIndex(h, k, dateKey) < |h|
      {
        FirstIndexAppend(p, x, k, dateKey);
        if HasKey(gs', k) && k != KeyOf(x, dateKey) {
          var j :| 0 <= j < |gs'| && gs'[j].key == k;
          assert j < |gs|;
        }
        if HasKey(gs, k) {
          var j :| 0 <= j < |gs| && gs[j].key == k;
          assert gs'[j].key == k;
        }
      }
    }
  }

  /** Each group holds exactly the history's items of its day, in history
      order: nothing is lost, duplicated or reordered within a day. */
  lemma {:induction false} GroupItems(h: seq<HistoryItem>, dateKey: string -> string)
    ensures var gs := GroupHistory(h, dateKey);
            forall i :: 0 <= i < |gs| ==> gs[i].items == Filter(h, gs[i].key, dateKey)
    decreases |h|
  {
    if h != [] {
      var p := h[..|h| - 1];
      var x := h[|h| - 1];
      assert h == p + [x];
      GroupItems(p, dateKey);
      GroupKeys(p, dateKey);
      var gs := GroupHistory(p, dateKey);
      var gs' := GroupHistory(h, dateKey);
      assert gs' == AddToGroups(gs, x, dateKey);
      forall i | 0 <= i < |gs|
        ensures gs[i].items == Filter(p, gs[i].key, dateKey)
      {
        assert GroupHistory(p, dateKey)[i].items == Filter(p, GroupHistory(p, dateKey)[i].key, dateKey);
      }
      var k := KeyOf(x, dateKey);
      forall i | 0 <= i < |gs'|
        ensures gs'[i].items == Filter(h, gs'[i].key, dateKey)
      {
        var key := gs'[i].key;
        FilterAppend(p, x, key, dateKey);
        assert Filter(h, key, dateKey) == Filter(p, key, dateKey) + (if k == key then [x] else []);
        if i == |gs| {
          assert !HasKey(gs, k) && gs'[i] == Group(k, [x]);
          FilterAbsent(p, k, dateKey);
        } else if gs[i].key == k {
          assert HasKey(gs, k);
          assert gs[i].items == Filter(p, key, dateKey);
          assert gs'[i].items == gs[i].items + [x];
        } else {
          assert gs[i].items == Filter(p, key, dateKey);
          assert gs'[i] == gs[i];
        }
      }
    }
  }

  /** Groups appear in the order their days first occur in the history. */
  lemma {:induction false} GroupOrder(h: seq<HistoryItem>, dateKey: string -> string)
    ensures var gs := GroupHistory(h, dateKey);
            forall i, j :: 0 <= i < j < |gs| ==>
              FirstIndex(h, gs[i].key, dateKey) < FirstIndex(h, gs[j].key, dateKey)
    decreases |h|
  {
    if h != [] {
      var p := h[..|h| - 1];
      var x := h[|h| - 1];
      assert h == p + [x];
      GroupOrder(p, dateKey);
      GroupKeys(p, dateKey);
      var gs := GroupHistory(p, dateKey);
      var gs' := GroupHistory(h, dateKey);
      assert gs' == AddToGroups(gs, x, dateKey);
      forall i, j | 0 <= i < j < |gs'|
        ensures FirstIndex(h, gs'[i].key, dateKey) < FirstIndex(h, gs'[j].key, dateKey)
      {
        assert HasKey(gs, gs'[i].key);
        FirstIndexAppend(p, x, gs'[i].key, dateKey);
        FirstIndexAppend(p, x, gs'[j].key, dateKey);
        if j < |gs| {
          assert HasKey(gs, gs'[j].key);
        }
      }
    }
  }

  /** One reducer step adds exactly the new item to the flattened groups. */
  lemma AddToGroupsPartition(groups: seq<Group>, item: HistoryItem, dateKey: string -> string)
    requires DistinctKeys(groups)
    ensures multiset(Flatten(AddToGroups(groups, item, dateKey)))
            == multiset(Flatten(groups)) + multiset{item}
  {
    var k := KeyOf(item, dateKey);
    var i := IndexOfKey(groups, k);
    var r := AddToGroups(groups, item, dateKey);
    if i == -1 {
      assert r[..|groups|] == groups;
      assert Flatten(r) == Flatten(groups) + [item];
    } else {
      var g := Group(k, groups[i].items + [item]);
      assert r == groups[i := g];
      FlattenAround(groups, i);
      FlattenAround(r, i);
      assert r[..i] == groups[..i] && r[i + 1..] == groups[i + 1..];
    }
  }

  /** Every item of the history lands in the groups exactly as often as it
      occurs in the history. */
  lemma {:induction false} GroupPartition(h: seq<HistoryItem>, dateKey: string -> string)
    ensures multiset(Flatten(GroupHistory(h, dateKey))) == multiset(h)
    decreases |h|
  {
    if h != [] {
      var p := h[..|h| - 1];
      var x := h[|h| - 1];
      assert h == p + [x];
      GroupPartition(p, dateKey);
      AddToGroupsPartition(GroupHistory(p, dateKey), x, dateKey);
    }
  }

  /** The group sizes add up to the length of the history. */
  lemma GroupSizes(h: seq<HistoryItem>, dateKey: string -> string)
    ensures |Flatten(GroupHistory(h, dateKey))| == |h|
  {
    GroupPartition(h, dateKey);
    assert |multiset(Flatten(GroupHistory(h, dateKey)))| == |multiset(h)|;
  }

  /** A reducer step that falls into the last group, or opens a new one,
      appends the item to the flattened groups. */
  lemma AddToGroupsAtEnd(groups: seq<Group>, item: HistoryItem, dateKey: string -> string)
    requires DistinctKeys(groups)
    requires !HasKey(groups, KeyOf(item, dateKey))
             || (groups != [] && groups[|groups| - 1].key == KeyOf(item, dateKey))
    ensures Flatten(AddToGroups(groups, item, dateKey)) == Flatten(groups) + [item]
  {
    if HasKey(groups, KeyOf(item, dateKey)) {
      AddToLastGroup(groups, item, dateKey);
    } else {
      AddNewGroup(groups, item, dateKey);
    }
  }

  lemma AddNewGroup(groups: seq<Group>, item: HistoryItem, dateKey: string -> string)
    requires DistinctKeys(groups) && !HasKey(groups, KeyOf(item, dateKey))
    ensures Flatten(AddToGroups(groups, item, dateKey)) == Flatten(groups) + [item]
  {
    var r := AddToGroups(groups, item, dateKey);
    AppendKeepsPrefix(groups, Group(KeyOf(item, dateKey), [item]));
    assert r == groups + [Group(KeyOf(item, dateKey), [item])];
  }

  lemma AddToLastGroup(groups: seq<Group>, item: HistoryItem, dateKey: string -> string)
    requires DistinctKeys(groups) && groups != [] && groups[|groups| - 1].key == KeyOf(item, dateKey)
    ensures Flatten(AddToGroups(groups, item, dateKey)) == Flatten(groups) + [item]
  {
    var n := |groups|;
    var g := Group(KeyOf(item, dateKey), groups[n - 1].items + [item]);
    AddToGroupsLast(groups, item, dateKey);
    FlattenUpdateLast(groups, g, item);
  }

  lemma AddToGroupsLast(groups: seq<Group>, item: HistoryItem, dateKey: string -> string)
    requires DistinctKeys(groups) && groups != [] && groups[|groups| - 1].key == KeyOf(item, dateKey)
    ensures AddToGroups(groups, item, dateKey)
            == groups[|groups| - 1 := Group(KeyOf(item, dateKey), groups[|groups| - 1].items + [item])]
  {
  }

  lemma FlattenUpdateLast(groups: seq<Group>, g: Group, item: HistoryItem)
    requires groups != [] && g.items == groups[|groups| - 1].items + [item]
    ensures Flatten(groups[|groups| - 1 := g]) == Flatten(groups) + [item]
  {
    UpdateKeepsPrefix(groups, |groups| - 1, g);
  }

  lemma AppendKeepsPrefix<T>(s: seq<T>, v: T)
    ensures (s + [v])[..|s|] == s
  {
  }

  lemma UpdateKeepsPrefix<T>(s: seq<T>, i: nat, v: T)
    requires i < |s|
    ensures s[i := v][..i] == s[..i]
  {
  }

  /** What the grouping lemmas say about the labels of `groups`: distinct,
      each occurring in `h`, in order of first occurrence. */
  predicate LabelsInOrder(h: seq<HistoryItem>, groups: seq<Group>, dateKey: string -> string) {
    && DistinctKeys(groups)
    && (forall i :: 0 <= i < |groups| ==> FirstIndex(h, groups[i].key, dateKey) < |h|)
    && (forall i, j :: 0 <= i < j < |groups| ==>
          FirstIndex(h, groups[i].key, dateKey) < FirstIndex(h, groups[j].key, dateKey))
  }

  lemma GroupLabelsInOrder(h: seq<HistoryItem>, dateKey: string -> string)
    ensures LabelsInOrder(h, GroupHistory(h, dateKey), dateKey)
  {
    var gs := GroupHistory(h, dateKey);
    GroupKeys(h, dateKey);
    GroupOrder(h, dateKey);
    forall i | 0 <= i < |gs|
      ensures FirstIndex(h, gs[i].key, dateKey) < |h|
    {
      assert HasKey(gs, gs[i].key);
    }
  }

  lemma RunIsUnbroken(h: seq<HistoryItem>, a: nat, b: nat, c: nat, dateKey: string -> string)
    requires Contiguous(h, dateKey) && a < b < c < |h|
    ensures KeyOf(h[a], dateKey) == KeyOf(h[c], dateKey) ==> KeyOf(h[b], dateKey) == KeyOf(h[a], dateKey)
  {
    assert NoGapBetween(h, a, b, c, dateKey);
  }

  /** With unbroken runs, no group before the last one has the day of an
      item appended to the history: the last group's first item would sit
      inside that day's run. */
  lemma OnlyLastGroupOpen(p: seq<HistoryItem>, x: HistoryItem, groups: seq<Group>, dateKey: string -> string, i: nat)
    requires Contiguous(p + [x], dateKey) && LabelsInOrder(p, groups, dateKey)
    requires i < |groups| - 1
    ensures groups[i].key != KeyOf(x, dateKey)
  {
    var n := |groups|;
    if groups[i].key == KeyOf(x, dateKey) {
      RunIsUnbroken(p + [x], FirstIndex(p, groups[i].key, dateKey), FirstIndex(p, groups[n - 1].key, dateKey), |p|, dateKey);
      assert false;
    }
  }

  /** Hence a new item whose day already has a group belongs to the last
      group. */
  lemma LastGroupIsLatest(p: seq<HistoryItem>, x: HistoryItem, groups: seq<Group>, dateKey: string -> string)
    requires Contiguous(p + [x], dateKey) && LabelsInOrder(p, groups, dateKey)
    requires HasKey(groups, KeyOf(x, dateKey))
    ensures groups != [] && groups[|groups| - 1].key == KeyOf(x, dateKey)
  {
    var i := IndexOfKey(groups, KeyOf(x, dateKey));
    if i < |groups| - 1 {
      OnlyLastGroupOpen(p, x, groups, dateKey, i);
    }
  }

  lemma ContiguousPrefix(p: seq<HistoryItem>, x: HistoryItem, dateKey: string -> string)
    requires Contiguous(p + [x], dateKey)
    ensures Contiguous(p, dateKey)
  {
    forall a: nat, b: nat, c: nat | a < b < c < |p|
      ensures NoGapBetween(p, a, b, c, dateKey)
    {
      RunIsUnbroken(p + [x], a, b, c, dateKey);
      assert (p + [x])[a] == p[a] && (p + [x])[b] == p[b] && (p + [x])[c] == p[c];
    }
  }

  /** When each day's visits form one unbroken run, reading the groups in
      order gives back the history itself. */
  lemma {:induction false} ContiguousFlatten(h: seq<HistoryItem>, dateKey: string -> string)
    requires Contiguous(h, dateKey)
    ensures Flatten(GroupHistory(h, dateKey)) == h
    decreases |h|
  {
    if h != [] {
      var p := h[..|h| - 1];
      var x := h[|h| - 1];
      assert h == p + [x];
      ContiguousPrefix(p, x, dateKey);
      ContiguousFlatten(p, dateKey);
      if HasKey(GroupHistory(p, dateKey), KeyOf(x, dateKey)) {
        GroupLabelsInOrder(p, dateKey);
        LastGroupIsLatest(p, x, GroupHistory(p, dateKey), dateKey);
      }
      AddToGroupsAtEnd(GroupHistory(p, dateKey), x, dateKey);
    }
  }

  // ----- what the drawer shows ------------------------------------------------------

  datatype DrawerView = EmptyMessage(text: string) | GroupList(groups: seq<Group>)

  /** The drawer body: the fixed message when there are no groups, else the
      groups in order. */
  function View(h: seq<HistoryItem>, dateKey: string -> string): (v: DrawerView)
    ensures v.EmptyMessage? <==> h == []
    ensures v.EmptyMessage? ==> v.text == EmptyText
    ensures v.GroupList? ==> |v.groups| > 0 && v.groups == GroupHistory(h, dateKey)
  {
    var gs := GroupHistory(h, dateKey);
    if |gs| == 0 then EmptyMessage(EmptyText) else GroupList(gs)
  }

  /** The address the click on entry `j` of group `g` hands to the session:
      the address of the `j`-th visit of that group's day, in history order. */
  function ClickedUrl(h: seq<HistoryItem>, dateKey: string -> string, g: nat, j: nat): (u: string)
    requires var v := View(h, dateKey);
             v.GroupList? && g < |v.groups| && j < |v.groups[g].items|
    ensures exists i :: 0 <= i < |h| && h[i].url == u
                        && KeyOf(h[i], dateKey) == View(h, dateKey).groups[g].key
    ensures var f := Filter(h, View(h, dateKey).groups[g].key, dateKey);
            j < |f| && u == f[j].url
  {
    var v := View(h, dateKey);
    var item := v.groups[g].items[j];
    GroupItems(h, dateKey);
    assert v.groups == GroupHistory(h, dateKey);
    assert v.groups[g].items == Filter(h, v.groups[g].key, dateKey);
    assert item in Filter(h, v.groups[g].key, dateKey);
    item.url
  }

  /** Two visits share a group exactly when they fall on the same day. */
  lemma SameDaySameGroup(h: seq<HistoryItem>, dateKey: string -> string, a: nat, b: nat)
    requires a < |h| && b < |h|
    ensures var gs := GroupHistory(h, dateKey);
            KeyOf(h[a], dateKey) == KeyOf(h[b], dateKey)
            <==> exists g :: 0 <= g < |gs| && h[a] in gs[g].items && h[b] in gs[g].items
  {
    var gs := GroupHistory(h, dateKey);
    var k := KeyOf(h[a], dateKey);
    GroupItems(h, dateKey);
    GroupKeys(h, dateKey);
    if KeyOf(h[b], dateKey) == k {
      assert FirstIndex(h, k, dateKey) <= a;
      var g := IndexOfKey(gs, k);
      assert gs[g].items == Filter(h, k, dateKey);
      assert h[a] in gs[g].items && h[b] in gs[g].items;
    } else {
      forall g | 0 <= g < |gs| && h[a] in gs[g].items
        ensures h[b] !in gs[g].items
      {
        assert gs[g].items == Filter(h, gs[g].key, dateKey);
      }
    }
  }

  /** Clicking any entry of the drawer, in any reachable session, reloads
      that entry's address exactly: it is one of the session's own history
      items, so it is already normal and valid. */
  lemma ClickedEntryReloads(s: ProxyApp.Session, dateKey: string -> string, g: nat, j: nat,
                            ops: ProxyApp.UrlOps, clock: ProxyApp.Clock)
    requires ProxyApp.Reachable(s, ops)
    requires var v := View(s.history, dateKey);
             v.GroupList? && g < |v.groups| && j < |v.groups[g].items|
    ensures var u := ClickedUrl(s.history, dateKey, g, j);
            var r := ProxyApp.HandleHistoryItemClick(s, u, ops, clock);
            && r.url == u && r.error == None && !r.showHistory
            && r.cursor == s.cursor + 1 && r.history[0].url == u
  {
    var u := ClickedUrl(s.history, dateKey, g, j);
    var i :| 0 <= i < |s.history| && s.history[i].url == u;
    ProxyApp.AllAt(ProxyApp.Urls(s.history), ProxyApp.IsNormal, i);
    ProxyApp.AllAt(ProxyApp.Urls(s.history), ops.valid, i);
    ProxyApp.NormalizeOfNormal(u);
  }
}

/**
  The monitor that compares the list of mounted volumes before and after every event and reports what
  came and what went.
 */
module MountMonitor {

  type Volume = string

  datatype Event = Mounted(volume: Volume) | Unmounted(volume: Volume)

  function Gone(before: seq<Volume>, now: seq<Volume>): seq<Event> {
    if before == [] then []
    else (if before[0] !in now then [Unmounted(before[0])] else []) + Gone(before[1..], now)
  }

  function Come(before: seq<Volume>, now: seq<Volume>): seq<Event> {
    if now == [] then []
    else (if now[0] !in before then [Mounted(now[0])] else []) + Come(before, now[1..])
  }

  /** What one wake-up reports: only one of the two directions, and nothing when the lists are equally long. */
  function Report(before: seq<Volume>, now: seq<Volume>): seq<Event> {
    if |before| > |now| then Gone(before, now) else if |before| < |now| then Come(before, now) else []
  }

  lemma GoneCons(v: Volume, t: seq<Volume>, now: seq<Volume>)
    ensures Gone([v] + t, now) == (if v in now then [] else [Unmounted(v)]) + Gone(t, now)
  {
    assert ([v] + t)[1..] == t;
  }

  lemma ComeCons(before: seq<Volume>, v: Volume, t: seq<Volume>)
    ensures Come(before, [v] + t) == (if v in before then [] else [Mounted(v)]) + Come(before, t)
  {
    assert ([v] + t)[1..] == t;
  }

  /** Each volume of the old list is reported at its own place in the list, or not at all. */
  lemma {:induction false} GoneInOrder(x: seq<Volume>, v: Volume, y: seq<Volume>, now: seq<Volume>)
    ensures Gone(x + [v] + y, now) ==
      Gone(x, now) + ((if v in now then [] else [Unmounted(v)]) + Gone(y, now))
    decreases |x|
  {
    hide Gone;
    GoneCons(v, y, now);
    if x == [] {
      assert x + [v] + y == [v] + y;
      NothingLeft(now);
    } else {
      var t := x[1..];
      assert x + [v] + y == [x[0]] + (t + [v] + y) && x == [x[0]] + t;
      GoneCons(x[0], t + [v] + y, now);
      GoneCons(x[0], t, now);
      GoneInOrder(t, v, y, now);
    }
  }

  /** The same for the new list. */
  lemma {:induction false} ComeInOrder(before: seq<Volume>, x: seq<Volume>, v: Volume, y: seq<Volume>)
    ensures Come(before, x + [v] + y) ==
      Come(before, x) + ((if v in before then [] else [Mounted(v)]) + Come(before, y))
    decreases |x|
  {
    hide Come;
    ComeCons(before, v, y);
    if x == [] {
      assert x + [v] + y == [v] + y;
      NothingLeft(before);
    } else {
      var t := x[1..];
      assert x + [v] + y == [x[0]] + (t + [v] + y) && x == [x[0]] + t;
      ComeCons(before, x[0], t + [v] + y);
      ComeCons(before, x[0], t);
      ComeInOrder(before, t, v, y);
    }
  }

  /** A volume is reported as often as its own list has it, when the other list lacks it, and nothing else is. */
  lemma ReportedOften(before: seq<Volume>, now: seq<Volume>, v: Volume)
    ensures multiset(Gone(before, now))[Unmounted(v)] == if v in now then 0 else multiset(before)[v]
    ensures multiset(Come(before, now))[Mounted(v)] == if v in before then 0 else multiset(now)[v]
    ensures Mounted(v) !in Gone(before, now) && Unmounted(v) !in Come(before, now)
  {
    GoneOften(before, now, v);
    ComeOften(before, now, v);
  }

  lemma {:induction false} GoneOften(before: seq<Volume>, now: seq<Volume>, v: Volume)
    ensures multiset(Gone(before, now))[Unmounted(v)] == if v in now then 0 else multiset(before)[v]
    ensures Mounted(v) !in Gone(before, now)
    decreases |before|
  {
    if before != [] {
      GoneOften(before[1..], now, v);
      assert before == [before[0]] + before[1..];
    }
  }

  lemma {:induction false} ComeOften(before: seq<Volume>, now: seq<Volume>, v: Volume)
    ensures multiset(Come(before, now))[Mounted(v)] == if v in before then 0 else multiset(now)[v]
    ensures Unmounted(v) !in Come(before, now)
    decreases |now|
  {
    if now != [] {
      ComeOften(before, now[1..], v);
      assert now == [now[0]] + now[1..];
    }
  }

  lemma GoneFrom(before: seq<Volume>, now: seq<Volume>, i: nat)
    requires i < |before|
    ensures Gone(before[i..], now)
            == (if before[i] !in now then [Unmounted(before[i])] else []) + Gone(before[i + 1..], now)
  {
    assert before[i..][1..] == before[i + 1..];
  }

  lemma ComeFrom(before: seq<Volume>, now: seq<Volume>, i: nat)
    requires i < |now|
    ensures Come(before, now[i..])
            == (if now[i] !in before then [Mounted(now[i])] else []) + Come(before, now[i + 1..])
  {
    assert now[i..][1..] == now[i + 1..];
  }

  lemma ReportsFrom(before: seq<Volume>, lists: seq<seq<Volume>>, i: nat)
    requires i < |lists|
    ensures Reports(before, lists[i..]) == [Report(before, lists[i])] + Reports(lists[i], lists[i + 1..])
  {
    hide Report;
    assert lists[i..][1..] == lists[i + 1..];
  }

  //// The monitor

  lemma NothingLeft(list: seq<Volume>)
    ensures Gone([], list) == [] && Come(list, []) == []
  {}

  /** The loop over the old list. */
  method Unmountings(oldMountList: seq<Volume>, newMountList: seq<Volume>) returns (events: seq<Event>)
    ensures events == Gone(oldMountList, newMountList)
  {
    hide Gone;
    events := [];
    ghost var all := Gone(oldMountList, newMountList);
    assert oldMountList[0..] == oldMountList;
    for i := 0 to |oldMountList|
      invariant events + Gone(oldMountList[i..], newMountList) == all
    {
      var it := oldMountList[i];
      GoneFrom(oldMountList, newMountList, i);
      if it !in newMountList { events := events + [Unmounted(it)]; }
    }
    assert oldMountList[|oldMountList|..] == [];
    NothingLeft(newMountList);
  }

  /** The loop over the new list. */
  method Mountings(oldMountList: seq<Volume>, newMountList: seq<Volume>) returns (events: seq<Event>)
    ensures events == Come(oldMountList, newMountList)
  {
    hide Come;
    events := [];
    ghost var all := Come(oldMountList, newMountList);
    assert newMountList[0..] == newMountList;
    for i := 0 to |newMountList|
      invariant events + Come(oldMountList, newMountList[i..]) == all
    {
      var it := newMountList[i];
      ComeFrom(oldMountList, newMountList, i);
      if it !in oldMountList { events := events + [Mounted(it)]; }
    }
    assert newMountList[|newMountList|..] == [];
    NothingLeft(oldMountList);
  }

  class Monitor {
    var oldMountList: seq<Volume>
    const announceChanges: bool

    /** The first list is read only when changes are to be announced. */
    constructor (announceChanges: bool, mounted: seq<Volume>)
      ensures this.announceChanges == announceChanges
      ensures oldMountList == if announceChanges then mounted else []
    {
      this.announceChanges := announceChanges;
      oldMountList := if announceChanges then mounted else [];
    }

    /** One turn of the loop in run. */
    method Wake(mounted: seq<Volume>) returns (events: seq<Event>)
      modifies this
      ensures oldMountList == if announceChanges then mounted else old(oldMountList)
      ensures events == if announceChanges then Report(old(oldMountList), mounted) else []
    {
      events := [];
      if announceChanges {
        var newMountList := mounted;
        if |oldMountList| > |newMountList| {
          events := Unmountings(oldMountList, newMountList);
        } else if |oldMountList| < |newMountList| {
          events := Mountings(oldMountList, newMountList);
        }
        oldMountList := newMountList;
      }
    }

    /** The loop in run, over the lists that the wake-ups find. */
    method Run(lists: seq<seq<Volume>>) returns (reports: seq<seq<Event>>)
      modifies this
      ensures announceChanges ==>
        && reports == Reports(old(oldMountList), lists)
        && oldMountList == if lists == [] then old(oldMountList) else lists[|lists| - 1]
      ensures !announceChanges ==>
        && |reports| == |lists| && (forall r | r in reports :: r == []) && oldMountList == old(oldMountList)
    {
      hide Report, Reports;
      reports := [];
      assert lists[0..] == lists;
      for i := 0 to |lists|
        invariant announceChanges ==>
          && oldMountList == (if i == 0 then old(oldMountList) else lists[i - 1])
          && reports + Reports(oldMountList, lists[i..]) == Reports(old(oldMountList), lists)
        invariant !announceChanges ==>
          |reports| == i && (forall r | r in reports :: r == []) && oldMountList == old(oldMountList)
      {
        ReportsFrom(oldMountList, lists, i);
        var events := Wake(lists[i]);
        reports := reports + [events];
      }
      NoReports(oldMountList);
    }
  }

  lemma NoReports(before: seq<Volume>)
    ensures Reports(before, []) == []
  {}

  function Reports(before: seq<Volume>, lists: seq<seq<Volume>>): (r: seq<seq<Event>>)
    ensures |r| == |lists|
    decreases |lists|
  {
    if lists == [] then [] else [Report(before, lists[0])] + Reports(lists[0], lists[1..])
  }

  //// What one report says

  ghost function Set(list: seq<Volume>): set<Volume> {
    set v | v in list
  }

  ghost predicate NoDuplicates(list: seq<Volume>) {
    forall i, j | 0 <= i < j < |list| :: list[i] != list[j]
  }

  /** One of the lists holds all of the other. */
  ghost predicate Nested(before: seq<Volume>, now: seq<Volume>) {
    Set(before) <= Set(now) || Set(now) <= Set(before)
  }

  ghost function Unmounts(events: seq<Event>): set<Volume> {
    set e | e in events && e.Unmounted? :: e.volume
  }

  ghost function Mounts(events: seq<Event>): set<Volume> {
    set e | e in events && e.Mounted? :: e.volume
  }

  /** The report names exactly the volumes that went and exactly those that came. */
  ghost predicate Exact(before: seq<Volume>, now: seq<Volume>) {
    && Unmounts(Report(before, now)) == Set(before) - Set(now)
    && Mounts(Report(before, now)) == Set(now) - Set(before)
  }

  lemma UnmountsAppend(a: seq<Event>, b: seq<Event>)
    ensures Unmounts(a + b) == Unmounts(a) + Unmounts(b) && Mounts(a + b) == Mounts(a) + Mounts(b)
  {}

  lemma {:induction false} GoneNames(before: seq<Volume>, now: seq<Volume>)
    ensures Unmounts(Gone(before, now)) == Set(before) - Set(now) && Mounts(Gone(before, now)) == {}
    decreases |before|
  {
    if before != [] {
      GoneNames(before[1..], now);
      var first := if before[0] !in now then [Unmounted(before[0])] else [];
      UnmountsAppend(first, Gone(before[1..], now));
      assert Set(before) == {before[0]} + Set(before[1..]);
    }
  }

  lemma {:induction false} ComeNames(before: seq<Volume>, now: seq<Volume>)
    ensures Mounts(Come(before, now)) == Set(now) - Set(before) && Unmounts(Come(before, now)) == {}
    decreases |now|
  {
    if now != [] {
      ComeNames(before, now[1..]);
      var first := if now[0] !in before then [Mounted(now[0])] else [];
      UnmountsAppend(first, Come(before, now[1..]));
      assert Set(now) == {now[0]} + Set(now[1..]);
    }
  }

  lemma {:induction false} SetSize(list: seq<Volume>)
    requires NoDuplicates(list)
    ensures |Set(list)| == |list|
    decreases |list|
  {
    if list == [] {
      assert Set(list) == {};
    } else {
      SetSize(list[1..]);
      assert Set(list) == {list[0]} + Set(list[1..]);
      assert list[0] !in list[1..];
    }
  }

  lemma SubsetSize(a: set<Volume>, b: set<Volume>)
    requires a <= b
    ensures |a| <= |b| && (|a| == |b| ==> a == b)
  {
    assert b == a + (b - a);
    assert |b| == |a| + |b - a|;
  }

  /** No volume changes in the direction that the lengths of the lists hide. */
  ghost predicate InSight(before: seq<Volume>, now: seq<Volume>) {
    if |before| > |now| then Set(now) <= Set(before)
    else if |before| < |now| then Set(before) <= Set(now)
    else Set(before) == Set(now)
  }

  /** Whatever the lists: the report is exact exactly when nothing changes out of sight. */
  lemma ExactForAllLists(before: seq<Volume>, now: seq<Volume>)
    ensures Exact(before, now) <==> InSight(before, now)
  {
    hide Set;
    GoneNames(before, now);
    ComeNames(before, now);
    NothingReported();
    EmptyDifference(Set(before), Set(now));
    EmptyDifference(Set(now), Set(before));
  }

  lemma EmptyDifference(a: set<Volume>, b: set<Volume>)
    ensures a - b == {} <==> a <= b
  {
    if a - b == {} {
      forall v | v in a ensures v in b { assert v !in a - b; }
    }
  }

  lemma NothingReported()
    ensures Unmounts([]) == {} && Mounts([]) == {}
  {}

  /** For lists without duplicates that is: exactly when one list holds all of the other. */
  lemma NestedInSight(before: seq<Volume>, now: seq<Volume>)
    requires NoDuplicates(before) && NoDuplicates(now)
    ensures InSight(before, now) <==> Nested(before, now)
  {
    SetSize(before);
    SetSize(now);
    if Set(before) <= Set(now) { SubsetSize(Set(before), Set(now)); }
    if Set(now) <= Set(before) { SubsetSize(Set(now), Set(before)); }
  }

  lemma ExactWhenNested(before: seq<Volume>, now: seq<Volume>)
    requires NoDuplicates(before) && NoDuplicates(now)
    ensures Exact(before, now) <==> Nested(before, now)
  {
    hide Exact, InSight, Nested, NoDuplicates;
    ExactForAllLists(before, now);
    NestedInSight(before, now);
  }

  //// What all the reports amount to

  /** A listener's view of the mounted volumes after some events. */
  ghost function Followed(view: set<Volume>, events: seq<Event>): set<Volume>
    decreases |events|
  {
    if events == [] then view
    else
      Followed(match events[0] case Mounted(v) => view + {v} case Unmounted(v) => view - {v}, events[1..])
  }

  lemma FirstOf(events: seq<Event>)
    requires events != []
    ensures if events[0].Mounted? then events[0].volume in Mounts(events) else events[0].volume in Unmounts(events)
  {
    assert events[0] in events;
  }

  lemma {:induction false} FollowedUnmounts(view: set<Volume>, events: seq<Event>)
    requires Mounts(events) == {}
    ensures Followed(view, events) == view - Unmounts(events)
    decreases |events|
  {
    if events != [] {
      FirstOf(events);
      assert events == [events[0]] + events[1..];
      UnmountsAppend([events[0]], events[1..]);
      FollowedUnmounts(view - {events[0].volume}, events[1..]);
      assert Unmounts([events[0]]) == {events[0].volume};
    }
  }

  lemma {:induction false} FollowedMounts(view: set<Volume>, events: seq<Event>)
    requires Unmounts(events) == {}
    ensures Followed(view, events) == view + Mounts(events)
    decreases |events|
  {
    if events != [] {
      FirstOf(events);
      assert events == [events[0]] + events[1..];
      UnmountsAppend([events[0]], events[1..]);
      FollowedMounts(view + {events[0].volume}, events[1..]);
      assert Mounts([events[0]]) == {events[0].volume};
    }
  }

  /** A listener who knows the old list knows the new one after the report exactly when nothing has changed out
      of sight. */
  lemma FollowedStep(before: seq<Volume>, now: seq<Volume>)
    ensures Followed(Set(before), Report(before, now)) == Set(now) <==> InSight(before, now)
  {
    hide Followed, Gone, Come, Unmounts, Mounts;
    GoneNames(before, now);
    ComeNames(before, now);
    NothingReported();
    if |before| > |now| {
      FollowedUnmounts(Set(before), Report(before, now));
    } else {
      FollowedMounts(Set(before), Report(before, now));
    }
  }

  /** The listener is right after every wake-up of a run. */
  ghost predicate AlwaysRight(view: set<Volume>, reports: seq<seq<Event>>, lists: seq<seq<Volume>>)
    requires |reports| == |lists|
    decreases |lists|
  {
    lists == [] ||
    var next := Followed(view, reports[0]);
    next == Set(lists[0]) && AlwaysRight(next, reports[1..], lists[1..])
  }

  ghost predicate AllInSight(before: seq<Volume>, lists: seq<seq<Volume>>)
    decreases |lists|
  {
    lists == [] || (InSight(before, lists[0]) && AllInSight(lists[0], lists[1..]))
  }

  /** For every run: a listener who starts with the first list and follows the reports is right after every
      wake-up exactly when no step has a change out of sight. */
  lemma {:induction false} RunFollowed(before: seq<Volume>, lists: seq<seq<Volume>>)
    ensures AlwaysRight(Set(before), Reports(before, lists), lists) <==> AllInSight(before, lists)
    decreases |lists|
  {
    hide Followed, InSight, Set, Report;
    if lists != [] {
      FollowedStep(before, lists[0]);
      RunFollowed(lists[0], lists[1..]);
      assert Reports(before, lists)[1..] == Reports(lists[0], lists[1..]);
    }
  }

  ghost predicate AllNested(before: seq<Volume>, lists: seq<seq<Volume>>)
    decreases |lists|
  {
    lists == [] || (Nested(before, lists[0]) && AllNested(lists[0], lists[1..]))
  }

  /** Over lists without duplicates that is: exactly when each list is nested with the one before it. */
  lemma {:induction false} NestedRunFollowed(before: seq<Volume>, lists: seq<seq<Volume>>)
    requires NoDuplicates(before) && forall l | l in lists :: NoDuplicates(l)
    ensures AlwaysRight(Set(before), Reports(before, lists), lists) <==> AllNested(before, lists)
    decreases |lists|
  {
    hide Followed, NoDuplicates, Nested, InSight, Set, Report;
    if lists != [] {
      assert lists[0] in lists;
      FollowedStep(before, lists[0]);
      NestedInSight(before, lists[0]);
      NestedRunFollowed(lists[0], lists[1..]);
      assert Reports(before, lists)[1..] == Reports(lists[0], lists[1..]);
    }
  }

  /** One volume unmounted and another mounted between two wake-ups: nothing is reported. */
  lemma SwapIsSilent()
    ensures Report(["a"], ["b"]) == [] && !Exact(["a"], ["b"])
    ensures Followed(Set(["a"]), Report(["a"], ["b"])) != Set(["b"])
  {
    assert "a" in Set(["a"]) && "a" !in Set(["b"]);
    ExactForAllLists(["a"], ["b"]);
    FollowedStep(["a"], ["b"]);
  }
}

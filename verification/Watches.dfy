/** Which listed items the badge plugin watches for metadata changes, and the notes it keeps about their pins. */
module Watches {
  import opened Sorting

  const MAX_WATCHED := 512

  function Without(xs: seq<string>, x: string): (r: seq<string>)
    ensures |r| == if x in xs then |xs| - 1 else |xs|
  {
    if xs == [] then [] else if xs[0] == x then xs[1..] else [xs[0]] + Without(xs[1..], x)
  }

  /** `system` is what the file watcher watches, `watched` the listed items among it in the order of their
      last listing, and `pins` the notes. */
  datatype State = State(system: set<string>, watched: seq<string>, pins: map<string, bool>)

  /** A listing comes with the file watcher's answer and the item's mark, a metadata change with whether the
      file watcher has dropped the item (it was deleted or replaced) and the mark. */
  datatype Event =
    | Listed(path: string, added: bool, pinned: bool)
    | Changed(path: string, dropped: bool, pinned: bool)

  function Pin(pins: map<string, bool>, path: string): bool {
    if path in pins then pins[path] else false
  }

  /** The oldest item gives way when there is no room. */
  function Room(s: State): State {
    if |s.watched| < MAX_WATCHED then s
    else State(s.system - {s.watched[0]}, s.watched[1..], s.pins - {s.watched[0]})
  }

  function List(roots: set<string>, s: State, path: string, added: bool, pinned: bool): State {
    if path in roots then s.(system := if added then s.system + {path} else s.system)
    else if path in s.watched then s.(watched := Without(s.watched, path) + [path])
    else
      var r := Room(s);
      if added then State(r.system + {path}, r.watched + [path], r.pins[path := pinned]) else r
  }

  function Change(s: State, path: string, dropped: bool, pinned: bool): State {
    State(
      if dropped then s.system - {path} else s.system,
      if dropped || path !in s.system then Without(s.watched, path) else s.watched,
      if Pin(s.pins, path) != pinned then s.pins[path := pinned] else s.pins)
  }

  function Step(roots: set<string>, s: State, e: Event): State {
    match e
    case Listed(path, added, pinned) => List(roots, s, path, added, pinned)
    case Changed(path, dropped, pinned) => Change(s, path, dropped, pinned)
  }

  /** The plugin starts with the roots that the file watcher accepts. */
  function Run(roots: set<string>, accepted: set<string>, events: seq<Event>): State {
    if events == [] then State(roots * accepted, [], map[])
    else Step(roots, Run(roots, accepted, events[..|events| - 1]), events[|events| - 1])
  }

  /** At most 512 different items, each of them under watch and noted, none of them a root. */
  ghost predicate Sound(roots: set<string>, s: State) {
    && |s.watched| <= MAX_WATCHED && Distinct(s.watched)
    && forall x :: x in s.watched ==> x !in roots && x in s.system && x in s.pins
  }

  /** The plugin's side of the watching. */
  class Watcher {
    const roots: set<string>
    var system: set<string>
    var watched: seq<string>
    var pins: map<string, bool>

    ghost function Value(): State
      reads this
    {
      State(system, watched, pins)
    }

    ghost predicate Valid()
      reads this
    {
      Sound(roots, Value())
    }

    constructor (roots: set<string>, accepted: set<string>)
      ensures Valid() && this.roots == roots && Value() == Run(roots, accepted, [])
    {
      this.roots := roots;
      system := roots * accepted;
      watched := [];
      pins := map[];
    }

    /** `watch`. */
    method Watch(path: string, added: bool, pinned: bool)
      requires Valid()
      modifies this
      ensures Valid() && Value() == List(roots, old(Value()), path, added, pinned)
    {
      StepKeepsSound(roots, Value(), Listed(path, added, pinned));
      if path in roots {
        if path !in system && added { system := system + {path}; }
        assert added ==> system == old(system) + {path};
        return;
      }
      if path in watched {
        watched := Without(watched, path);
      } else {
        if |watched| >= MAX_WATCHED {
          var oldest := watched[0];
          watched := watched[1..];
          system := system - {oldest};
          pins := pins - {oldest};
        }
        if !added { return; }
        system := system + {path};
        pins := pins[path := pinned];
      }
      watched := watched + [path];
    }

    /** `metadataChanged`. The note of an item that the file watcher has dropped stays. */
    method MetadataChanged(path: string, dropped: bool, pinned: bool)
      requires Valid()
      modifies this
      ensures Valid() && Value() == Change(old(Value()), path, dropped, pinned)
    {
      StepKeepsSound(roots, Value(), Changed(path, dropped, pinned));
      if dropped { system := system - {path}; }
      if Pin(pins, path) != pinned {
        pins := pins[path := pinned];
      }
      if path !in system {
        watched := Without(watched, path);
      }
    }
  }

  lemma {:induction false} WithoutAbsent(xs: seq<string>, x: string)
    requires x !in xs
    ensures Without(xs, x) == xs
  {
    if xs != [] {
      WithoutAbsent(xs[1..], x);
      assert xs == [xs[0]] + xs[1..];
    }
  }

  lemma {:induction false} WithoutFacts(xs: seq<string>, x: string)
    requires Distinct(xs)
    ensures Distinct(Without(xs, x)) && x !in Without(xs, x)
    ensures forall y :: y in Without(xs, x) <==> y in xs && y != x
  {
    if xs != [] {
      WithoutFacts(xs[1..], x);
      assert forall y :: y in xs <==> y == xs[0] || y in xs[1..];
      assert xs[0] !in xs[1..];
    }
  }

  lemma DistinctRest(xs: seq<string>)
    requires Distinct(xs) && xs != []
    ensures Distinct(xs[1..]) && forall y :: y in xs[1..] <==> y in xs && y != xs[0]
  {
    assert forall y :: y in xs <==> y == xs[0] || y in xs[1..];
  }

  lemma DistinctMore(xs: seq<string>, x: string)
    requires Distinct(xs) && x !in xs
    ensures Distinct(xs + [x]) && forall y :: y in xs + [x] <==> y in xs || y == x
  {
  }

  /** What making room takes from each part of the state. */
  lemma RoomFacts(roots: set<string>, s: State)
    requires Sound(roots, s)
    ensures Sound(roots, Room(s)) && |Room(s).watched| < MAX_WATCHED
    ensures forall y :: y in Room(s).watched ==> y in s.watched
    ensures Items(Room(s)) <= Items(s) && Room(s).pins.Keys == s.pins.Keys - (Items(s) - Items(Room(s)))
  {
    if |s.watched| >= MAX_WATCHED {
      DistinctRest(s.watched);
      assert Items(s) - Items(Room(s)) == {s.watched[0]};
    }
  }

  function Items(s: State): set<string> {
    set x | x in s.watched
  }

  lemma StepKeepsSound(roots: set<string>, s: State, e: Event)
    requires Sound(roots, s)
    ensures Sound(roots, Step(roots, s, e))
  {
    hide Without, Room;
    WithoutFacts(s.watched, e.path);
    if e.path !in s.watched {
      WithoutAbsent(s.watched, e.path);
      RoomFacts(roots, s);
      DistinctMore(Room(s).watched, e.path);
    } else {
      DistinctMore(Without(s.watched, e.path), e.path);
    }
  }

  lemma {:induction false} RunKeepsSound(roots: set<string>, accepted: set<string>, events: seq<Event>)
    ensures Sound(roots, Run(roots, accepted, events))
  {
    hide Step;
    if events != [] {
      RunKeepsSound(roots, accepted, events[..|events| - 1]);
      StepKeepsSound(roots, Run(roots, accepted, events[..|events| - 1]), events[|events| - 1]);
    }
  }

  // ---- the notes ----

  /** The event leaves a note without a watched item: such an item is dropped, or one that is not watched is marked. */
  predicate LeavesNote(s: State, e: Event) {
    e.Changed? && if e.path in s.watched then e.dropped else e.pinned
  }

  /** Items with a note that are not watched: left behind, and not accepted again since. */
  function LeftOver(roots: set<string>, accepted: set<string>, events: seq<Event>): set<string> {
    if events == [] then {} else
      var front, e := events[..|events| - 1], events[|events| - 1];
      var s, left := Run(roots, accepted, front), LeftOver(roots, accepted, front);
      if LeavesNote(s, e) then left + {e.path}
      else if e.Listed? && e.added && e.path !in roots && e.path !in s.watched then left - {e.path}
      else left
  }

  /** What one event does to the noted items beyond the watched ones. */
  lemma StepNotes(roots: set<string>, s: State, e: Event, left: set<string>)
    requires Sound(roots, s) && s.pins.Keys == Items(s) + left && Items(s) !! left
    ensures var t := Step(roots, s, e);
      var now := if LeavesNote(s, e) then left + {e.path}
                 else if e.Listed? && e.added && e.path !in roots && e.path !in s.watched then left - {e.path} else left;
      t.pins.Keys == Items(t) + now && Items(t) !! now
  {
    hide Without, Room;
    WithoutFacts(s.watched, e.path);
    var t := Step(roots, s, e);
    if e.path in s.watched {
      DistinctMore(Without(s.watched, e.path), e.path);
      if e.Changed? && e.dropped { assert Items(t) == Items(s) - {e.path}; } else { assert Items(t) == Items(s); }
    } else {
      WithoutAbsent(s.watched, e.path);
      RoomFacts(roots, s);
      DistinctMore(Room(s).watched, e.path);
      if e.Changed? || e.path in roots { assert Items(t) == Items(s); }
      else if e.added { assert Items(t) == Items(Room(s)) + {e.path}; }
    }
  }

  lemma {:induction false} ItemsCount(xs: seq<string>)
    requires Distinct(xs)
    ensures |set x | x in xs| == |xs|
  {
    if xs != [] {
      DistinctRest(xs);
      ItemsCount(xs[1..]);
      assert (set x | x in xs) == (set x | x in xs[1..]) + {xs[0]};
    }
  }

  /** Over any listings and metadata changes the notes are those of the watched items and the ones left over,
      so the bound on watched items bounds the notes up to the latter. */
  lemma {:induction false} NotesExactly(roots: set<string>, accepted: set<string>, events: seq<Event>)
    ensures var s, left := Run(roots, accepted, events), LeftOver(roots, accepted, events);
      && s.pins.Keys == Items(s) + left && Items(s) !! left
      && |s.pins| == |s.watched| + |left| && |s.watched| <= 512
  {
    hide Step, LeavesNote;
    var s, left := Run(roots, accepted, events), LeftOver(roots, accepted, events);
    if events != [] {
      var front, e := events[..|events| - 1], events[|events| - 1];
      NotesExactly(roots, accepted, front);
      RunKeepsSound(roots, accepted, front);
      StepNotes(roots, Run(roots, accepted, front), e, LeftOver(roots, accepted, front));
    } else {
      assert Items(s) == {};
    }
    RunKeepsSound(roots, accepted, events);
    ItemsCount(s.watched);
    assert |s.pins| == |s.pins.Keys|;
  }

  /** The notes are those of the watched items, no more and no less. */
  predicate InStep(s: State) {
    s.pins.Keys == Items(s)
  }

  lemma InStepExactly(roots: set<string>, accepted: set<string>, events: seq<Event>)
    requires events != [] && InStep(Run(roots, accepted, events[..|events| - 1]))
    ensures InStep(Run(roots, accepted, events)) <==>
      !LeavesNote(Run(roots, accepted, events[..|events| - 1]), events[|events| - 1])
  {
    hide Step, Run;
    NotesExactly(roots, accepted, events);
    NotesExactly(roots, accepted, events[..|events| - 1]);
    assert LeftOver(roots, accepted, events[..|events| - 1]) == {};
  }

  /** The notes stay those of the watched items throughout a run, and so within the bound of 512, exactly when
      no watched item is dropped in it and no unwatched one marked. */
  lemma {:induction false} NotesStayInStepExactly(roots: set<string>, accepted: set<string>, events: seq<Event>)
    ensures (forall n :: 0 <= n <= |events| ==> InStep(Run(roots, accepted, events[..n])))
      <==> (forall n :: 0 <= n < |events| ==> !LeavesNote(Run(roots, accepted, events[..n]), events[n]))
    ensures (forall n :: 0 <= n < |events| ==> !LeavesNote(Run(roots, accepted, events[..n]), events[n]))
      ==> |Run(roots, accepted, events).pins| <= 512
  {
    hide InStep, LeavesNote, Run;
    assert events[..|events|] == events;
    if events == [] {
      NothingNoted(roots, accepted);
    } else {
      var front := events[..|events| - 1];
      NotesStayInStepExactly(roots, accepted, front);
      assert forall n :: 0 <= n <= |front| ==> front[..n] == events[..n];
      assert forall n :: 0 <= n < |front| ==> front[n] == events[n];
      if InStep(Run(roots, accepted, front)) { InStepExactly(roots, accepted, events); }
      assert front[..|front|] == front;
    }
    if InStep(Run(roots, accepted, events)) { InStepIsBounded(roots, accepted, events); }
  }

  lemma NothingNoted(roots: set<string>, accepted: set<string>)
    ensures InStep(Run(roots, accepted, []))
  {
  }

  lemma InStepIsBounded(roots: set<string>, accepted: set<string>, events: seq<Event>)
    requires InStep(Run(roots, accepted, events))
    ensures |Run(roots, accepted, events).pins| <= MAX_WATCHED
  {
    hide Run;
    NotesExactly(roots, accepted, events);
    assert LeftOver(roots, accepted, events) == {};
  }

  /** The mark of an item as the plugin last read it: at a metadata change, or at a listing that takes it up. */
  function LastRead(roots: set<string>, accepted: set<string>, events: seq<Event>, x: string): bool {
    if events == [] then false else
      var front, e := events[..|events| - 1], events[|events| - 1];
      var takenUp := e.Listed? && e.added && x !in roots && x !in Run(roots, accepted, front).watched;
      if e.path == x && (e.Changed? || takenUp) then e.pinned else LastRead(roots, accepted, front, x)
  }

  /** Every note is the mark that was last read. */
  lemma {:induction false} NotesAreMarks(roots: set<string>, accepted: set<string>, events: seq<Event>, x: string)
    ensures var s := Run(roots, accepted, events);
      x in s.pins ==> s.pins[x] == LastRead(roots, accepted, events, x)
  {
    hide Without, Sound;
    if events != [] {
      var front := events[..|events| - 1];
      NotesAreMarks(roots, accepted, front, x);
      RunKeepsSound(roots, accepted, front);
    }
  }

  // ---- what the file watcher watches ----

  /** The file watcher has the root: it was accepted at the start or at a listing, and not dropped since. */
  predicate RootWatched(accepted: set<string>, events: seq<Event>, root: string) {
    if events == [] then root in accepted else
      var front, e := events[..|events| - 1], events[|events| - 1];
      if e.path != root then RootWatched(accepted, front, root)
      else if e.Listed? then e.added || RootWatched(accepted, front, root)
      else !e.dropped && RootWatched(accepted, front, root)
  }

  lemma StepSystem(roots: set<string>, s: State, e: Event)
    requires Sound(roots, s) && s.system - roots == Items(s)
    ensures var t := Step(roots, s, e); t.system - roots == Items(t)
    ensures forall r :: r in roots ==> (r in Step(roots, s, e).system <==>
      if r != e.path then r in s.system else if e.Listed? then e.added || r in s.system else !e.dropped && r in s.system)
  {
    hide Without, Room;
    WithoutFacts(s.watched, e.path);
    var t := Step(roots, s, e);
    assert forall x :: x in s.watched <==> x in Items(s);
    if e.path in s.watched {
      DistinctMore(Without(s.watched, e.path), e.path);
      if e.Changed? && e.dropped { assert Items(t) == Items(s) - {e.path}; } else { assert Items(t) == Items(s); }
    } else {
      WithoutAbsent(s.watched, e.path);
      RoomSystem(roots, s);
      RoomFacts(roots, s);
      DistinctMore(Room(s).watched, e.path);
      if e.Changed? || e.path in roots { assert Items(t) == Items(s); }
      else if e.added { assert Items(t) == Items(Room(s)) + {e.path}; }
    }
  }

  lemma RoomSystem(roots: set<string>, s: State)
    requires Sound(roots, s) && s.system - roots == Items(s)
    ensures Room(s).system - roots == Items(Room(s))
    ensures forall r :: r in roots ==> (r in Room(s).system <==> r in s.system)
  {
    if |s.watched| >= MAX_WATCHED {
      DistinctRest(s.watched);
      assert Items(Room(s)) == Items(s) - {s.watched[0]};
    }
  }

  /** Besides the roots the file watcher watches the listed items and nothing else, and of the roots those it
      took and did not drop: no listing of other items ever costs a root its place. */
  lemma {:induction false} SystemExactly(roots: set<string>, accepted: set<string>, events: seq<Event>)
    ensures var s := Run(roots, accepted, events);
      && s.system - roots == Items(s)
      && forall r :: r in roots ==> (r in s.system <==> RootWatched(accepted, events, r))
  {
    hide Step;
    if events != [] {
      var front, e := events[..|events| - 1], events[|events| - 1];
      SystemExactly(roots, accepted, front);
      RunKeepsSound(roots, accepted, front);
      StepSystem(roots, Run(roots, accepted, front), e);
    }
  }

  // ---- which items are watched ----

  /** The known items in the order they were last listed, without a limit on their number: a refused item and
      a dropped one are not known until they are listed again. */
  function Known(roots: set<string>, accepted: set<string>, events: seq<Event>): seq<string> {
    if events == [] then [] else
      var front, e := events[..|events| - 1], events[|events| - 1];
      var known := Known(roots, accepted, front);
      match e
      case Listed(path, added, _) =>
        if path in roots then known
        else Without(known, path) + (if added || path in Run(roots, accepted, front).watched then [path] else [])
      case Changed(path, dropped, _) => if dropped then Without(known, path) else known
  }

  ghost predicate IsTail(tail: seq<string>, all: seq<string>) {
    |tail| <= |all| && all[|all| - |tail|..] == tail
  }

  lemma {:induction false} WithoutInTail(head: seq<string>, tail: seq<string>, x: string)
    requires x !in head
    ensures Without(head + tail, x) == head + Without(tail, x)
  {
    if head == [] {
      assert head + tail == tail;
    } else {
      assert (head + tail)[0] == head[0] && (head + tail)[1..] == head[1..] + tail;
      WithoutInTail(head[1..], tail, x);
    }
  }

  lemma {:induction false} WithoutInHead(head: seq<string>, tail: seq<string>, x: string)
    requires x in head
    ensures Without(head + tail, x) == Without(head, x) + tail
  {
    assert (head + tail)[0] == head[0] && (head + tail)[1..] == head[1..] + tail;
    if head[0] != x {
      WithoutInHead(head[1..], tail, x);
    }
  }

  lemma NotInBoth(a: seq<string>, b: seq<string>, x: string)
    requires Distinct(a + b) && x in b
    ensures x !in a
  {
    var k :| 0 <= k < |b| && b[k] == x;
    assert (a + b)[|a| + k] == x;
    assert forall i :: 0 <= i < |a| ==> (a + b)[i] == a[i];
  }

  /** Taking an item out of a list takes it out of its tail. */
  lemma TailWithout(tail: seq<string>, all: seq<string>, x: string)
    requires Distinct(all) && IsTail(tail, all)
    ensures IsTail(Without(tail, x), Without(all, x))
    ensures x !in all ==> Without(all, x) == all && Without(tail, x) == tail
  {
    hide Without;
    var head := all[..|all| - |tail|];
    assert all == head + tail;
    if x in tail {
      NotInBoth(head, tail, x);
      WithoutInTail(head, tail, x);
    } else {
      WithoutAbsent(tail, x);
      if x in head { WithoutInHead(head, tail, x); } else { WithoutAbsent(all, x); }
    }
  }

  lemma ShorterTail(tail: seq<string>, all: seq<string>, x: string)
    requires IsTail(tail, all)
    ensures IsTail(tail + [x], all + [x])
    ensures tail != [] ==> IsTail(tail[1..], all) && IsTail(tail[1..] + [x], all + [x])
  {
  }

  /** The watched items after an event. */
  lemma StepWatched(roots: set<string>, s: State, e: Event)
    requires Sound(roots, s)
    ensures var next := Step(roots, s, e).watched;
      var kept := Without(s.watched, e.path);
      if e.Changed? then next == if e.dropped then kept else s.watched
      else if e.path in roots then next == s.watched
      else
        var room := if e.path !in s.watched && |s.watched| >= MAX_WATCHED then kept[1..] else kept;
        next == if e.added || e.path in s.watched then room + [e.path] else room
  {
    hide Without;
    if e.path !in s.watched { WithoutAbsent(s.watched, e.path); }
  }

  lemma StepKeepsTail(roots: set<string>, s: State, known: seq<string>, e: Event)
    requires Sound(roots, s) && Distinct(known) && IsTail(s.watched, known)
    ensures var next :=
        if e.Listed? then
          (if e.path in roots then known
           else Without(known, e.path) + (if e.added || e.path in s.watched then [e.path] else []))
        else if e.dropped then Without(known, e.path) else known;
      Distinct(next) && IsTail(Step(roots, s, e).watched, next)
  {
    hide Without, IsTail, Distinct, Step;
    StepWatched(roots, s, e);
    TailWithout(s.watched, known, e.path);
    WithoutFacts(known, e.path);
    if e.Listed? {
      ShorterTail(Without(s.watched, e.path), Without(known, e.path), e.path);
      DistinctMore(Without(known, e.path), e.path);
      assert Without(known, e.path) + [] == Without(known, e.path);
    }
  }

  /** Over any run, refusals and drops included, the watched items are the known ones listed last: none is
      passed over for one listed before it. */
  lemma {:induction false} WatchesTheLatestKnown(roots: set<string>, accepted: set<string>, events: seq<Event>)
    ensures var s, known := Run(roots, accepted, events), Known(roots, accepted, events);
      Distinct(known) && IsTail(s.watched, known)
  {
    hide Without, IsTail, Distinct, Step;
    if events == [] {
      EmptyTail();
    } else {
      var front, e := events[..|events| - 1], events[|events| - 1];
      WatchesTheLatestKnown(roots, accepted, front);
      RunKeepsSound(roots, accepted, front);
      StepKeepsTail(roots, Run(roots, accepted, front), Known(roots, accepted, front), e);
    }
  }

  lemma EmptyTail()
    ensures Distinct<string>([]) && IsTail([], [])
  {
  }

  /** The listed items, roots left aside. */
  function Listings(roots: set<string>, events: seq<Event>): seq<string> {
    if events == [] then [] else
      var e := events[|events| - 1];
      Listings(roots, events[..|events| - 1]) + (if e.Listed? && e.path !in roots then [e.path] else [])
  }

  /** Without repeats, each at the place of its last listing. */
  function Recent(listings: seq<string>): seq<string> {
    if listings == [] then [] else
      var last := listings[|listings| - 1];
      Without(Recent(listings[..|listings| - 1]), last) + [last]
  }

  function Newest(xs: seq<string>, n: nat): seq<string> {
    if |xs| <= n then xs else xs[|xs| - n..]
  }

  /** A listing that the file watcher does not refuse, or a change that does not drop the item. */
  predicate Smooth(roots: set<string>, s: State, e: Event) {
    match e
    case Listed(path, added, _) => path in roots || path in s.watched || added
    case Changed(_, dropped, _) => !dropped
  }

  predicate AllSmooth(roots: set<string>, accepted: set<string>, events: seq<Event>) {
    events == [] ||
      var front := events[..|events| - 1];
      AllSmooth(roots, accepted, front) && Smooth(roots, Run(roots, accepted, front), events[|events| - 1])
  }

  /** When nothing is refused or dropped, the items watched are the 512 listed last. */
  lemma {:induction false} WatchesTheLastListed(roots: set<string>, accepted: set<string>, events: seq<Event>)
    requires AllSmooth(roots, accepted, events)
    ensures Known(roots, accepted, events) == Recent(Listings(roots, events))
    ensures Run(roots, accepted, events).watched == Newest(Recent(Listings(roots, events)), 512)
  {
    hide Step, Newest, Without;
    if events == [] {
      NothingListed();
    } else {
      var front, e := events[..|events| - 1], events[|events| - 1];
      WatchesTheLastListed(roots, accepted, front);
      WatchesTheLatestKnown(roots, accepted, events);
      RunKeepsSound(roots, accepted, front);
      hide IsTail, Sound;
      SmoothStep(roots, Run(roots, accepted, front), Listings(roots, front), e, Known(roots, accepted, events));
    }
  }

  lemma NothingListed()
    ensures Newest([], MAX_WATCHED) == []
  {
  }

  lemma SmoothStep(roots: set<string>, s: State, listings: seq<string>, e: Event, known: seq<string>)
    requires Sound(roots, s) && Smooth(roots, s, e) && s.watched == Newest(Recent(listings), MAX_WATCHED)
    requires known == if e.Changed? || e.path in roots then Recent(listings) else Without(Recent(listings), e.path) + [e.path]
    requires IsTail(Step(roots, s, e).watched, known)
    ensures var more := listings + (if e.Listed? && e.path !in roots then [e.path] else []);
      known == Recent(more) && Step(roots, s, e).watched == Newest(Recent(more), MAX_WATCHED)
  {
    hide Step, Smooth, Newest, Without, IsTail, Sound;
    if e.Listed? && e.path !in roots {
      assert (listings + [e.path])[..|listings|] == listings;
      ListedLast(roots, s, Recent(listings), e);
    } else {
      assert listings + [] == listings;
      WatchedSettled(roots, s, e);
    }
  }

  /** With nothing refused the tail stays as long as the limit lets it. */
  lemma ListedLast(roots: set<string>, s: State, known: seq<string>, e: Event)
    requires Sound(roots, s) && s.watched == Newest(known, MAX_WATCHED)
    requires e.Listed? && e.path !in roots && Smooth(roots, s, e)
    requires IsTail(Step(roots, s, e).watched, Without(known, e.path) + [e.path])
    ensures Step(roots, s, e).watched == Newest(Without(known, e.path) + [e.path], MAX_WATCHED)
  {
    hide Distinct;
    if e.path in s.watched { assert e.path in known; }
  }

  lemma WatchedSettled(roots: set<string>, s: State, e: Event)
    requires Sound(roots, s) && Smooth(roots, s, e) && (e.Changed? || e.path in roots)
    ensures Step(roots, s, e).watched == s.watched
  {
    if e.path !in s.watched { WithoutAbsent(s.watched, e.path); }
  }

  // ---- the notes are not bounded ----

  /** `n` different names. */
  function Names(n: nat): (r: seq<string>)
    ensures |r| == n && Distinct(r) && forall i :: 0 <= i < n ==> 1 <= |r[i]| <= n
  {
    if n == 0 then [] else
      var r := Names(n - 1);
      r + [seq(n, _ => 'a')]
  }

  lemma ListedAndGone(s: State, x: string)
    requires s.watched == [] && x !in s.system && x !in s.pins
    ensures Change(List({}, s, x, true, false), x, true, false) == s.(pins := s.pins[x := false])
  {
    assert Without([x], x) == [];
    assert s.system + {x} - {x} == s.system;
  }

  /** Listing any number of files, each of which is then replaced, leaves nothing watched and a note for every one. */
  method PinsOutliveFiles(n: nat) returns (w: Watcher)
    ensures fresh(w) && w.Valid() && w.watched == [] && |w.pins| == n
  {
    w := new Watcher({}, {});
    var names := Names(n);
    hide Names, List, Change, Distinct;
    for i := 0 to n
      invariant fresh(w) && w.Valid() && w.watched == [] && w.roots == {} && w.system == {}
      invariant |w.pins| == i && forall x :: x in w.pins ==> exists k :: 0 <= k < i && names[k] == x
    {
      DistinctAt(names, i);
      ListedAndGone(w.Value(), names[i]);
      w.Watch(names[i], true, false);
      w.MetadataChanged(names[i], true, false);
    }
  }

  lemma DistinctAt(xs: seq<string>, i: nat)
    requires Distinct(xs) && i < |xs|
    ensures forall k :: 0 <= k < i ==> xs[k] != xs[i]
  {
  }
}

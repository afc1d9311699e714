/** The immutable trail structure of trail.py and the walk `follow_path` performs over it. */
module Trails {
  import opened Mountains

  /** `Trail` wraps a store; `None` is the empty store. */
  datatype Trail = Trail(store: Store)

  datatype Store =
    | None
    | TrailSeries(mountain: Mountain, following: Trail)
    | TrailSplit(top: Trail, bottom: Trail, following: Trail)

  /** What a walker answers at a split (`PersonalityDecision`). */
  datatype Decision = TOP | BOTTOM | STOP

  /** The walker consulted at a split: it sees the mountains it has collected so far and the two branches. */
  type Walker = (seq<Mountain>, Trail, Trail) -> Decision

  const EmptyTrail := Trail(None)

  // ----- builders -----

  /** `Trail.add_mountain_before`. */
  function AddMountainBefore(t: Trail, m: Mountain): (r: Trail)
    ensures r.store.TrailSeries? && r.store.mountain == m && r.store.following == t
  {
    Trail(TrailSeries(m, t))
  }

  /** `Trail.add_empty_branch_before`. */
  function AddEmptyBranchBefore(t: Trail): (r: Trail)
    ensures r.store.TrailSplit? && r.store.top == EmptyTrail && r.store.bottom == EmptyTrail
    ensures r.store.following == t
  {
    Trail(TrailSplit(EmptyTrail, EmptyTrail, t))
  }

  /** `TrailSplit.remove_branch`: only the following trail's store remains. */
  function RemoveBranch(s: Store): (r: Store)
    requires s.TrailSplit?
    ensures r == s.following.store
  {
    s.following.store
  }

  /** `TrailSeries.remove_mountain`: a trail made of the following trail's store. */
  function RemoveMountain(s: Store): (r: Trail)
    requires s.TrailSeries?
    ensures r == s.following
  {
    Trail(s.following.store)
  }

  /** `TrailSeries.add_mountain_before`: the whole series becomes the following trail. */
  function SeriesAddMountainBefore(s: Store, m: Mountain): (r: Store)
    requires s.TrailSeries?
    ensures r.TrailSeries? && r.mountain == m && r.following.store == s
  {
    TrailSeries(m, Trail(s))
  }

  /** `TrailSeries.add_empty_branch_before`: an empty split followed by the whole series. */
  function SeriesAddEmptyBranchBefore(s: Store): (r: Store)
    requires s.TrailSeries?
    ensures r.TrailSplit? && r.top.store == None && r.bottom.store == None && r.following.store == s
  {
    TrailSplit(EmptyTrail, EmptyTrail, Trail(s))
  }

  /** `TrailSeries.add_mountain_after`: `m` goes between the first mountain and the old following trail. */
  function SeriesAddMountainAfter(s: Store, m: Mountain): (r: Store)
    requires s.TrailSeries?
    ensures r.TrailSeries? && r.mountain == s.mountain
    ensures r.following.store == TrailSeries(m, s.following)
  {
    TrailSeries(s.mountain, Trail(TrailSeries(m, s.following)))
  }

  /** `TrailSeries.add_empty_branch_after`: an empty split between the mountain and the old following trail. */
  function SeriesAddEmptyBranchAfter(s: Store): (r: Store)
    requires s.TrailSeries?
    ensures r.TrailSeries? && r.mountain == s.mountain
    ensures r.following.store == TrailSplit(EmptyTrail, EmptyTrail, s.following)
  {
    TrailSeries(s.mountain, Trail(TrailSplit(EmptyTrail, EmptyTrail, s.following)))
  }

  // ----- round trips and structural facts about the builders -----

  /** Adding a mountain before a trail and removing it again gives back the trail. */
  lemma AddThenRemoveMountain(t: Trail, m: Mountain)
    ensures RemoveMountain(AddMountainBefore(t, m).store) == t
  {
  }

  /** Adding an empty branch before a trail and removing it again gives back the trail's store. */
  lemma AddThenRemoveBranch(t: Trail)
    ensures RemoveBranch(AddEmptyBranchBefore(t).store) == t.store
  {
  }

  /** Removing the series built by `add_mountain_before` on a series gives back that series. */
  lemma SeriesAddThenRemoveMountain(s: Store, m: Mountain)
    requires s.TrailSeries?
    ensures RemoveMountain(SeriesAddMountainBefore(s, m)).store == s
  {
  }

  /** Each mountain-adding builder adds exactly one mountain to the trail. */
  lemma AddersCountMountains(s: Store, m: Mountain)
    requires s.TrailSeries?
    ensures SeriesCount(SeriesAddMountainBefore(s, m)) == SeriesCount(s) + 1
    ensures SeriesCount(SeriesAddMountainAfter(s, m)) == SeriesCount(s) + 1
    ensures SeriesCount(SeriesAddEmptyBranchBefore(s)) == SeriesCount(s)
    ensures SeriesCount(SeriesAddEmptyBranchAfter(s)) == SeriesCount(s)
  {
  }

  // ----- follow_path -----

  /** Number of nodes of a store: the measure that shrinks as the walk enters nodes. */
  function Size(s: Store): nat
  {
    match s
    case None => 0
    case TrailSeries(_, f) => 1 + Size(f.store)
    case TrailSplit(t, b, f) => 1 + Size(t.store) + Size(b.store) + Size(f.store)
  }

  /** Number of mountains on a store, on every branch. */
  function SeriesCount(s: Store): nat
  {
    match s
    case None => 0
    case TrailSeries(_, f) => 1 + SeriesCount(f.store)
    case TrailSplit(t, b, f) => SeriesCount(t.store) + SeriesCount(b.store) + SeriesCount(f.store)
  }

  /** The mountains of a trail that has no split, in order. */
  function LineMountains(s: Store): seq<Mountain>
  {
    match s
    case None => []
    case TrailSeries(m, f) => [m] + LineMountains(f.store)
    case TrailSplit(_, _, _) => []
  }

  predicate NoSplit(s: Store)
  {
    match s
    case None => true
    case TrailSeries(_, f) => NoSplit(f.store)
    case TrailSplit(_, _, _) => false
  }

  /** The mountains the walker has collected, and whether it answered STOP. */
  datatype Outcome = Outcome(visited: seq<Mountain>, stopped: bool)

  /** The walk defined by structure: series report their mountain, a split asks the walker,
      and after the chosen branch (unless it stopped) the split's following trail is walked. */
  function Follow(s: Store, acc: seq<Mountain>, walker: Walker): Outcome
  {
    match s
    case None => Outcome(acc, false)
    case TrailSeries(m, f) => Follow(f.store, acc + [m], walker)
    case TrailSplit(t, b, f) =>
      match walker(acc, t, b)
      case STOP => Outcome(acc, true)
      case TOP =>
        var o := Follow(t.store, acc, walker);
        if o.stopped then o else Follow(f.store, o.visited, walker)
      case BOTTOM =>
        var o := Follow(b.store, acc, walker);
        if o.stopped then o else Follow(f.store, o.visited, walker)
  }

  /** Resume at the following trail of each split on the stack, most recent first. */
  function Unwind(stack: seq<Store>, acc: seq<Mountain>, walker: Walker): Outcome
    requires forall i :: 0 <= i < |stack| ==> stack[i].TrailSplit?
  {
    if stack == [] then Outcome(acc, false)
    else
      var o := Follow(stack[|stack| - 1].following.store, acc, walker);
      if o.stopped then o else Unwind(stack[..|stack| - 1], o.visited, walker)
  }

  /** What is left of the walk from the current store with the given stack of entered splits. */
  function Run(current: Store, stack: seq<Store>, acc: seq<Mountain>, walker: Walker): Outcome
    requires forall i :: 0 <= i < |stack| ==> stack[i].TrailSplit?
  {
    var o := Follow(current, acc, walker);
    if o.stopped then o else Unwind(stack, o.visited, walker)
  }

  function StackSize(stack: seq<Store>): nat
    requires forall i :: 0 <= i < |stack| ==> stack[i].TrailSplit?
  {
    if stack == [] then 0
    else StackSize(stack[..|stack| - 1]) + Size(stack[|stack| - 1].following.store)
  }

  /** Every mountain on a store, on every branch. */
  function AllMountains(s: Store): set<Mountain>
  {
    match s
    case None => {}
    case TrailSeries(m, f) => {m} + AllMountains(f.store)
    case TrailSplit(t, b, f) => AllMountains(t.store) + AllMountains(b.store) + AllMountains(f.store)
  }

  /** The walk only appends to what the walker has collected; what it appends are mountains of the
      trail, each series node reported at most once, so at most SeriesCount of them. */
  lemma {:induction false} FollowAppends(s: Store, acc: seq<Mountain>, walker: Walker)
    ensures var v := Follow(s, acc, walker).visited;
      && |acc| <= |v| && v[..|acc|] == acc
      && |v| - |acc| <= SeriesCount(s)
      && (forall i :: |acc| <= i < |v| ==> v[i] in AllMountains(s))
  {
    match s
    case None =>
    case TrailSeries(m, f) =>
      FollowAppends(f.store, acc + [m], walker);
      var v := Follow(s, acc, walker).visited;
      assert v[..|acc|] == (v[..|acc| + 1])[..|acc|];
    case TrailSplit(t, b, f) =>
      var d := walker(acc, t, b);
      if d != STOP {
        var br := if d == TOP then t else b;
        FollowAppends(br.store, acc, walker);
        var o := Follow(br.store, acc, walker);
        if !o.stopped {
          FollowAppends(f.store, o.visited, walker);
          var v := Follow(s, acc, walker).visited;
          assert v[..|acc|] == (v[..|o.visited|])[..|acc|];
          forall i | |acc| <= i < |v| ensures v[i] in AllMountains(s) {
            if i < |o.visited| {
              assert v[i] == o.visited[i];
            }
          }
        }
      }
  }

  /** On a trail without splits the walker collects all its mountains in order and is never asked. */
  lemma {:induction false} FollowLine(s: Store, acc: seq<Mountain>, walker: Walker)
    requires NoSplit(s)
    ensures Follow(s, acc, walker) == Outcome(acc + LineMountains(s), false)
  {
    match s
    case None =>
    case TrailSeries(m, f) =>
      FollowLine(f.store, acc + [m], walker);
      assert acc + [m] + LineMountains(f.store) == acc + LineMountains(s);
  }

  /** A walker that never answers STOP walks to the end: the walk is never reported as stopped. */
  lemma {:induction false} FollowNeverStops(s: Store, acc: seq<Mountain>, walker: Walker)
    requires forall v, t, b :: walker(v, t, b) != STOP
    ensures !Follow(s, acc, walker).stopped
  {
    match s
    case None =>
    case TrailSeries(m, f) => FollowNeverStops(f.store, acc + [m], walker);
    case TrailSplit(t, b, f) =>
      var d := walker(acc, t, b);
      var br := if d == TOP then t else b;
      FollowNeverStops(br.store, acc, walker);
      FollowNeverStops(f.store, Follow(br.store, acc, walker).visited, walker);
  }

  /** A walker answering STOP at the first split collects exactly the mountains before it. */
  lemma {:induction false} FollowStopsAtFirstSplit(m: Mountain, s: Store, acc: seq<Mountain>, walker: Walker)
    requires s.TrailSplit?
    requires walker(acc + [m], s.top, s.bottom) == STOP
    ensures Follow(TrailSeries(m, Trail(s)), acc, walker) == Outcome(acc + [m], true)
  {
  }

  /** A series node reports its mountain and moves on to its following trail. */
  lemma RunSeries(m: Mountain, f: Trail, stack: seq<Store>, acc: seq<Mountain>, walker: Walker)
    requires forall i :: 0 <= i < |stack| ==> stack[i].TrailSplit?
    ensures Run(TrailSeries(m, f), stack, acc, walker) == Run(f.store, stack, acc + [m], walker)
  {
  }

  /** At a split the walker either stops the walk or enters a branch with the split pushed. */
  lemma RunSplit(s: Store, stack: seq<Store>, acc: seq<Mountain>, walker: Walker)
    requires s.TrailSplit?
    requires forall i :: 0 <= i < |stack| ==> stack[i].TrailSplit?
    ensures var d := walker(acc, s.top, s.bottom);
      && (d == STOP ==> Run(s, stack, acc, walker) == Outcome(acc, true))
      && (d == TOP ==> Run(s, stack, acc, walker) == Run(s.top.store, stack + [s], acc, walker))
      && (d == BOTTOM ==> Run(s, stack, acc, walker) == Run(s.bottom.store, stack + [s], acc, walker))
  {
    var stack' := stack + [s];
    assert stack'[..|stack'| - 1] == stack;
  }

  /** When the current branch has run out, the walk resumes at the latest split's following trail. */
  lemma RunPop(stack: seq<Store>, acc: seq<Mountain>, walker: Walker)
    requires |stack| > 0
    requires forall i :: 0 <= i < |stack| ==> stack[i].TrailSplit?
    ensures Run(None, stack, acc, walker)
         == Run(stack[|stack| - 1].following.store, stack[..|stack| - 1], acc, walker)
  {
  }

  lemma StackSizePush(stack: seq<Store>, s: Store)
    requires s.TrailSplit?
    requires forall i :: 0 <= i < |stack| ==> stack[i].TrailSplit?
    ensures StackSize(stack + [s]) == StackSize(stack) + Size(s.following.store)
  {
    var stack' := stack + [s];
    assert stack'[..|stack'| - 1] == stack;
  }

  /** `Trail.follow_path`: the walk with an explicit stack of entered splits. Returns what the walker
      collected; the walk ends when the walker says STOP or no split is left to resume from. */
  method FollowPath(trail: Trail, walker: Walker) returns (visited: seq<Mountain>)
    ensures visited == Follow(trail.store, [], walker).visited
  {
    var stack: seq<Store> := [];
    var current := trail.store;
    visited := [];
    while current != None
      invariant forall i :: 0 <= i < |stack| ==> stack[i].TrailSplit?
      invariant Run(current, stack, visited, walker) == Follow(trail.store, [], walker)
      invariant current == None ==> stack == []
      decreases Size(current) + StackSize(stack)
    {
      if current.TrailSeries? {
        RunSeries(current.mountain, current.following, stack, visited, walker);
        visited := visited + [current.mountain];
        current := current.following.store;
      } else {
        RunSplit(current, stack, visited, walker);
        StackSizePush(stack, current);
        var choice := walker(visited, current.top, current.bottom);
        stack := stack + [current];
        if choice == STOP {
          return;
        } else if choice == BOTTOM {
          current := current.bottom.store;
        } else {
          current := current.top.store;
        }
      }
      ghost var after := Size(current) + StackSize(stack);
      while current == None && stack != []
        invariant forall i :: 0 <= i < |stack| ==> stack[i].TrailSplit?
        invariant Run(current, stack, visited, walker) == Follow(trail.store, [], walker)
        invariant Size(current) + StackSize(stack) == after
        decreases |stack|
      {
        RunPop(stack, visited, walker);
        current := stack[|stack| - 1].following.store;
        stack := stack[..|stack| - 1];
      }
    }
  }
}

// The event graph: events linked to the event that produced them.
module EventGraph {
  import opened Wrappers
  import opened Lists

  datatype NetworkEvent = NetworkEvent(
    id: string, ts: real, kind: string, summary: string, flowId: Option<string>, packetId: Option<int>,
    parentId: Option<string>)

  datatype GraphError = UnknownParent(id: string) | UnknownEvent(id: string)

  // ------------------------------------------------------------ positions and parents

  /** The first position of an id. */
  function IndexOf(events: seq<NetworkEvent>, id: string): Option<nat> {
    if events == [] then None
    else
      var i := IndexOf(events[..|events| - 1], id);
      if i.Some? then i else if events[|events| - 1].id == id then Some(|events| - 1) else None
  }

  lemma {:induction false} IndexOfFinds(events: seq<NetworkEvent>, id: string)
    ensures match IndexOf(events, id)
            case Some(i) => i < |events| && events[i].id == id && forall j :: 0 <= j < i ==> events[j].id != id
            case None => forall j :: 0 <= j < |events| ==> events[j].id != id
  {
    if events != [] {
      IndexOfFinds(events[..|events| - 1], id);
    }
  }

  /** What `add` keeps: every parent is the id of an earlier event. */
  ghost predicate Built(events: seq<NetworkEvent>) {
    forall i :: 0 <= i < |events| && events[i].parentId.Some? ==>
                  exists j :: 0 <= j < i && events[j].id == events[i].parentId.value
  }

  ghost predicate UniqueIds(events: seq<NetworkEvent>) {
    forall i, j :: 0 <= i < j < |events| ==> events[i].id != events[j].id
  }

  /** The position of the parent of event i. */
  ghost function Parent(events: seq<NetworkEvent>, i: nat): (p: Option<nat>)
    requires Built(events) && i < |events|
    ensures p.Some? == events[i].parentId.Some?
    ensures p.Some? ==> p.value < i && events[p.value].id == events[i].parentId.value
  {
    if events[i].parentId.None? then None
    else
      IndexOfFinds(events, events[i].parentId.value);
      IndexOf(events, events[i].parentId.value)
  }

  /** Event k is on the parent chain of event i. */
  ghost predicate Below(events: seq<NetworkEvent>, k: nat, i: nat)
    requires Built(events) && i < |events|
    decreases i
  {
    var p := Parent(events, i);
    p.Some? && (p.value == k || Below(events, k, p.value))
  }

  /** The chain of first holders of a parent id only leads back. */
  lemma {:induction false} FirstHoldersLeadBack(events: seq<NetworkEvent>, k: nat, i: nat)
    requires Built(events) && i < |events|
    ensures Below(events, k, i) ==> k < i
    decreases i
  {
    var p := Parent(events, i);
    if p.Some? {
      FirstHoldersLeadBack(events, k, p.value);
    }
  }

  /** The parent chain of event i, oldest first. */
  ghost function Chain(events: seq<NetworkEvent>, i: nat): seq<nat>
    requires Built(events) && i < |events|
    decreases i
  {
    var p := Parent(events, i);
    if p.None? then [] else Chain(events, p.value) + [p.value]
  }

  lemma {:induction false} ChainIsBelow(events: seq<NetworkEvent>, k: nat, i: nat)
    requires Built(events) && i < |events|
    ensures k in Chain(events, i) <==> Below(events, k, i)
    ensures forall j :: 0 <= j < |Chain(events, i)| ==> Chain(events, i)[j] < i
    decreases i
  {
    var p := Parent(events, i);
    if p.Some? {
      ChainIsBelow(events, k, p.value);
    }
  }

  predicate InRange(events: seq<NetworkEvent>, places: seq<nat>) {
    forall j :: 0 <= j < |places| ==> places[j] < |events|
  }

  function At(events: seq<NetworkEvent>, places: seq<nat>): seq<NetworkEvent>
    requires InRange(events, places)
  {
    seq(|places|, j requires 0 <= j < |places| => events[places[j]])
  }

  // ------------------------------------------------------------ depth-first order

  ghost predicate IsChild(events: seq<NetworkEvent>, k: nat, i: nat)
    requires Built(events) && i < |events|
  {
    Parent(events, i) == Some(k)
  }

  /** The children of event k from position `from` on. */
  ghost function ChildrenFrom(events: seq<NetworkEvent>, k: nat, from: nat): seq<nat>
    requires Built(events) && from <= |events|
    decreases |events| - from
  {
    if from == |events| then []
    else if IsChild(events, k, from) then [from] + ChildrenFrom(events, k, from + 1)
    else ChildrenFrom(events, k, from + 1)
  }

  /** The subtrees of those children, depth first. */
  ghost function Subtrees(events: seq<NetworkEvent>, k: nat, from: nat): seq<nat>
    requires Built(events) && from <= |events|
    decreases |events| - from
  {
    if from == |events| then []
    else if IsChild(events, k, from) then [from] + Subtrees(events, from, from + 1) + Subtrees(events, k, from + 1)
    else Subtrees(events, k, from + 1)
  }

  /** The child of k on the chain from i up to k. */
  ghost function Branch(events: seq<NetworkEvent>, k: nat, i: nat): (b: nat)
    requires Built(events) && i < |events| && Below(events, k, i)
    ensures k < b <= i && IsChild(events, k, b)
    decreases i
  {
    var p := Parent(events, i).value;
    if p == k then i else Branch(events, k, p)
  }

  /** The chain from i reaches k through its child b exactly when b is i or above i. */
  lemma {:induction false} BranchIs(events: seq<NetworkEvent>, k: nat, b: nat, i: nat)
    requires Built(events) && i < |events| && b < |events|
    ensures (Below(events, k, i) && Branch(events, k, i) == b) <==> (IsChild(events, k, b) && (i == b
                                                                                               || Below(events, b, i)))
    decreases i
  {
    FirstHoldersLeadBack(events, b, i);
    FirstHoldersLeadBack(events, k, i);
    var p := Parent(events, i);
    if p.Some? {
      BranchIs(events, k, b, p.value);
      FirstHoldersLeadBack(events, k, p.value);
      FirstHoldersLeadBack(events, b, p.value);
    }
  }

  lemma SubtreesCount(events: seq<NetworkEvent>, k: nat, from: nat, i: nat)
    requires Built(events) && from < |events|
    ensures multiset(Subtrees(events, k, from))[i]
         == (if !IsChild(events, k, from) then 0
             else (if i == from then 1 else 0) + multiset(Subtrees(events, from, from + 1))[i])
            + multiset(Subtrees(events, k, from + 1))[i]
  {
    hide IsChild, Built;
    if IsChild(events, k, from) {
      assert Subtrees(events, k, from) == [from] + Subtrees(events, from, from + 1) + Subtrees(events, k, from + 1);
    }
  }

  /** Depth-first order visits exactly the events that have k on their chain, each once. */
  lemma {:induction false} SubtreesExact(events: seq<NetworkEvent>, k: nat, from: nat, i: nat)
    requires Built(events) && from <= |events| && i < |events|
    ensures multiset(Subtrees(events, k, from))[i] == if Below(events, k, i)
                                                         && Branch(events, k, i) >= from then 1 else 0
    decreases |events| - from
  {
    hide *;
    if from == |events| {
      NoSubtrees(events, k);
    } else {
      SubtreesExact(events, k, from + 1, i);
      SubtreesCount(events, k, from, i);
      BranchIs(events, k, from, i);
      if IsChild(events, k, from) {
        SubtreesExact(events, from, from + 1, i);
        FirstHoldersLeadBack(events, from, i);
      }
    }
  }

  lemma NoSubtrees(events: seq<NetworkEvent>, k: nat)
    requires Built(events)
    ensures Subtrees(events, k, |events|) == []
  {
  }

  lemma {:induction false} SubtreesInRange(events: seq<NetworkEvent>, k: nat, from: nat)
    requires Built(events) && from <= |events|
    ensures forall j :: 0 <= j < |Subtrees(events, k, from)| ==> from <= Subtrees(events, k, from)[j] < |events|
    ensures forall j :: 0 <= j < |ChildrenFrom(events, k, from)| ==>
                          from <= ChildrenFrom(events, k, from)[j] < |events|
                          && IsChild(events, k, ChildrenFrom(events, k, from)[j])
    decreases |events| - from
  {
    if from < |events| {
      SubtreesInRange(events, k, from + 1);
      SubtreesInRange(events, from, from + 1);
    }
  }

  // ------------------------------------------------------------ the stack of the depth-first walk

  /** What is still to be visited, the top of the stack being its last place. */
  ghost function StackOrder(events: seq<NetworkEvent>, places: seq<nat>): seq<nat>
    requires Built(events) && InRange(events, places)
  {
    if places == [] then []
    else
      var top := places[|places| - 1];
      [top] + Subtrees(events, top, 0) + StackOrder(events, places[..|places| - 1])
  }

  lemma {:induction false} NoEarlyChildren(events: seq<NetworkEvent>, k: nat, from: nat)
    requires Built(events) && k < |events| && from <= k + 1
    ensures Subtrees(events, k, from) == Subtrees(events, k, k + 1)
    decreases k + 1 - from
  {
    if from <= k {
      NoEarlyChildren(events, k, from + 1);
      assert !IsChild(events, k, from);
    }
  }

  lemma StackTop(events: seq<NetworkEvent>, rest: seq<nat>, top: nat)
    requires Built(events) && top < |events| && InRange(events, rest) && InRange(events, rest + [top])
    ensures StackOrder(events, rest + [top]) == [top] + Subtrees(events, top, top + 1) + StackOrder(events, rest)
  {
    assert (rest + [top])[..|rest|] == rest;
    NoEarlyChildren(events, top, 0);
  }

  lemma NoChildren(events: seq<NetworkEvent>, k: nat, rest: seq<nat>)
    requires Built(events)
    ensures ChildrenFrom(events, k, |events|) == [] == Subtrees(events, k, |events|)
    ensures rest + Reverse([]) == rest
  {
  }

  lemma ChildStep(events: seq<NetworkEvent>, k: nat, from: nat, rest: seq<nat>)
    requires Built(events) && from < |events|
    ensures var later := ChildrenFrom(events, k, from + 1);
            if IsChild(events, k, from) then
              && ChildrenFrom(events, k, from) == [from] + later
              && rest + Reverse([from] + later) == rest + Reverse(later) + [from]
              && Subtrees(events, k, from) == [from] + Subtrees(events, from, from + 1) + Subtrees(events, k, from + 1)
            else ChildrenFrom(events, k, from) == later && Subtrees(events, k, from) == Subtrees(events, k, from + 1)
  {
    hide Built, IsChild;
    var later := ChildrenFrom(events, k, from + 1);
    assert ([from] + later)[1..] == later;
  }

  lemma PushInRange(events: seq<NetworkEvent>, k: nat, from: nat, rest: seq<nat>)
    requires Built(events) && from <= |events| && InRange(events, rest)
    ensures InRange(events, ChildrenFrom(events, k, from))
            && InRange(events, rest + Reverse(ChildrenFrom(events, k, from)))
  {
    SubtreesInRange(events, k, from);
  }

  /** Pushing the children of k in reverse puts its subtrees next. */
  lemma {:induction false} PushChildren(events: seq<NetworkEvent>, k: nat, from: nat, rest: seq<nat>)
    requires Built(events) && from <= |events| && InRange(events, rest)
    requires InRange(events, rest + Reverse(ChildrenFrom(events, k, from)))
    ensures StackOrder(events, rest + Reverse(ChildrenFrom(events, k, from)))
         == Subtrees(events, k, from) + StackOrder(events, rest)
    decreases |events| - from
  {
    hide *;
    if from == |events| {
      NoChildren(events, k, rest);
      NothingFirst(StackOrder(events, rest));
    } else {
      PushInRange(events, k, from + 1, rest);
      PushChildren(events, k, from + 1, rest);
      ChildStep(events, k, from, rest);
      if IsChild(events, k, from) {
        StackTop(events, rest + Reverse(ChildrenFrom(events, k, from + 1)), from);
        Reassociate([from] + Subtrees(events, from, from + 1), Subtrees(events, k, from + 1), StackOrder(events, rest));
      }
    }
  }

  lemma NothingFirst<T>(s: seq<T>)
    ensures [] + s == s
  {
  }

  lemma ChildIsNamed(events: seq<NetworkEvent>, k: nat, i: nat)
    requires Built(events) && UniqueIds(events) && k < |events| && i < |events|
    ensures IsChild(events, k, i) <==> events[i].parentId == Some(events[k].id)
  {
  }

  /** `children`: under unique ids, the events whose parent id is that of event k. */
  lemma {:induction false} ChildrenAre(events: seq<NetworkEvent>, k: nat, from: nat)
    requires Built(events) && UniqueIds(events) && k < |events| && from <= |events|
    ensures InRange(events, ChildrenFrom(events, k, from))
    ensures At(events, ChildrenFrom(events, k, from)) == Kept(HasParent(events[k].id), events[from..])
    decreases |events| - from
  {
    hide *;
    if from == |events| {
      NoChildrenLeft(events, k);
    } else {
      ChildrenAre(events, k, from + 1);
      ChildIsNamed(events, k, from);
      OneChildMore(events, k, from);
    }
  }

  lemma NoChildrenLeft(events: seq<NetworkEvent>, k: nat)
    requires Built(events) && k < |events|
    ensures InRange(events, ChildrenFrom(events, k, |events|))
    ensures At(events, ChildrenFrom(events, k, |events|)) == Kept(HasParent(events[k].id), events[|events|..])
  {
  }

  lemma OneChildMore(events: seq<NetworkEvent>, k: nat, from: nat)
    requires Built(events) && k < |events| && from < |events|
    requires IsChild(events, k, from) <==> events[from].parentId == Some(events[k].id)
    requires var later := ChildrenFrom(events, k, from + 1);
             InRange(events, later) && At(events, later) == Kept(HasParent(events[k].id), events[from + 1..])
    ensures var all := ChildrenFrom(events, k, from);
            InRange(events, all) && At(events, all) == Kept(HasParent(events[k].id), events[from..])
  {
    hide Built, IsChild;
    assert events[from..][1..] == events[from + 1..] && events[from..][0] == events[from];
    var later := ChildrenFrom(events, k, from + 1);
    if IsChild(events, k, from) {
      assert At(events, [from] + later) == [events[from]] + At(events, later);
    }
  }

  function HasParent(id: string): NetworkEvent -> bool {
    (e: NetworkEvent) => e.parentId == Some(id)
  }

  // ------------------------------------------------------------ chains by id

  /** The id n parents above `id`, every id standing for the event registered last under it. */
  ghost function Up(byId: map<string, NetworkEvent>, id: string, n: nat): Option<string>
    decreases n
  {
    if n == 0 then Some(id)
    else if id in byId && byId[id].parentId.Some? then Up(byId, byId[id].parentId.value, n - 1)
    else None
  }

  /** `id` is met when walking up from `from`. */
  ghost predicate OnChain(byId: map<string, NetworkEvent>, from: string, id: string) {
    exists n: nat :: n >= 1 && Up(byId, from, n) == Some(id)
  }

  /** No event is its own ancestor. */
  ghost predicate Acyclic(byId: map<string, NetworkEvent>) {
    forall id :: id in byId ==> !OnChain(byId, id, id)
  }

  lemma {:induction false} UpTwice(byId: map<string, NetworkEvent>, a: string, m: nat, b: string, n: nat)
    requires Up(byId, a, m) == Some(b)
    ensures Up(byId, a, m + n) == Up(byId, b, n)
    decreases m
  {
    if m > 0 {
      UpTwice(byId, byId[a].parentId.value, m - 1, b, n);
    }
  }

  /** Registering e changes no walk up to the point where it first meets e's id. */
  lemma {:induction false} SameUntilMet(byId: map<string, NetworkEvent>, e: NetworkEvent, a: string, n: nat)
    returns (k: nat)
    requires Up(byId, a, n) == Some(e.id) || Up(byId[e.id := e], a, n) == Some(e.id)
    ensures k <= n && Up(byId, a, k) == Up(byId[e.id := e], a, k) == Some(e.id)
    decreases n
  {
    if a == e.id {
      k := 0;
    } else {
      k := SameUntilMet(byId, e, byId[a].parentId.value, n - 1);
      k := k + 1;
    }
  }

  /** A walk over the new registrations is one over the old ones, or meets e's id on its way. */
  lemma {:induction false} MeetsOrSame(byId: map<string, NetworkEvent>, e: NetworkEvent, a: string, n: nat)
    returns (k: nat)
    ensures (k < n && Up(byId[e.id := e], a, k) == Some(e.id)) || Up(byId[e.id := e], a, n) == Up(byId, a, n)
    decreases n
  {
    k := 0;
    if a != e.id && n > 0 && a in byId && byId[a].parentId.Some? {
      k := MeetsOrSame(byId, e, byId[a].parentId.value, n - 1);
      k := k + 1;
    }
  }

  /** Before the call: e names itself as its parent, or the parent it names has e's id above it. */
  ghost predicate ClosesCycle(byId: map<string, NetworkEvent>, e: NetworkEvent) {
    e.parentId.Some? && (e.parentId.value == e.id || OnChain(byId, e.parentId.value, e.id))
  }

  lemma OwnParentIff(byId: map<string, NetworkEvent>, e: NetworkEvent)
    ensures ClosesCycle(byId, e) <==> OnChain(byId[e.id := e], e.id, e.id)
  {
    var all := byId[e.id := e];
    if e.parentId.Some? {
      var p := e.parentId.value;
      if ClosesCycle(byId, e) {
        var n: nat := 0;
        if p != e.id {
          n :| n >= 1 && Up(byId, p, n) == Some(e.id);
        }
        var k := SameUntilMet(byId, e, p, n);
        assert Up(all, e.id, k + 1) == Some(e.id);
      }
      if OnChain(all, e.id, e.id) {
        var n: nat :| n >= 1 && Up(all, e.id, n) == Some(e.id);
        assert Up(all, p, n - 1) == Some(e.id);
        var k := SameUntilMet(byId, e, p, n - 1);
        assert k == 0 ==> p == e.id;
      }
    } else {
      forall n: nat | n >= 1 ensures Up(all, e.id, n) == None {
      }
    }
  }

  /** A cycle that was not there before passes through the event just registered. */
  lemma NewCyclesMeet(byId: map<string, NetworkEvent>, e: NetworkEvent, id: string)
    requires Acyclic(byId) && OnChain(byId[e.id := e], id, id)
    ensures OnChain(byId[e.id := e], e.id, e.id)
  {
    var all := byId[e.id := e];
    var n: nat :| n >= 1 && Up(all, id, n) == Some(id);
    var k := MeetsOrSame(byId, e, id, n);
    if k < n && Up(all, id, k) == Some(e.id) {
      UpTwice(all, id, k, e.id, n - k);
      UpTwice(all, e.id, n - k, id, k);
    } else {
      assert id in byId && OnChain(byId, id, id);
    }
  }

  /** Adding an event makes a cycle exactly when it names itself or a descendant of its id as its parent. */
  lemma AddMakesCycleIff(byId: map<string, NetworkEvent>, e: NetworkEvent)
    requires Acyclic(byId)
    ensures !Acyclic(byId[e.id := e]) <==> ClosesCycle(byId, e)
  {
    hide OnChain, ClosesCycle;
    var all := byId[e.id := e];
    OwnParentIff(byId, e);
    if !Acyclic(all) {
      var id :| id in all && OnChain(all, id, id);
      NewCyclesMeet(byId, e, id);
    }
  }

  /** Every parent named is registered. */
  ghost predicate Closed(byId: map<string, NetworkEvent>) {
    forall id :: id in byId && byId[id].parentId.Some? ==> byId[id].parentId.value in byId
  }

  lemma {:induction false} WalkStaysInside(byId: map<string, NetworkEvent>, a: string, n: nat)
    requires Closed(byId) && a in byId
    ensures Up(byId, a, n).Some? ==> Up(byId, a, n).value in byId
    decreases n
  {
    if n > 0 && byId[a].parentId.Some? {
      WalkStaysInside(byId, byId[a].parentId.value, n - 1);
    }
  }

  /** An event with an id not used before never makes a cycle. */
  lemma FreshIdsStayAcyclic(byId: map<string, NetworkEvent>, e: NetworkEvent)
    requires Acyclic(byId) && Closed(byId) && e.id !in byId
    requires e.parentId.Some? ==> e.parentId.value in byId
    ensures Acyclic(byId[e.id := e]) && Closed(byId[e.id := e])
  {
    AddMakesCycleIff(byId, e);
    hide Acyclic;
    if ClosesCycle(byId, e) {
      var n: nat :| n >= 1 && Up(byId, e.parentId.value, n) == Some(e.id);
      WalkStaysInside(byId, e.parentId.value, n);
      assert false;
    }
  }

  // ------------------------------------------------------------ the walk up

  /** The events met walking up from `from`, newest first, each under its own id. */
  ghost predicate Climbed(byId: map<string, NetworkEvent>, from: string, chain: seq<NetworkEvent>) {
    forall j :: 0 <= j < |chain| ==>
                  && Up(byId, from, j + 1) == Some(chain[j].id)
                  && chain[j].id in byId && byId[chain[j].id] == chain[j]
  }

  predicate HasId(chain: seq<NetworkEvent>, id: string) {
    exists j :: 0 <= j < |chain| && chain[j].id == id
  }

  /** The chain of ids above `from`, oldest first: every id met on the way up, each once, and nothing else. */
  ghost predicate IsIdChain(byId: map<string, NetworkEvent>, from: string, chain: seq<NetworkEvent>) {
    && Climbed(byId, from, Reverse(chain)) && UniqueIds(chain)
    && (forall id :: OnChain(byId, from, id) <==> HasId(chain, id))
  }

  /** Where the walk stops: at the top, or where the next id was met before. */
  ghost predicate Stops(byId: map<string, NetworkEvent>, from: string, m: nat) {
    Up(byId, from, m + 1) == None || exists i: nat :: 1 <= i <= m && Up(byId, from, i) == Up(byId, from, m + 1)
  }

  lemma {:induction false} NoneAbove(byId: map<string, NetworkEvent>, from: string, m: nat, n: nat)
    requires Up(byId, from, m) == None
    ensures Up(byId, from, m + n) == None
    decreases m
  {
    if m > 0 && from in byId && byId[from].parentId.Some? {
      NoneAbove(byId, byId[from].parentId.value, m - 1, n);
    }
  }

  /** Whatever the walk would meet later it has met among its first m steps. */
  lemma {:induction false} NothingNewLater(byId: map<string, NetworkEvent>, from: string, m: nat, n: nat)
    returns (k: nat)
    requires Stops(byId, from, m) && n >= 1 && Up(byId, from, n).Some?
    ensures 1 <= k <= m && Up(byId, from, k) == Up(byId, from, n)
    decreases n
  {
    k := n;
    if n > m {
      if Up(byId, from, m + 1) == None {
        NoneAbove(byId, from, m + 1, n - (m + 1));
      }
      var i: nat :| 1 <= i <= m && Up(byId, from, i) == Up(byId, from, m + 1);
      var again := Up(byId, from, m + 1).value;
      UpTwice(byId, from, m + 1, again, n - (m + 1));
      UpTwice(byId, from, i, again, n - (m + 1));
      k := NothingNewLater(byId, from, m, i + (n - (m + 1)));
    }
  }

  lemma ClimbEnds(byId: map<string, NetworkEvent>, from: string, chain: seq<NetworkEvent>)
    requires Climbed(byId, from, chain) && UniqueIds(chain) && Stops(byId, from, |chain|)
    ensures IsIdChain(byId, from, Reverse(chain))
  {
    hide Up, Stops, OnChain, HasId, Climbed;
    ReverseTwice(chain);
    forall id ensures OnChain(byId, from, id) <==> HasId(Reverse(chain), id) {
      MetIff(byId, from, chain, id);
    }
  }

  lemma MetIff(byId: map<string, NetworkEvent>, from: string, chain: seq<NetworkEvent>, id: string)
    requires Climbed(byId, from, chain) && Stops(byId, from, |chain|)
    ensures OnChain(byId, from, id) <==> HasId(Reverse(chain), id)
  {
    hide Up, Stops, Reverse, UniqueIds;
    var r := Reverse(chain);
    ReverseTwice(chain);
    if HasId(r, id) {
      var j :| 0 <= j < |r| && r[j].id == id;
      assert Up(byId, from, |chain| - 1 - j + 1) == Some(chain[|chain| - 1 - j].id);
    }
    if OnChain(byId, from, id) {
      var n: nat :| n >= 1 && Up(byId, from, n) == Some(id);
      var k := NothingNewLater(byId, from, |chain|, n);
      assert Up(byId, from, k - 1 + 1) == Some(chain[k - 1].id) && r[|chain| - k] == chain[k - 1];
    }
  }

  lemma {:induction false} ReverseTwice(s: seq<NetworkEvent>)
    ensures Reverse(Reverse(s)) == s && |Reverse(s)| == |s|
    ensures forall j :: 0 <= j < |s| ==> Reverse(s)[j] == s[|s| - 1 - j]
    ensures UniqueIds(s) ==> UniqueIds(Reverse(s))
  {
    hide Reverse;
    var r := Reverse(s);
    forall i | 0 <= i < |s| ensures Reverse(r)[i] == s[i] {
      assert Reverse(r)[i] == r[|r| - 1 - i];
    }
    if UniqueIds(s) {
      forall i, j | 0 <= i < j < |r| ensures r[i].id != r[j].id {
        assert r[i] == s[|s| - 1 - i] && r[j] == s[|s| - 1 - j];
      }
    }
  }

  /** One more step of the walk up. */
  lemma ClimbOne(byId: map<string, NetworkEvent>, from: string, chain: seq<NetworkEvent>, cur: NetworkEvent)
    requires Climbed(byId, from, chain) && UniqueIds(chain)
    requires cur.id in byId && byId[cur.id] == cur && Up(byId, from, |chain|) == Some(cur.id)
    ensures Up(byId, from, |chain| + 1) == cur.parentId
    ensures cur.parentId.Some? && cur.parentId.value in byId && byId[cur.parentId.value].id == cur.parentId.value
            && !HasId(chain, cur.parentId.value)
            ==> var longer := chain + [byId[cur.parentId.value]];
                Climbed(byId, from, longer) && UniqueIds(longer)
    ensures cur.parentId.None? || HasId(chain, cur.parentId.value) ==> Stops(byId, from, |chain|)
  {
    UpTwice(byId, from, |chain|, cur.id, 1);
    StepOf(byId, cur.id);
    hide Up;
    if cur.parentId.Some? && HasId(chain, cur.parentId.value) {
      var i :| 0 <= i < |chain| && chain[i].id == cur.parentId.value;
      assert Up(byId, from, i + 1) == Up(byId, from, |chain| + 1);
    }
  }

  lemma StepOf(byId: map<string, NetworkEvent>, id: string)
    requires id in byId
    ensures Up(byId, id, 1) == byId[id].parentId
  {
    if byId[id].parentId.Some? {
      assert Up(byId, byId[id].parentId.value, 0) == byId[id].parentId;
    }
  }

  lemma HasIdGrows(chain: seq<NetworkEvent>, e: NetworkEvent, seen: set<string>)
    requires forall id :: id in seen <==> HasId(chain, id)
    ensures forall id :: id in seen + {e.id} <==> HasId(chain + [e], id)
  {
    forall id ensures id in seen + {e.id} <==> HasId(chain + [e], id) {
      if HasId(chain, id) {
        var j :| 0 <= j < |chain| && chain[j].id == id;
        assert (chain + [e])[j].id == id;
      }
      if id == e.id {
        assert (chain + [e])[|chain|].id == id;
      }
    }
  }

  // ------------------------------------------------------------ the graph

  predicate NotLater(a: NetworkEvent, b: NetworkEvent) { a.ts <= b.ts }

  class EventGraph {
    var events: seq<NetworkEvent>
    var byId: map<string, NetworkEvent>

    ghost predicate Valid()
      reads this
    {
      && Built(events)
      && (forall i :: 0 <= i < |events| ==> events[i].id in byId)
      && (forall id :: id in byId ==> byId[id].id == id && byId[id] in events)
    }

    constructor ()
      ensures Valid() && events == [] && byId == map[]
    {
      events, byId := [], map[];
    }

    /** Adds an event whose parent, if it names one, is known; otherwise changes nothing. */
    method Add(event: NetworkEvent) returns (r: Result<NetworkEvent, GraphError>)
      requires Valid()
      modifies this
      ensures Valid()
      ensures if event.parentId.Some? && event.parentId.value !in old(byId)
              then r == Err(UnknownParent(event.parentId.value)) && events == old(events) && byId == old(byId)
              else r == Ok(event) && events == old(events) + [event] && byId == old(byId)[event.id := event]
      ensures r.Ok? && old(Acyclic(byId)) ==> (Acyclic(byId) <==> !ClosesCycle(old(byId), event))
    {
      if Acyclic(byId) {
        AddMakesCycleIff(byId, event);
      }
      hide Acyclic, ClosesCycle;
      if event.parentId.Some? && event.parentId.value !in byId {
        return Err(UnknownParent(event.parentId.value));
      }
      if event.parentId.Some? {
        assert byId[event.parentId.value] in events;
      }
      BuiltGrows(events, event);
      events := events + [event];
      byId := byId[event.id := event];
      return Ok(event);
    }

    /** Under unique ids parent chains only lead back, so no event is its own ancestor. */
    lemma ChainsLeadBack()
      requires Valid() && UniqueIds(events)
      ensures Acyclic(byId)
    {
      forall id | id in byId ensures !OnChain(byId, id, id) {
        var k :| 0 <= k < |events| && events[k] == byId[id];
        if OnChain(byId, id, id) {
          var n: nat :| n >= 1 && Up(byId, id, n) == Some(id);
          var j := EarlierPlace(k, n);
          assert false;
        }
      }
    }

    lemma {:induction false} EarlierPlace(k: nat, n: nat) returns (j: nat)
      requires Valid() && UniqueIds(events) && k < |events| && n >= 1 && Up(byId, events[k].id, n).Some?
      ensures j < k && Some(events[j].id) == Up(byId, events[k].id, n)
      decreases n
    {
      ById(k);
      j := Parent(events, k).value;
      if n > 1 {
        j := EarlierPlace(j, n - 1);
      }
    }

    /** The events that name this one as their parent, in the order they were added. */
    method Children(eventId: string) returns (r: Result<seq<NetworkEvent>, GraphError>)
      requires Valid()
      ensures r == if eventId in byId then Ok(Kept(HasParent(eventId), events)) else Err(UnknownEvent(eventId))
    {
      if eventId !in byId {
        return Err(UnknownEvent(eventId));
      }
      var parent := byId[eventId];
      return Ok(Kept(HasParent(parent.id), events));
    }

    lemma ById(k: nat)
      requires Valid() && UniqueIds(events) && k < |events|
      ensures byId[events[k].id] == events[k] && IndexOf(events, events[k].id) == Some(k)
    {
      IndexOfFinds(events, events[k].id);
      var e := byId[events[k].id];
      var j :| 0 <= j < |events| && events[j] == e;
      assert j == k;
    }

    /**
      * The parent chain, oldest first. On every graph, also when ids repeat, the walk ends with the chain of
      * ids as they are registered, each once; under unique ids that is the chain of positions.
      */
    method Ancestors(eventId: string) returns (chain: seq<NetworkEvent>)
      requires Valid()
      ensures IsIdChain(byId, eventId, chain)
      ensures UniqueIds(events) && eventId in byId ==>
                exists k: nat :: k < |events| && events[k].id == eventId && IsChainOf(events, k, chain)
    {
      NoSteps(eventId);
      hide *;
      chain := [];
      var cur := if eventId in byId then Some(byId[eventId]) else None;
      var seen: set<string> := {};
      ghost var start: nat, at: nat := 0, 0;
      if eventId in byId {
        Known(eventId);
      }
      if eventId in byId && UniqueIds(events) {
        start := PlaceOf(eventId);
        at := start;
      }
      while cur.Some? && cur.value.parentId.Some?
        invariant cur.Some? ==>
                    cur.value in events && cur.value.id in byId && byId[cur.value.id] == cur.value
                    && Up(byId, eventId, |chain|) == Some(cur.value.id)
        invariant Climbed(byId, eventId, chain) && UniqueIds(chain)
        invariant forall id :: id in seen <==> HasId(chain, id)
        invariant seen <= byId.Keys && (eventId in byId <==> cur.Some?) && (cur.None? ==> chain == [])
        invariant UniqueIds(events) && eventId in byId ==> ClimbedTo(events, start, at, cur, seen, chain)
        decreases byId.Keys - seen
      {
        var id := cur.value.parentId.value;
        if UniqueIds(events) {
          at := Climb(start, at, cur, seen, chain);
        }
        ClimbOne(byId, eventId, chain, cur.value);
        ParentIsKnown(cur.value);
        if id in seen || id !in byId {
          break;
        }
        Known(id);
        HasIdGrows(chain, byId[id], seen);
        seen := seen + {id};
        chain := chain + [byId[id]];
        cur := Some(byId[id]);
      }
      if UniqueIds(events) && eventId in byId {
        ChainTop(events, start, at, cur, seen, chain);
      }
      if cur.Some? {
        ClimbOne(byId, eventId, chain, cur.value);
      }
      ClimbEnds(byId, eventId, chain);
      chain := Reverse(chain);
    }

    lemma NoSteps(id: string)
      ensures Climbed(byId, id, []) && UniqueIds([]) && (forall x :: !HasId([], x)) && Up(byId, id, 0) == Some(id)
      ensures id !in byId ==> Stops(byId, id, 0)
    {
    }

    lemma ParentIsKnown(e: NetworkEvent)
      requires Valid() && e in events
      ensures e.parentId.Some? ==> e.parentId.value in byId
    {
      var i :| 0 <= i < |events| && events[i] == e;
    }

    /**
      * Children, their children and so on, ordered by time; an unknown event is an error. On every graph, also
      * when ids repeat, the walk ends with one event of each id below this one; under unique ids those are the
      * events with this one on their chain.
      */
    method Descendants(eventId: string) returns (r: Result<seq<NetworkEvent>, GraphError>)
      requires Valid()
      ensures r.Err? <==> eventId !in byId
      ensures r.Err? ==> r.error == UnknownEvent(eventId)
      ensures r.Ok? ==> IsDescent(events, eventId, r.value) && SortedBy(NotLater, r.value)
      ensures UniqueIds(events) && r.Ok? ==>
                exists k: nat :: k < |events| && events[k].id == eventId && DescendantsOf(events, k, r.value)
    {
      hide *;
      var out: seq<NetworkEvent> := [];
      var children := Children(eventId);
      if children.Err? {
        return Err(children.error);
      }
      var stack := Reverse(children.value);
      var seen: set<string> := {};
      ghost var k: nat, done: seq<nat>, places: seq<nat> := 0, [], [];
      if UniqueIds(events) {
        k := PlaceOf(eventId);
        places := WalkStarts(events, k);
      }
      KidsAreKnown(eventId);
      DescentStarts(events, eventId);
      while stack != []
        invariant (forall e :: e in stack ==> e.id in byId) && seen <= byId.Keys
        invariant Descending(events, eventId, out, stack, seen)
        invariant UniqueIds(events) ==>
                    && Walking(events, k, done, places, out, stack, seen)
                    && k < |events| && events[k].id == eventId
        decreases byId.Keys - seen, |stack|
      {
        ghost var places' := places;
        if UniqueIds(events) {
          places' := WalkStep(events, k, done, places, out, stack, seen);
        }
        var ev := stack[|stack| - 1];
        DescentStep(events, eventId, out, stack, seen);
        stack := stack[..|stack| - 1];
        if ev.id in seen {
          continue;
        }
        seen := seen + {ev.id};
        out := out + [ev];
        children := Children(ev.id);
        KidsAreKnown(ev.id);
        stack := stack + Reverse(children.value);
        if UniqueIds(events) {
          done, places := done + [places[|places| - 1]], places';
        }
      }
      if UniqueIds(events) {
        WalkedOut(events, k, done, places, out, seen);
      }
      DescentEnds(events, eventId, out, seen);
      out := Sort(NotLater, out);
      return Ok(out);
    }

    lemma KidsAreKnown(id: string)
      requires Valid()
      ensures forall e :: e in Reverse(Kept(HasParent(id), events)) ==> e.id in byId
    {
      hide Built, Reverse, Kept;
      KeptIsSub(HasParent(id), events);
      var kids := Kept(HasParent(id), events);
      forall e | e in Reverse(kids) ensures e.id in byId {
        var j :| 0 <= j < |kids| && Reverse(kids)[j] == e;
        assert kids[|kids| - 1 - j] == e && e in kids;
        var i :| 0 <= i < |events| && events[i] == e;
      }
    }

    lemma Known(id: string)
      requires Valid() && id in byId
      ensures byId[id].id == id && byId[id] in events
    {
    }

    lemma PlaceOf(id: string) returns (k: nat)
      requires Valid() && id in byId && UniqueIds(events)
      ensures k < |events| && events[k].id == id && byId[id] == events[k]
      ensures ClimbedTo(events, k, k, Some(byId[id]), {}, [])
    {
      k :| 0 <= k < |events| && events[k] == byId[id];
      ChainIsBelow(events, k, k);
      assert At(events, Chain(events, k)) + [] == At(events, Chain(events, k));
    }

    /** Under unique ids the walk reaches the parent, which it has not met before. */
    lemma Climb(start: nat, at: nat, cur: Option<NetworkEvent>, seen: set<string>, chain: seq<NetworkEvent>)
      returns (parent: nat)
      requires Valid() && UniqueIds(events) && ClimbedTo(events, start, at, cur, seen, chain)
      requires cur.Some? && cur.value.parentId.Some?
      ensures var id := cur.value.parentId.value;
              && id !in seen && id in byId
              && ClimbedTo(events, start, parent, Some(byId[id]), seen + {id}, chain + [byId[id]])
    {
      parent := Parent(events, at).value;
      ById(parent);
      ChainIsBelow(events, parent, at);
      ChainIsBelow(events, parent, parent);
      OneUp(events, start, at, parent, chain);
      NotMet(events, at, parent, seen);
    }
  }

  lemma OneUp(events: seq<NetworkEvent>, start: nat, at: nat, parent: nat, chain: seq<NetworkEvent>)
    requires Built(events) && start < |events| && at < |events| && Parent(events, at) == Some(parent)
    requires InRange(events, Chain(events, start)) && InRange(events, Chain(events, at))
             && InRange(events, Chain(events, parent))
    requires At(events, Chain(events, start)) == At(events, Chain(events, at)) + Reverse(chain)
    ensures At(events, Chain(events, start)) == At(events, Chain(events, parent)) + Reverse(chain + [events[parent]])
  {
    hide *;
    ChainStep(events, at, parent);
    AtAppends(events, Chain(events, parent), parent);
    ReverseAppends(chain, events[parent]);
    Reassociate(At(events, Chain(events, parent)), [events[parent]], Reverse(chain));
  }

  lemma ChainStep(events: seq<NetworkEvent>, at: nat, parent: nat)
    requires Built(events) && at < |events| && Parent(events, at) == Some(parent)
    ensures Chain(events, at) == Chain(events, parent) + [parent]
  {
  }

  lemma AtAppends(events: seq<NetworkEvent>, places: seq<nat>, place: nat)
    requires InRange(events, places) && place < |events| && InRange(events, places + [place])
    ensures At(events, places + [place]) == At(events, places) + [events[place]]
  {
  }

  lemma ReverseAppends<T>(s: seq<T>, x: T)
    ensures Reverse(s + [x]) == [x] + Reverse(s)
  {
    hide Reverse;
  }

  lemma NotMet(events: seq<NetworkEvent>, at: nat, parent: nat, seen: set<string>)
    requires UniqueIds(events) && parent < at < |events|
    requires forall id :: id in seen ==> exists j :: at <= j < |events| && events[j].id == id
    ensures events[parent].id !in seen
    ensures forall id :: id in seen + {events[parent].id} ==> exists j :: parent <= j < |events| && events[j].id == id
  {
    forall id | id in seen ensures id != events[parent].id && exists j :: parent <= j < |events| && events[j].id == id {
      var j :| at <= j < |events| && events[j].id == id;
    }
  }

  // ------------------------------------------------------------ descent by id

  /** Some event of this id has, n steps up by parent ids, the id `from`. */
  ghost predicate Descends(events: seq<NetworkEvent>, from: string, id: string, n: nat)
    decreases n
  {
    n > 0 && exists i ::
      && 0 <= i < |events| && events[i].id == id && events[i].parentId.Some?
      && (if n == 1 then events[i].parentId.value == from else Descends(events, from, events[i].parentId.value, n - 1))
  }

  ghost predicate IsDescendant(events: seq<NetworkEvent>, from: string, id: string) {
    exists n: nat :: Descends(events, from, id, n)
  }

  /** One event for each id below `from`, and nothing else. */
  ghost predicate IsDescent(events: seq<NetworkEvent>, from: string, out: seq<NetworkEvent>) {
    && UniqueIds(out) && (forall e :: e in out ==> e in events)
    && (forall id :: HasId(out, id) <==> IsDescendant(events, from, id))
  }

  lemma BelowDescendant(events: seq<NetworkEvent>, from: string, p: string, e: NetworkEvent)
    requires e in events && e.parentId == Some(p) && (p == from || IsDescendant(events, from, p))
    ensures IsDescendant(events, from, e.id)
  {
    var i :| 0 <= i < |events| && events[i] == e;
    if p == from {
      assert Descends(events, from, e.id, 1);
    } else {
      var n: nat :| Descends(events, from, p, n);
      assert Descends(events, from, e.id, n + 1);
    }
  }

  ghost predicate AllDescend(events: seq<NetworkEvent>, from: string, s: seq<NetworkEvent>) {
    forall j :: 0 <= j < |s| ==> s[j] in events && IsDescendant(events, from, s[j].id)
  }

  /** Every child of `from` and of an id already seen is seen or waits. */
  ghost predicate NoneForgotten(events: seq<NetworkEvent>, from: string, stack: seq<NetworkEvent>, seen: set<string>) {
    forall i :: 0 <= i < |events| && events[i].parentId.Some?
                && (events[i].parentId.value == from || events[i].parentId.value in seen)
                ==> events[i].id in seen || HasId(stack, events[i].id)
  }

  /** The depth-first walk below `from` by ids. */
  ghost predicate Descending(events: seq<NetworkEvent>, from: string, out: seq<NetworkEvent>,
                             stack: seq<NetworkEvent>, seen: set<string>) {
    && UniqueIds(out) && (forall id :: id in seen <==> HasId(out, id))
    && AllDescend(events, from, out) && AllDescend(events, from, stack) && NoneForgotten(events, from, stack, seen)
  }

  /** What is pushed for an id: events naming it as their parent, and all of them. */
  lemma KidsOf(events: seq<NetworkEvent>, id: string)
    ensures var kids := Reverse(Kept(HasParent(id), events));
            && (forall j :: 0 <= j < |kids| ==> kids[j] in events && kids[j].parentId == Some(id))
            && (forall i :: 0 <= i < |events| && events[i].parentId == Some(id) ==> HasId(kids, events[i].id))
  {
    var kept := Kept(HasParent(id), events);
    var kids := Reverse(kept);
    KeptIsSub(HasParent(id), events);
    hide Kept, Reverse;
    forall j | 0 <= j < |kids| ensures kids[j] in events && kids[j].parentId == Some(id) {
      assert kids[j] == kept[|kept| - 1 - j] && kept[|kept| - 1 - j] in kept;
    }
    forall i | 0 <= i < |events| && events[i].parentId == Some(id) ensures HasId(kids, events[i].id) {
      assert events[i] in kept;
      var j :| 0 <= j < |kept| && kept[j] == events[i];
      assert kids[|kept| - 1 - j] == events[i];
    }
  }

  lemma KidAt(events: seq<NetworkEvent>, id: string, j: nat)
    requires j < |Reverse(Kept(HasParent(id), events))|
    ensures var kid := Reverse(Kept(HasParent(id), events))[j]; kid in events && kid.parentId == Some(id)
  {
    KidsOf(events, id);
    var kids := Reverse(Kept(HasParent(id), events));
    hide Reverse, Kept;
    assert kids[j] in events && kids[j].parentId == Some(id);
  }

  lemma KidsDescend(events: seq<NetworkEvent>, from: string, id: string)
    requires id == from || IsDescendant(events, from, id)
    ensures AllDescend(events, from, Reverse(Kept(HasParent(id), events)))
  {
    hide Reverse, Kept, IsDescendant, HasParent;
    var kids := Reverse(Kept(HasParent(id), events));
    forall j | 0 <= j < |kids| ensures kids[j] in events && IsDescendant(events, from, kids[j].id) {
      KidAt(events, id, j);
      BelowDescendant(events, from, id, kids[j]);
    }
  }

  lemma DescentStarts(events: seq<NetworkEvent>, from: string)
    ensures Descending(events, from, [], Reverse(Kept(HasParent(from), events)), {})
  {
    KidsOf(events, from);
    KidsDescend(events, from, from);
    hide Reverse, Kept, AllDescend;
    assert AllDescend(events, from, []) by {
      NothingDescends(events, from);
    }
  }

  lemma NothingDescends(events: seq<NetworkEvent>, from: string)
    ensures AllDescend(events, from, [])
  {
  }

  lemma HasIdIn(a: seq<NetworkEvent>, b: seq<NetworkEvent>, id: string)
    ensures HasId(a + b, id) <==> HasId(a, id) || HasId(b, id)
  {
    if HasId(a, id) {
      var j :| 0 <= j < |a| && a[j].id == id;
      assert (a + b)[j].id == id;
    }
    if HasId(b, id) {
      var j :| 0 <= j < |b| && b[j].id == id;
      assert (a + b)[|a| + j].id == id;
    }
  }

  lemma StackTopId(stack: seq<NetworkEvent>, id: string)
    requires stack != []
    ensures HasId(stack, id) ==> HasId(stack[..|stack| - 1], id) || stack[|stack| - 1].id == id
  {
    assert stack == stack[..|stack| - 1] + [stack[|stack| - 1]];
    HasIdIn(stack[..|stack| - 1], [stack[|stack| - 1]], id);
  }

  lemma NoneForgottenStep(events: seq<NetworkEvent>, from: string, stack: seq<NetworkEvent>, seen: set<string>)
    requires NoneForgotten(events, from, stack, seen) && stack != []
    ensures var ev, rest := stack[|stack| - 1], stack[..|stack| - 1];
            if ev.id in seen then NoneForgotten(events, from, rest, seen)
            else NoneForgotten(events, from, rest + Reverse(Kept(HasParent(ev.id), events)), seen + {ev.id})
  {
    hide Reverse, Kept, HasId;
    var ev, rest := stack[|stack| - 1], stack[..|stack| - 1];
    var kids := Reverse(Kept(HasParent(ev.id), events));
    KidsOf(events, ev.id);
    forall i | 0 <= i < |events|
      ensures HasId(stack, events[i].id) ==> HasId(rest, events[i].id) || events[i].id == ev.id
      ensures HasId(rest + kids, events[i].id) <==> HasId(rest, events[i].id) || HasId(kids, events[i].id)
    {
      StackTopId(stack, events[i].id);
      HasIdIn(rest, kids, events[i].id);
    }
  }

  /** Popping the top: an id already seen is skipped, a new one is output and its children pushed. */
  lemma DescentStep(events: seq<NetworkEvent>, from: string, out: seq<NetworkEvent>, stack: seq<NetworkEvent>,
                    seen: set<string>)
    requires Descending(events, from, out, stack, seen) && stack != []
    ensures var ev, rest := stack[|stack| - 1], stack[..|stack| - 1];
            if ev.id in seen then Descending(events, from, out, rest, seen)
            else Descending(events, from, out + [ev], rest + Reverse(Kept(HasParent(ev.id), events)), seen + {ev.id})
  {
    var ev := stack[|stack| - 1];
    NoneForgottenStep(events, from, stack, seen);
    KidsDescend(events, from, ev.id);
    hide Reverse, Kept, IsDescendant, NoneForgotten;
    if ev.id !in seen {
      HasIdGrows(out, ev, seen);
      hide HasId;
      forall j | 0 <= j < |out| ensures out[j].id != ev.id {
        HasIdAt(out, j);
      }
    }
  }

  lemma HasIdAt(s: seq<NetworkEvent>, j: nat)
    requires j < |s|
    ensures HasId(s, s[j].id)
  {
  }

  lemma {:induction false} AllSeen(events: seq<NetworkEvent>, from: string, seen: set<string>, id: string, n: nat)
    requires NoneForgotten(events, from, [], seen) && Descends(events, from, id, n)
    ensures id in seen
    decreases n
  {
    var i :| && 0 <= i < |events| && events[i].id == id && events[i].parentId.Some?
             && (if n == 1 then events[i].parentId.value == from
                 else Descends(events, from, events[i].parentId.value, n - 1));
    if n > 1 {
      AllSeen(events, from, seen, events[i].parentId.value, n - 1);
    }
    assert !HasId([], id);
  }

  lemma DescentEnds(events: seq<NetworkEvent>, from: string, out: seq<NetworkEvent>, seen: set<string>)
    requires Descending(events, from, out, [], seen)
    ensures IsDescent(events, from, Sort(NotLater, out)) && SortedBy(NotLater, Sort(NotLater, out))
  {
    var sorted := Sort(NotLater, out);
    SortKeepsContents(NotLater, out);
    SortSorts(NotLater, out);
    hide Sort, SortedBy, NoneForgotten;
    SameContents(out, sorted);
    hide Descends;
    forall id ensures HasId(sorted, id) <==> IsDescendant(events, from, id) {
      if IsDescendant(events, from, id) {
        var n: nat :| Descends(events, from, id, n);
        AllSeen(events, from, seen, id, n);
      }
    }
  }

  lemma SameContents(a: seq<NetworkEvent>, b: seq<NetworkEvent>)
    requires multiset(a) == multiset(b)
    ensures forall e :: e in a <==> e in b
    ensures forall id :: HasId(a, id) <==> HasId(b, id)
    ensures UniqueIds(a) ==> UniqueIds(b)
  {
    forall e ensures e in a <==> e in b {
      assert e in a <==> e in multiset(a);
    }
    forall id ensures HasId(a, id) <==> HasId(b, id) {
      SameIds(a, b, id);
      SameIds(b, a, id);
    }
    if UniqueIds(a) {
      forall i, j | 0 <= i < j < |b| ensures b[i].id != b[j].id {
        if b[i].id == b[j].id {
          OneOfEach(a, b[i], b[j]);
          TwoOfThat(b, i, j);
          assert false;
        }
      }
    }
  }

  lemma SameIds(a: seq<NetworkEvent>, b: seq<NetworkEvent>, id: string)
    requires forall e :: e in a ==> e in b
    ensures HasId(a, id) ==> HasId(b, id)
  {
    if HasId(a, id) {
      var j :| 0 <= j < |a| && a[j].id == id;
      assert a[j] in b;
    }
  }

  lemma OneOfEach(a: seq<NetworkEvent>, e: NetworkEvent, f: NetworkEvent)
    requires UniqueIds(a) && e in a && f in a && e.id == f.id
    ensures e == f && multiset(a)[e] == 1
  {
    var i :| 0 <= i < |a| && a[i] == e;
    assert a == a[..i] + ([a[i]] + a[i + 1..]);
    assert e !in a[..i] && e !in a[i + 1..];
  }

  lemma TwoOfThat(b: seq<NetworkEvent>, i: nat, j: nat)
    requires i < j < |b| && b[i] == b[j]
    ensures multiset(b)[b[i]] >= 2
  {
    assert b == b[..j] + b[j..];
    assert b[i] == b[..j][i] && b[j] == b[j..][0];
    assert b[i] in multiset(b[..j]) && b[j] in multiset(b[j..]);
  }

  // ------------------------------------------------------------ the walk down

  /** A depth-first walk below k: what it has output and what its stack still holds. */
  ghost predicate Walking(events: seq<NetworkEvent>, k: nat, done: seq<nat>, places: seq<nat>, out: seq<NetworkEvent>,
                          stack: seq<NetworkEvent>, seen: set<string>) {
    && Built(events) && k < |events| && InRange(events, done) && InRange(events, places)
    && out == At(events, done) && stack == At(events, places)
    && (forall id :: id in seen ==> exists j :: j in done && events[j].id == id)
    && Subtrees(events, k, 0) == done + StackOrder(events, places)
  }

  lemma WalkStarts(events: seq<NetworkEvent>, k: nat) returns (places: seq<nat>)
    requires Built(events) && UniqueIds(events) && k < |events|
    ensures Walking(events, k, [], places, [], Reverse(Kept(HasParent(events[k].id), events)), {})
  {
    ChildrenAre(events, k, 0);
    places := Reverse(ChildrenFrom(events, k, 0));
    PushInRange(events, k, 0, []);
    NothingFirst(places);
    PushChildren(events, k, 0, []);
    hide Built, Subtrees, IsChild, ChildrenFrom, Reverse;
    var s := Subtrees(events, k, 0);
    assert s + [] == s && [] + s == s && events[0..] == events;
    ReverseAt(events, ChildrenFrom(events, k, 0));
  }

  lemma ReverseAt(events: seq<NetworkEvent>, places: seq<nat>)
    requires InRange(events, places)
    ensures InRange(events, Reverse(places)) && At(events, Reverse(places)) == Reverse(At(events, places))
  {
  }

  /** The walk never meets an event twice, and visiting the top of its stack pushes that event's children. */
  lemma WalkStep(events: seq<NetworkEvent>, k: nat, done: seq<nat>, places: seq<nat>, out: seq<NetworkEvent>,
                 stack: seq<NetworkEvent>, seen: set<string>) returns (places': seq<nat>)
    requires Walking(events, k, done, places, out, stack, seen) && UniqueIds(events) && stack != []
    ensures |places| == |stack|
    ensures var ev := stack[|stack| - 1];
            && ev.id !in seen
            && Walking(events, k, done + [places[|places| - 1]], places', out + [ev],
                       stack[..|stack| - 1] + Reverse(Kept(HasParent(ev.id), events)), seen + {ev.id})
  {
    hide Built, UniqueIds, Subtrees, IsChild, ChildrenFrom, Reverse, StackOrder, Kept, At, InRange;
    StackIsPlaces(events, places, stack);
    var top, rest := places[|places| - 1], places[..|places| - 1];
    var kids := ChildrenFrom(events, top, 0);
    ChildrenAre(events, top, 0);
    assert events[0..] == events && rest + [top] == places;
    ReverseAt(events, kids);
    PushInRange(events, top, 0, rest);
    PushChildren(events, top, 0, rest);
    places' := rest + Reverse(kids);
    AtJoins(events, rest, Reverse(kids));
    WalkOrder(events, k, done, top, rest, places');
    MetOnce(events, k, done, top, rest);
    SeenGrows(events, done, top, seen);
    AtAppends(events, done, top);
  }

  lemma StackIsPlaces(events: seq<NetworkEvent>, places: seq<nat>, stack: seq<NetworkEvent>)
    requires InRange(events, places) && stack == At(events, places) && stack != []
    ensures |places| == |stack|
    ensures var n := |places| - 1;
            && places[n] < |events| && stack[n] == events[places[n]]
            && InRange(events, places[..n]) && stack[..n] == At(events, places[..n])
  {
  }

  lemma AtJoins(events: seq<NetworkEvent>, a: seq<nat>, b: seq<nat>)
    requires InRange(events, a) && InRange(events, b)
    ensures InRange(events, a + b) && At(events, a + b) == At(events, a) + At(events, b)
  {
  }

  lemma SeenGrows(events: seq<NetworkEvent>, done: seq<nat>, top: nat, seen: set<string>)
    requires UniqueIds(events) && InRange(events, done) && top < |events| && top !in done
    requires forall id :: id in seen ==> exists j :: j in done && events[j].id == id
    ensures events[top].id !in seen && InRange(events, done + [top])
    ensures forall id :: id in seen + {events[top].id} ==> exists j :: j in done + [top] && events[j].id == id
  {
    assert top in done + [top];
    forall id | id in seen ensures id != events[top].id && exists j :: j in done + [top] && events[j].id == id {
      var j :| j in done && events[j].id == id;
      assert j in done + [top];
    }
  }

  lemma WalkOrder(events: seq<NetworkEvent>, k: nat, done: seq<nat>, top: nat, rest: seq<nat>, places': seq<nat>)
    requires Built(events) && k < |events| && top < |events| && InRange(events, rest) && InRange(events, rest + [top])
    requires InRange(events, places') && Subtrees(events, k, 0) == done + StackOrder(events, rest + [top])
    requires StackOrder(events, places') == Subtrees(events, top, 0) + StackOrder(events, rest)
    ensures Subtrees(events, k, 0) == (done + [top]) + StackOrder(events, places')
  {
    hide *;
    StackTop(events, rest, top);
    NoEarlyChildren(events, top, 0);
    Reassociate([top], Subtrees(events, top, 0), StackOrder(events, rest));
    Reassociate(done, [top], StackOrder(events, places'));
  }

  lemma MetOnce(events: seq<NetworkEvent>, k: nat, done: seq<nat>, top: nat, rest: seq<nat>)
    requires Built(events) && UniqueIds(events) && k < |events| && top < |events|
    requires InRange(events, done) && InRange(events, rest) && InRange(events, rest + [top])
    requires Subtrees(events, k, 0) == done + StackOrder(events, rest + [top])
    ensures top !in done
  {
    hide *;
    StackTop(events, rest, top);
    SubtreesExact(events, k, 0, top);
    NotTwice(done, StackOrder(events, rest + [top]), top);
  }

  lemma NotTwice<T>(s: seq<T>, later: seq<T>, x: T)
    requires later != [] && later[0] == x && multiset(s + later)[x] <= 1
    ensures x !in s
  {
    assert multiset(s + later)[x] == multiset(s)[x] + multiset(later)[x];
    assert x in later;
  }

  /** The output of a finished walk, sorted by time: each descendant once, and nothing else. */
  ghost predicate DescendantsOf(events: seq<NetworkEvent>, k: nat, out: seq<NetworkEvent>) {
    && Built(events) && k < |events| && SortedBy(NotLater, out)
    && (forall e :: e in out ==> e in events)
    && forall i :: 0 <= i < |events| ==> multiset(out)[events[i]] == if Below(events, k, i) then 1 else 0
  }

  lemma WalkEnds(events: seq<NetworkEvent>, k: nat, done: seq<nat>, out: seq<NetworkEvent>, seen: set<string>)
    requires Walking(events, k, done, [], out, [], seen) && UniqueIds(events)
    ensures DescendantsOf(events, k, Sort(NotLater, out))
    ensures Sort(NotLater, out) == Sort(NotLater, At(events, done)) && done == Subtrees(events, k, 0)
  {
    assert done + [] == done;
    SortKeepsContents(NotLater, out);
    SortSorts(NotLater, out);
    forall e | e in Sort(NotLater, out) ensures e in events {
      assert e in multiset(out);
    }
    hide Sort, Below, Subtrees, Branch;
    forall i | 0 <= i < |events| ensures multiset(out)[events[i]] == if Below(events, k, i) then 1 else 0 {
      SubtreesExact(events, k, 0, i);
      AtCounts(events, done, i);
    }
  }

  lemma WalkedOut(events: seq<NetworkEvent>, k: nat, done: seq<nat>, places: seq<nat>, out: seq<NetworkEvent>,
                  seen: set<string>)
    requires Walking(events, k, done, places, out, [], seen) && UniqueIds(events)
    ensures DescendantsOf(events, k, Sort(NotLater, out))
  {
    hide Built, UniqueIds, Subtrees, StackOrder, DescendantsOf;
    assert |places| == 0;
    WalkEnds(events, k, done, out, seen);
  }

  lemma {:induction false} AtCounts(events: seq<NetworkEvent>, places: seq<nat>, i: nat)
    requires UniqueIds(events) && InRange(events, places) && i < |events|
    ensures multiset(At(events, places))[events[i]] == multiset(places)[i]
  {
    if places != [] {
      var init, last := places[..|places| - 1], places[|places| - 1];
      AtCounts(events, init, i);
      assert places == init + [last] && At(events, places) == At(events, init) + [events[last]];
      assert events[last] == events[i] <==> last == i;
    }
  }

  /** The events on the parent chain of event k, oldest first. */
  ghost predicate IsChainOf(events: seq<NetworkEvent>, k: nat, chain: seq<NetworkEvent>) {
    Built(events) && k < |events| && InRange(events, Chain(events, k)) && chain == At(events, Chain(events, k))
  }

  lemma ChainTop(events: seq<NetworkEvent>, start: nat, at: nat, cur: Option<NetworkEvent>, seen: set<string>,
                 chain: seq<NetworkEvent>)
    requires ClimbedTo(events, start, at, cur, seen, chain) && cur.Some? && cur.value.parentId.None?
    ensures start < |events| && IsChainOf(events, start, Reverse(chain))
  {
    assert Chain(events, at) == [];
  }

  /**
    * The walk from `start` stands at `at`: its chain so far is what lies between, newest first, and the ids it
    * has seen belong to events no older.
    */
  ghost predicate ClimbedTo(events: seq<NetworkEvent>, start: nat, at: nat, cur: Option<NetworkEvent>,
                            seen: set<string>,
                            chain: seq<NetworkEvent>) {
    && Built(events) && start < |events| && at < |events| && cur == Some(events[at])
    && (forall id :: id in seen ==> exists j :: at <= j < |events| && events[j].id == id)
    && InRange(events, Chain(events, start)) && InRange(events, Chain(events, at))
    && At(events, Chain(events, start)) == At(events, Chain(events, at)) + Reverse(chain)
  }

  lemma BuiltGrows(events: seq<NetworkEvent>, e: NetworkEvent)
    requires Built(events) && (e.parentId.Some? ==> exists j :: 0 <= j < |events| && events[j].id == e.parentId.value)
    ensures Built(events + [e])
  {
    var all := events + [e];
    forall i | 0 <= i < |all| && all[i].parentId.Some? ensures exists j :: 0 <= j < i
                                                                           && all[j].id == all[i].parentId.value {
      if i < |events| {
        var j :| 0 <= j < i && events[j].id == events[i].parentId.value;
        assert all[j].id == all[i].parentId.value;
      } else {
        var j :| 0 <= j < |events| && events[j].id == e.parentId.value;
        assert all[j].id == all[i].parentId.value;
      }
    }
  }

  // ------------------------------------------------------------ both directions

  /** Ancestors and descendants agree: i has k among its ancestors exactly when k has i among its descendants, once. */
  lemma AncestorsMirrorDescendants(events: seq<NetworkEvent>, k: nat, i: nat, chain: seq<NetworkEvent>,
                                   out: seq<NetworkEvent>)
    requires UniqueIds(events) && i < |events| && IsChainOf(events, i, chain) && DescendantsOf(events, k, out)
    ensures events[k] in chain <==> events[i] in out
    ensures multiset(out)[events[i]] <= 1 && events[k] !in out
  {
    ChainIsBelow(events, k, i);
    FirstHoldersLeadBack(events, k, k);
    var places := Chain(events, i);
    hide Built, Below, Chain, SortedBy;
    if k in places {
      var j :| 0 <= j < |places| && places[j] == k;
      assert chain[j] == events[k];
    }
    if events[k] in chain {
      var j :| 0 <= j < |chain| && chain[j] == events[k];
      assert places[j] == k;
    }
    assert events[i] in out <==> multiset(out)[events[i]] > 0;
    assert events[k] in out <==> multiset(out)[events[k]] > 0;
  }

  /** With a repeated id an event can be its own parent, and then is among its own ancestors. */
  method RepeatedIdMakesCycle() returns (graph: EventGraph, e: NetworkEvent, chain: seq<NetworkEvent>)
    ensures fresh(graph) && graph.Valid() && !UniqueIds(graph.events) && !Acyclic(graph.byId)
    ensures e in graph.events && e.parentId == Some(e.id) && e.id in graph.byId && graph.byId[e.id] == e
    ensures IsIdChain(graph.byId, e.id, chain) && HasId(chain, e.id)
  {
    graph := new EventGraph();
    var first := NetworkEvent("a", 0.0, "dns", "", None, None, None);
    e := first.(parentId := Some("a"));
    var r := graph.Add(first);
    r := graph.Add(e);
    assert graph.events[0].id == graph.events[1].id;
    chain := graph.Ancestors("a");
    OwnParent(graph.byId, e);
  }

  lemma OwnParent(byId: map<string, NetworkEvent>, e: NetworkEvent)
    requires e.parentId == Some(e.id) && e.id in byId && byId[e.id] == e
    ensures OnChain(byId, e.id, e.id) && !Acyclic(byId)
  {
    StepOf(byId, e.id);
  }
}

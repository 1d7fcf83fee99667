/**
 The observation layer of Observable.cpp: the global hold counter, the
 links of the observation graph (an onlooker watching an observable, each
 link carrying the observer and/or listener bit), the counting queries,
 and the queue of delayed events that `unholdObservers` delivers.

 Objects are their node ids in the observation graph. A link is the pair
 (onlooker, observed), the direction of the observation-graph edge; its
 bit set is never empty. Callbacks into observers (`treatEvent`,
 `treatEvents`), object deletion and the graph's node reuse are not part of
 this model.
 */
module Observables {
  import opened Wrappers

  /** The two bits a link can carry. */
  datatype Kind = ObserverBit | ListenerBit

  datatype EventType = Modification | Information | Invalid | Delete

  type Link = (nat, nat)

  /**
   `_oHoldCounter`, `_oDisabled`, the bound objects, the links with their
   bits, `_oDelayedEvents` as (sender, observer) pairs, and the senders
   whose `_queuedEvent` flag is set.
   */
  datatype Registry = Registry(
    hold: nat,
    disabled: bool,
    bound: set<nat>,
    links: map<Link, set<Kind>>,
    delayed: set<Link>,
    queued: set<nat>)

  const Empty := Registry(0, false, {}, map[], {}, {})

  /** Every link joins bound objects and carries at least one bit. */
  predicate Valid(r: Registry)
  {
    forall p :: p in r.links ==> p.0 in r.bound && p.1 in r.bound && r.links[p] != {}
  }

  /** At most one link joins two objects, whichever its direction. */
  predicate OneLinkPerPair(r: Registry)
  {
    forall p :: p in r.links && (p.1, p.0) in r.links ==> p.0 == p.1
  }

  // ---------------------------------------------------------------------------
  // Events
  // ---------------------------------------------------------------------------

  datatype Event = Event(sender: nat, kind: EventType)

  /** Building a delete event by hand is rejected; they are made only when an observable dies. */
  function NewEvent(sender: nat, t: EventType): (r: Option<Event>)
    ensures r.None? <==> t == Delete
    ensures r.Some? ==> r.value.sender == sender && r.value.kind == t
  {
    if t == Delete then None else Some(Event(sender, t))
  }

  // ---------------------------------------------------------------------------
  // Hold and unhold
  // ---------------------------------------------------------------------------

  function Hold(r: Registry): (r': Registry)
    ensures r'.hold == r.hold + 1 && r' == r.(hold := r'.hold)
  {
    r.(hold := r.hold + 1)
  }

  /** The registry after an unhold, and the (sender, observer) events it delivers. */
  datatype Unheld = Unheld(reg: Registry, delivered: set<Link>)

  /**
   Without a pending hold nothing happens (release builds); otherwise the
   counter drops, and when it reaches 0 with events queued, the queue is
   emptied, the senders' queued flags are cleared and the events are
   delivered. Events queued by observers during delivery are not modelled.
   */
  function Unhold(r: Registry): (u: Unheld)
    ensures r.hold == 0 ==> u == Unheld(r, {})
    ensures r.hold > 0 ==> u.reg.hold == r.hold - 1
    ensures u.delivered != {} <==> r.hold == 1 && r.delayed != {}
    ensures u.delivered != {} ==> u.delivered == r.delayed && u.reg.delayed == {}
    ensures u.reg.links == r.links && u.reg.bound == r.bound
  {
    if r.hold == 0 then Unheld(r, {})
    else if r.hold > 1 || r.delayed == {} then Unheld(r.(hold := r.hold - 1), {})
    else
      var senders := set p | p in r.delayed :: p.0;
      Unheld(r.(hold := 0, delayed := {}, queued := r.queued - senders), r.delayed)
  }

  /** An unhold undoes a hold; the events queued meanwhile wait for the outermost unhold. */
  lemma HoldThenUnhold(r: Registry)
    ensures r.hold > 0 || r.delayed == {} ==> Unhold(Hold(r)) == Unheld(r, {})
    ensures r.hold == 0 && r.delayed != {} ==> Unhold(Hold(r)).reg.delayed == {}
  {
  }

  // ---------------------------------------------------------------------------
  // Links
  // ---------------------------------------------------------------------------

  /**
   The first edge `getEdges(obs, me, directed)` returns: the link from obs
   to me, or with `directed` false also the link from me to obs.
   */
  function FindLink(r: Registry, obs: nat, me: nat, directed: bool): (l: Option<Link>)
    ensures l.Some? ==> l.value in r.links
    ensures l.Some? ==> l.value == (obs, me) || (!directed && l.value == (me, obs))
    ensures l.None? ==> (obs, me) !in r.links && (directed || (me, obs) !in r.links)
  {
    if (obs, me) in r.links then Some((obs, me))
    else if !directed && (me, obs) in r.links then Some((me, obs))
    else None
  }

  /**
   `addOnlooker`: both objects become bound; the kind's bit is ORed into
   the existing link, or a new link from obs to me carries it. The source
   looks for the existing link without regard to direction (`directed`
   false).
   */
  function AddOnlooker(r: Registry, obs: nat, me: nat, k: Kind, directed: bool): (r': Registry)
    ensures r'.bound == r.bound + {obs, me}
    ensures r'.hold == r.hold && r'.delayed == r.delayed
  {
    var link := if obs in r.bound && me in r.bound then FindLink(r, obs, me, directed) else None;
    var links := match link
      case None => r.links[(obs, me) := {k}]
      case Some(p) => r.links[p := r.links[p] + {k}];
    r.(bound := r.bound + {obs, me}, links := links)
  }

  /** `addObserver` also clears the observable's queued flag. */
  function AddObserver(r: Registry, obs: nat, me: nat, directed: bool): (r': Registry)
    ensures me !in r'.queued
  {
    AddOnlooker(r.(queued := r.queued - {me}), obs, me, ObserverBit, directed)
  }

  /**
   `removeOnlooker`: a no-op when either object is unbound or no link is
   found; otherwise the bit is cleared and a link left with no bit is
   deleted.
   */
  function RemoveOnlooker(r: Registry, obs: nat, me: nat, k: Kind, directed: bool): (r': Registry)
    ensures r'.bound == r.bound && r'.hold == r.hold
    ensures obs !in r.bound || me !in r.bound ==> r' == r
    ensures forall p :: p in r'.links ==> p in r.links && r'.links[p] <= r.links[p]
  {
    if obs !in r.bound || me !in r.bound then r
    else
      match FindLink(r, obs, me, directed)
      case None => r
      case Some(p) =>
        var bits := r.links[p] - {k};
        if bits == {} then r.(links := r.links - {p}) else r.(links := r.links[p := bits])
  }

  lemma AddKeepsValid(r: Registry, obs: nat, me: nat, k: Kind, directed: bool)
    requires Valid(r)
    ensures Valid(AddOnlooker(r, obs, me, k, directed))
  {
  }

  lemma RemoveKeepsValid(r: Registry, obs: nat, me: nat, k: Kind, directed: bool)
    requires Valid(r)
    ensures Valid(RemoveOnlooker(r, obs, me, k, directed))
  {
  }

  /** The undirected lookup never creates a second link between two objects. */
  lemma AddKeepsOneLinkPerPair(r: Registry, obs: nat, me: nat, k: Kind)
    requires Valid(r) && OneLinkPerPair(r)
    ensures OneLinkPerPair(AddOnlooker(r, obs, me, k, false))
  {
  }

  /** obs onlooks me with kind k. */
  predicate Onlooks(r: Registry, obs: nat, me: nat, k: Kind)
  {
    (obs, me) in r.links && k in r.links[(obs, me)]
  }

  /** With the directed lookup, adding makes obs an onlooker of me of that kind, and nothing else changes. */
  lemma AddMakesOnlooker(r: Registry, obs: nat, me: nat, k: Kind)
    requires Valid(r)
    ensures var r' := AddOnlooker(r, obs, me, k, true);
            Onlooks(r', obs, me, k)
            && (forall a: nat, b: nat, j :: (a, b) != (obs, me) ==> (Onlooks(r', a, b, j) <==> Onlooks(r, a, b, j)))
            && (forall j :: j != k ==> (Onlooks(r', obs, me, j) <==> Onlooks(r, obs, me, j)))
  {
  }

  /** With the directed lookup, removing ends exactly that onlooking and leaves every other one. */
  lemma RemoveEndsOnlooker(r: Registry, obs: nat, me: nat, k: Kind)
    requires Valid(r) && obs in r.bound && me in r.bound
    ensures !Onlooks(RemoveOnlooker(r, obs, me, k, true), obs, me, k)
    ensures forall a: nat, b: nat, j :: (a, b) != (obs, me) ==>
              (Onlooks(RemoveOnlooker(r, obs, me, k, true), a, b, j) <==> Onlooks(r, a, b, j))
    ensures forall j :: j != k ==> (Onlooks(RemoveOnlooker(r, obs, me, k, true), obs, me, j) <==> Onlooks(r, obs, me, j))
  {
    if (obs, me) in r.links {
      forall j | j != k && j in r.links[(obs, me)]
        ensures Onlooks(RemoveOnlooker(r, obs, me, k, true), obs, me, j)
      {
        assert j in r.links[(obs, me)] - {k};
      }
    }
  }

  /** Adding a kind that was not there and removing it again restores the links. */
  lemma AddThenRemove(r: Registry, obs: nat, me: nat, k: Kind)
    requires Valid(r) && obs in r.bound && me in r.bound && !Onlooks(r, obs, me, k)
    ensures RemoveOnlooker(AddOnlooker(r, obs, me, k, true), obs, me, k, true).links == r.links
  {
    var r1 := AddOnlooker(r, obs, me, k, true);
    var r2 := RemoveOnlooker(r1, obs, me, k, true);
    if (obs, me) in r.links {
      assert r1.links[(obs, me)] - {k} == r.links[(obs, me)];
    } else {
      assert r1.links == r.links[(obs, me) := {k}];
      assert r2.links == r.links;
    }
  }

  // ---------------------------------------------------------------------------
  // Queries
  // ---------------------------------------------------------------------------

  /** `hasOnlookers`: false when unbound, else the in-degree is positive. */
  predicate HasOnlookers(r: Registry, me: nat)
  {
    me in r.bound && exists p :: p in r.links && p.1 == me
  }

  /** The other objects onlooking me with kind k. */
  function Onlookers(r: Registry, me: nat, k: Kind): (s: set<nat>)
    ensures forall x :: x in s <==> x != me && Onlooks(r, x, me, k)
  {
    set p | p in r.links && p.1 == me && p.0 != me && k in r.links[p] :: p.0
  }

  /**
   `countObservers` / `countListeners`: the links into me carrying the bit,
   over the incidence list, in which a link from me to me appears twice.
   */
  function Count(r: Registry, me: nat, k: Kind): (n: nat)
    ensures !HasOnlookers(r, me) ==> n == 0
    ensures HasOnlookers(r, me) && !Onlooks(r, me, me, k) ==> n == |Onlookers(r, me, k)|
  {
    if !HasOnlookers(r, me) then 0
    else |Onlookers(r, me, k)| + if Onlooks(r, me, me, k) then 2 else 0
  }

  /** Adding a new onlooker of me raises its count by one (directed lookup). */
  lemma {:induction false} CountAfterAdd(r: Registry, obs: nat, me: nat, k: Kind)
    requires Valid(r) && obs != me && me in r.bound && !Onlooks(r, obs, me, k) && !Onlooks(r, me, me, k)
    ensures Count(AddOnlooker(r, obs, me, k, true), me, k) == Count(r, me, k) + 1
  {
    var r' := AddOnlooker(r, obs, me, k, true);
    AddMakesOnlooker(r, obs, me, k);
    assert Onlookers(r', me, k) == Onlookers(r, me, k) + {obs};
    assert obs !in Onlookers(r, me, k);
    assert HasOnlookers(r', me) by { assert (obs, me) in r'.links; }
    if !HasOnlookers(r, me) {
      assert Onlookers(r, me, k) == {};
    }
  }

  // ---------------------------------------------------------------------------
  // Sending
  // ---------------------------------------------------------------------------

  /** The registry after `sendEvent`, and who is told at once. */
  datatype Sent = Sent(reg: Registry, observersNow: set<nat>, listenersNow: set<nat>)

  /**
   `sendEvent` from me: nothing when unbound or disabled (delete events
   excepted). Listeners are told at once; observers are told at once
   unless a hold is pending (delete events excepted), in which case, if me
   has not queued an event yet, one (me, observer) pair per observer is
   queued and me is marked as queued. Information events do not reach
   observers.
   */
  function Send(r: Registry, me: nat, t: EventType): (s: Sent)
    ensures s.listenersNow <= Onlookers(r, me, ListenerBit)
    ensures s.reg.links == r.links && s.reg.hold == r.hold
    ensures r.delayed <= s.reg.delayed
  {
    if (r.disabled && t != Delete) || me !in r.bound then Sent(r, {}, {})
    else
      var observers := if t == Information then {} else Onlookers(r, me, ObserverBit);
      var listeners := Onlookers(r, me, ListenerBit);
      if r.hold == 0 || t == Delete then Sent(r, observers, listeners)
      else if me in r.queued || observers == {} then Sent(r, {}, listeners)
      else
        var pairs := set x | x in observers :: (me, x);
        Sent(r.(delayed := r.delayed + pairs, queued := r.queued + {me}), {}, listeners)
  }

  /** With no hold, every observer and listener of a modification is told at once and nothing is queued. */
  lemma SendUnheld(r: Registry, me: nat)
    requires r.hold == 0 && !r.disabled && me in r.bound
    ensures Send(r, me, Modification) == Sent(r, Onlookers(r, me, ObserverBit), Onlookers(r, me, ListenerBit))
  {
  }

  /** While held, listeners are still told at once, and an event for an observer is queued at most once. */
  lemma SendHeld(r: Registry, me: nat, t: EventType)
    requires r.hold > 0 && !r.disabled && me in r.bound && t != Delete
    ensures var s := Send(r, me, t);
            s.observersNow == {} && s.listenersNow == Onlookers(r, me, ListenerBit)
            && Send(s.reg, me, t).reg == s.reg
  {
  }

  /** The queued events are delivered when the last hold is released. */
  lemma HeldEventsDelivered(r: Registry, me: nat, x: nat)
    requires r.hold == 1 && !r.disabled && me in r.bound && me !in r.queued
    requires Onlooks(r, x, me, ObserverBit) && x != me
    ensures (me, x) in Unhold(Send(r, me, Modification).reg).delivered
  {
    assert x in Onlookers(r, me, ObserverBit);
  }

  // ---------------------------------------------------------------------------
  // The undirected lookup
  // ---------------------------------------------------------------------------

  /** `a.addObserver(b)` then `b.addObserver(a)`, from an empty registry. */
  function MutualObservers(a: nat, b: nat, directed: bool): Registry
  {
    AddObserver(AddObserver(Empty, b, a, directed), a, b, directed)
  }

  /** As written, the second call finds the first link and only re-sets its bit: b has no observer. */
  lemma MutualObserversAsWritten()
    ensures Count(MutualObservers(1, 2, false), 2, ObserverBit) == 0
    ensures !Onlooks(MutualObservers(1, 2, false), 1, 2, ObserverBit)
  {
    var r1 := AddObserver(Empty, 2, 1, false);
    assert r1.links == map[(2, 1) := {ObserverBit}] && r1.bound == {1, 2};
    assert FindLink(r1, 1, 2, false) == Some((2, 1));
    var r := MutualObservers(1, 2, false);
    assert {ObserverBit} + {ObserverBit} == {ObserverBit};
    assert r.links == map[(2, 1) := {ObserverBit}];
    assert !HasOnlookers(r, 2);
  }

  /** With the directed lookup, each observes the other. */
  lemma MutualObserversCorrected(a: nat, b: nat)
    requires a != b
    ensures var r := MutualObservers(a, b, true);
            Onlooks(r, a, b, ObserverBit) && Onlooks(r, b, a, ObserverBit)
            && Count(r, a, ObserverBit) == 1 && Count(r, b, ObserverBit) == 1
  {
    var r1 := AddObserver(Empty, b, a, true);
    var r := MutualObservers(a, b, true);
    assert r1.links == map[(b, a) := {ObserverBit}];
    assert r.links == map[(b, a) := {ObserverBit}, (a, b) := {ObserverBit}];
    assert Onlookers(r, a, ObserverBit) == {b};
    assert Onlookers(r, b, ObserverBit) == {a};
    assert HasOnlookers(r, a) by { assert (b, a) in r.links; }
    assert HasOnlookers(r, b) by { assert (a, b) in r.links; }
  }
}

/**
 Events and their dispatcher: listener groups, dispatch over a snapshot, and what the
 listeners of a group hear of a whole sequence of dispatches.
 */
module Events {
  import opened Bytes

  type Group = string

  type Callback = nat

  datatype Kind =
    | TokenizerStarted | TokenizerCompleted | TokenGenerated
    | GenerationCompleted | PrefillStarted | PrefillCompleted

  datatype Status = Eos | MaxTokens

  /** An event with what it carries; `numTokens` is not set when the token limit ends a run. */
  datatype Event =
    | TokenizerStarted(length: nat)
    | TokenizerCompleted(count: nat)
    | PrefillStarted(count: nat)
    | PrefillCompleted(count: nat)
    | TokenGenerated(seqId: nat, text: Text)
    | GenerationCompleted(status: Status, numTokens: Option<nat>)

  function KindOf(e: Event): (k: Kind) {
    match e
    case TokenizerStarted(_) => Kind.TokenizerStarted
    case TokenizerCompleted(_) => Kind.TokenizerCompleted
    case PrefillStarted(_) => Kind.PrefillStarted
    case PrefillCompleted(_) => Kind.PrefillCompleted
    case TokenGenerated(_, _) => Kind.TokenGenerated
    case GenerationCompleted(_, _) => Kind.GenerationCompleted
  }

  datatype Listener = Listener(callback: Callback, events: set<Kind>)

  type Listeners = map<Group, seq<Listener>>

  /** What a callback may do to the dispatcher while it runs. */
  datatype Action = Listen(group: Group, listener: Listener) | Unlisten(group: Group)

  /** What each callback does with an event. */
  type Effect = (Callback, Event) -> seq<Action>

  /** The group's listeners; looking a group up creates it empty. */
  function Touched(ls: Listeners, group: Group): (ls': Listeners) {
    if group in ls then ls else ls[group := []]
  }

  function Added(ls: Listeners, group: Group, l: Listener): (ls': Listeners) {
    if group in ls then ls[group := ls[group] + [l]] else ls[group := [l]]
  }

  function Applied(ls: Listeners, action: Action): (ls': Listeners) {
    match action
    case Listen(group, l) => Added(ls, group, l)
    case Unlisten(group) => ls - {group}
  }

  function AppliedAll(ls: Listeners, actions: seq<Action>): (ls': Listeners) {
    if actions == [] then ls
    else Applied(AppliedAll(ls, actions[..|actions| - 1]), actions[|actions| - 1])
  }

  /** The callbacks of the listeners interested in `kind`, in registration order. */
  function Matching(ls: seq<Listener>, kind: Kind): (cs: seq<Callback>) {
    if ls == [] then []
    else Matching(ls[..|ls| - 1], kind) + (if kind in ls[|ls| - 1].events then [ls[|ls| - 1].callback] else [])
  }

  /** One listener is called if it is interested; listeners in a row are called one after the other. */
  lemma MatchingOne(l: Listener, kind: Kind)
    ensures Matching([l], kind) == if kind in l.events then [l.callback] else []
  {
    assert [l][..0] == [];
  }

  lemma {:induction false} MatchingJoins(xs: seq<Listener>, ys: seq<Listener>, kind: Kind)
    ensures Matching(xs + ys, kind) == Matching(xs, kind) + Matching(ys, kind)
  {
    if ys == [] {
      NothingMore(xs);
      NothingMore(Matching(xs, kind));
    } else {
      var n := |ys| - 1;
      assert (xs + ys)[..|xs| + n] == xs + ys[..n];
      MatchingJoins(xs, ys[..n], kind);
      Assoc(Matching(xs, kind), Matching(ys[..n], kind), if kind in ys[n].events then [ys[n].callback] else []);
    }
  }

  /** Of two interested listeners, the one registered first is called first, whoever else is there. */
  lemma CalledInOrder(xs: seq<Listener>, a: Listener, ys: seq<Listener>, b: Listener, zs: seq<Listener>, kind: Kind)
    requires kind in a.events && kind in b.events
    ensures Matching(xs + [a] + ys + [b] + zs, kind)
         == Matching(xs, kind) + [a.callback] + Matching(ys, kind) + [b.callback] + Matching(zs, kind)
  {
    MatchingJoins(xs + [a] + ys + [b], zs, kind);
    MatchingJoins(xs + [a] + ys, [b], kind);
    MatchingJoins(xs + [a], ys, kind);
    MatchingJoins(xs, [a], kind);
    MatchingOne(a, kind);
    MatchingOne(b, kind);
  }

  /** Each event has the kind of its own name. */
  lemma KindsMatch(e: Event)
    ensures e.TokenizerStarted? <==> KindOf(e) == Kind.TokenizerStarted
    ensures e.TokenizerCompleted? <==> KindOf(e) == Kind.TokenizerCompleted
    ensures e.PrefillStarted? <==> KindOf(e) == Kind.PrefillStarted
    ensures e.PrefillCompleted? <==> KindOf(e) == Kind.PrefillCompleted
    ensures e.TokenGenerated? <==> KindOf(e) == Kind.TokenGenerated
    ensures e.GenerationCompleted? <==> KindOf(e) == Kind.GenerationCompleted
  {
  }

  function Snapshot(ls: Listeners, group: Group, kind: Kind): (cs: seq<Callback>) {
    if group in ls then Matching(ls[group], kind) else []
  }

  /** All actions the callbacks of a snapshot perform, one callback after the other. */
  function ActionsOf(effect: Effect, cs: seq<Callback>, e: Event): (actions: seq<Action>) {
    if cs == [] then [] else ActionsOf(effect, cs[..|cs| - 1], e) + effect(cs[|cs| - 1], e)
  }

  /** The actions of one callback are its own; callbacks in a row act one after the other. */
  lemma ActionsOne(effect: Effect, c: Callback, e: Event)
    ensures ActionsOf(effect, [c], e) == effect(c, e)
  {
    assert [c][..0] == [];
    assert [] + effect(c, e) == effect(c, e);
  }

  lemma {:induction false} ActionsJoin(effect: Effect, xs: seq<Callback>, ys: seq<Callback>, e: Event)
    ensures ActionsOf(effect, xs + ys, e) == ActionsOf(effect, xs, e) + ActionsOf(effect, ys, e)
  {
    if ys == [] {
      NothingMore(xs);
      NothingMore(ActionsOf(effect, xs, e));
    } else {
      var n := |ys| - 1;
      assert (xs + ys)[..|xs| + n] == xs + ys[..n];
      ActionsJoin(effect, xs, ys[..n], e);
      Assoc(ActionsOf(effect, xs, e), ActionsOf(effect, ys[..n], e), effect(ys[n], e));
    }
  }

  /** Actions in a row are applied one after the other. */
  lemma {:induction false} AppliedJoin(ls: Listeners, xs: seq<Action>, ys: seq<Action>)
    ensures AppliedAll(ls, xs + ys) == AppliedAll(AppliedAll(ls, xs), ys)
  {
    if ys == [] {
      NothingMore(xs);
    } else {
      var n := |ys| - 1;
      assert (xs + ys)[..|xs| + n] == xs + ys[..n];
      AppliedJoin(ls, xs, ys[..n]);
    }
  }

  /** The listeners after one dispatch. */
  function Dispatched(ls: Listeners, group: Group, e: Event, effect: Effect): (ls': Listeners) {
    AppliedAll(Touched(ls, group), ActionsOf(effect, Snapshot(ls, group, KindOf(e)), e))
  }

  /** The listeners after the dispatches of a trace. */
  function Replay(ls: Listeners, group: Group, trace: seq<Event>, effect: Effect): (ls': Listeners) {
    if trace == [] then ls
    else Dispatched(Replay(ls, group, trace[..|trace| - 1], effect), group, trace[|trace| - 1], effect)
  }

  datatype Call = Call(callback: Callback, event: Event)

  function CallsOf(cs: seq<Callback>, e: Event): (calls: seq<Call>) {
    seq(|cs|, i requires 0 <= i < |cs| => Call(cs[i], e))
  }

  /** One call per callback, in order, with the event; no callback is called for an unknown group. */
  lemma CallsExactly(ls: Listeners, group: Group, e: Event)
    ensures var cs := if group in ls then Matching(ls[group], KindOf(e)) else [];
            var calls := CallsOf(Snapshot(ls, group, KindOf(e)), e);
            |calls| == |cs| && forall i :: 0 <= i < |cs| ==> calls[i] == Call(cs[i], e)
  {
  }

  /** Every callback call of the dispatches of a trace, in order. */
  function Calls(ls: Listeners, group: Group, trace: seq<Event>, effect: Effect): (calls: seq<Call>) {
    if trace == [] then []
    else
      var before, e := trace[..|trace| - 1], trace[|trace| - 1];
      Calls(ls, group, before, effect) + CallsOf(Snapshot(Replay(ls, group, before, effect), group, KindOf(e)), e)
  }

  /** How many listeners there are in all groups. */
  ghost function Total(ls: Listeners): (n: nat)
    decreases |ls|
  {
    if ls == map[] then 0
    else
      var group :| group in ls;
      |ls[group]| + Total(ls - {group})
  }

  lemma {:induction false} TotalWithout(ls: Listeners, group: Group)
    requires group in ls
    ensures Total(ls) == |ls[group]| + Total(ls - {group})
    decreases |ls|
  {
    var g :| g in ls && Total(ls) == |ls[g]| + Total(ls - {g});
    if g != group {
      TotalWithout(ls - {g}, group);
      TotalWithout(ls - {group}, g);
      assert ls - {g} - {group} == ls - {group} - {g};
    }
  }

  /** Replacing or creating one group changes the total by the change in its size. */
  lemma TotalWith(ls: Listeners, group: Group, members: seq<Listener>)
    ensures Total(ls[group := members]) == |members| + Total(ls - {group})
  {
    TotalWithout(ls[group := members], group);
    assert ls[group := members] - {group} == ls - {group};
  }

  lemma ApplyTotal(ls: Listeners, action: Action)
    ensures action.Listen? ==> Total(Applied(ls, action)) == Total(ls) + 1
    ensures action.Unlisten? ==>
              Total(Applied(ls, action)) == Total(ls) - |Touched(ls, action.group)[action.group]|
  {
    match action
    case Listen(group, l) =>
      if group in ls {
        TotalWithout(ls, group);
        TotalWith(ls, group, ls[group] + [l]);
      } else {
        TotalWith(ls, group, [l]);
        assert ls - {group} == ls;
      }
    case Unlisten(group) =>
      if group in ls {
        TotalWithout(ls, group);
      } else {
        assert ls - {group} == ls;
      }
  }

  class EventDispatcher {
    var listeners: Listeners
    var callbacksCount: int

    /** The count is the number of registered listeners. */
    ghost predicate Valid()
      reads this
    {
      callbacksCount == Total(listeners)
    }

    constructor ()
      ensures Valid() && listeners == map[]
    {
      listeners, callbacksCount := map[], 0;
    }

    method ListenTo(group: Group, l: Listener)
      requires Valid()
      modifies this
      ensures Valid() && listeners == Applied(old(listeners), Listen(group, l))
      ensures listeners.Keys == old(listeners.Keys) + {group}
      ensures listeners[group] == (if group in old(listeners) then old(listeners)[group] else []) + [l]
      ensures forall g :: g in listeners && g != group ==> listeners[g] == old(listeners)[g]
    {
      ApplyTotal(listeners, Listen(group, l));
      if group in listeners {
        listeners := listeners[group := listeners[group] + [l]];
      } else {
        listeners := listeners[group := [l]];
      }
      callbacksCount := callbacksCount + 1;
    }

    method StopListening(group: Group)
      requires Valid()
      modifies this
      ensures Valid() && listeners == Applied(old(listeners), Unlisten(group))
      ensures listeners.Keys == old(listeners.Keys) - {group}
      ensures forall g :: g in listeners ==> listeners[g] == old(listeners)[g]
    {
      ApplyTotal(listeners, Unlisten(group));
      ghost var before := listeners;
      listeners := Touched(listeners, group);
      var callbacks := |listeners[group]|;
      listeners := listeners - {group};
      assert listeners == before - {group};
      callbacksCount := callbacksCount - callbacks;
    }

    method Perform(action: Action)
      requires Valid()
      modifies this
      ensures Valid() && listeners == Applied(old(listeners), action)
    {
      match action
      case Listen(group, l) => ListenTo(group, l);
      case Unlisten(group) => StopListening(group);
    }

    /**
     Calls exactly the listeners that matched when dispatch began, in registration order,
     whatever the callbacks themselves register or remove meanwhile.
     */
    method Dispatch(group: Group, e: Event, effect: Effect) returns (calls: seq<Call>)
      requires Valid()
      modifies this
      ensures Valid() && calls == CallsOf(Snapshot(old(listeners), group, KindOf(e)), e)
      ensures listeners == Dispatched(old(listeners), group, e, effect)
    {
      TotalTouched(listeners, group);
      listeners := Touched(listeners, group);
      var callbacks := [];
      for i := 0 to |listeners[group]|
        invariant callbacks == Matching(listeners[group][..i], KindOf(e))
      {
        assert listeners[group][..i + 1][..i] == listeners[group][..i];
        if KindOf(e) in listeners[group][i].events {
          callbacks := callbacks + [listeners[group][i].callback];
        }
      }
      assert listeners[group][..|listeners[group]|] == listeners[group];
      ghost var start := listeners;
      calls := [];
      for i := 0 to |callbacks|
        invariant Valid() && calls == CallsOf(callbacks, e)[..i]
        invariant listeners == AppliedAll(start, ActionsOf(effect, callbacks[..i], e))
      {
        RunCallback(start, ActionsOf(effect, callbacks[..i], e), effect(callbacks[i], e));
        assert callbacks[..i + 1][..i] == callbacks[..i];
        calls := calls + [Call(callbacks[i], e)];
      }
      assert callbacks[..|callbacks|] == callbacks;
    }

    /** The body of one callback. */
    method RunCallback(ghost start: Listeners, ghost done: seq<Action>, actions: seq<Action>)
      requires Valid() && listeners == AppliedAll(start, done)
      modifies this
      ensures Valid() && listeners == AppliedAll(start, done + actions)
    {
      assert done + actions[..0] == done;
      for j := 0 to |actions|
        invariant Valid() && listeners == AppliedAll(start, done + actions[..j])
      {
        Perform(actions[j]);
        assert (done + actions[..j + 1])[..|done| + j] == done + actions[..j];
      }
      assert actions[..|actions|] == actions;
    }
  }

  lemma TotalTouched(ls: Listeners, group: Group)
    ensures Total(Touched(ls, group)) == Total(ls)
  {
    if group !in ls {
      TotalWith(ls, group, []);
      assert ls - {group} == ls;
    }
  }

  // ---------- what a listener hears ----------

  predicate Spares(actions: seq<Action>, group: Group) {
    forall i :: 0 <= i < |actions| ==> actions[i].group != group
  }

  /** None of these listeners adds to the group or removes it when it is called with the event. */
  predicate Undisturbed(effect: Effect, group: Group, members: seq<Listener>, e: Event) {
    forall i :: 0 <= i < |members| ==> Spares(effect(members[i].callback, e), group)
  }

  lemma {:induction false} ActionsSpare(effect: Effect, group: Group, members: seq<Listener>, e: Event)
    requires Undisturbed(effect, group, members, e)
    ensures Spares(ActionsOf(effect, Matching(members, KindOf(e)), e), group)
  {
    if members != [] {
      var n := |members| - 1;
      ActionsSpare(effect, group, members[..n], e);
      var before := Matching(members[..n], KindOf(e));
      if KindOf(e) in members[n].events {
        assert (before + [members[n].callback])[..|before|] == before;
      } else {
        NothingMore(before);
      }
    }
  }

  lemma {:induction false} SparedGroup(ls: Listeners, group: Group, actions: seq<Action>)
    requires group in ls && Spares(actions, group)
    ensures group in AppliedAll(ls, actions) && AppliedAll(ls, actions)[group] == ls[group]
  {
    if actions != [] {
      SparedGroup(ls, group, actions[..|actions| - 1]);
    }
  }

  lemma {:induction false} ReplayKeepsGroup(ls: Listeners, group: Group, trace: seq<Event>, effect: Effect)
    requires group in ls && forall i :: 0 <= i < |trace| ==> Undisturbed(effect, group, ls[group], trace[i])
    ensures group in Replay(ls, group, trace, effect) && Replay(ls, group, trace, effect)[group] == ls[group]
  {
    if trace != [] {
      var before, e := trace[..|trace| - 1], trace[|trace| - 1];
      ReplayKeepsGroup(ls, group, before, effect);
      var now := Replay(ls, group, before, effect);
      ActionsSpare(effect, group, ls[group], e);
      SparedGroup(now, group, ActionsOf(effect, Snapshot(now, group, KindOf(e)), e));
    }
  }

  /** What these listeners hear of a trace as long as they stay registered. */
  function CallsTo(members: seq<Listener>, trace: seq<Event>): (calls: seq<Call>) {
    if trace == [] then []
    else
      var e := trace[|trace| - 1];
      CallsTo(members, trace[..|trace| - 1]) + CallsOf(Matching(members, KindOf(e)), e)
  }

  /** A group that is disturbed, if at all, only by the last event hears the whole trace. */
  lemma {:induction false} GroupHears(ls: Listeners, group: Group, trace: seq<Event>, effect: Effect)
    requires group in ls && forall i :: 0 <= i < |trace| - 1 ==> Undisturbed(effect, group, ls[group], trace[i])
    ensures Calls(ls, group, trace, effect) == CallsTo(ls[group], trace)
  {
    if trace != [] {
      GroupHears(ls, group, trace[..|trace| - 1], effect);
      ReplayKeepsGroup(ls, group, trace[..|trace| - 1], effect);
    }
  }

  /** The events one callback was called with, in order. */
  function HeardBy(c: Callback, calls: seq<Call>): (es: seq<Event>) {
    if calls == [] then []
    else HeardBy(c, calls[..|calls| - 1]) + if calls[|calls| - 1].callback == c then [calls[|calls| - 1].event] else []
  }

  function OfKinds(trace: seq<Event>, kinds: set<Kind>): (es: seq<Event>) {
    if trace == [] then []
    else OfKinds(trace[..|trace| - 1], kinds) + if KindOf(trace[|trace| - 1]) in kinds then [trace[|trace| - 1]] else []
  }

  lemma {:induction false} HeardInBoth(c: Callback, xs: seq<Call>, ys: seq<Call>)
    ensures HeardBy(c, xs + ys) == HeardBy(c, xs) + HeardBy(c, ys)
  {
    if ys == [] {
      assert xs + ys == xs;
    } else {
      var n := |ys| - 1;
      assert (xs + ys)[..|xs| + n] == xs + ys[..n];
      HeardInBoth(c, xs, ys[..n]);
    }
  }

  /** `l` is the only one of these listeners with its callback. */
  predicate Alone(members: seq<Listener>, i: nat) {
    i < |members| && forall j :: 0 <= j < |members| && j != i ==> members[j].callback != members[i].callback
  }

  lemma {:induction false} NotHeard(members: seq<Listener>, c: Callback, e: Event)
    requires forall j :: 0 <= j < |members| ==> members[j].callback != c
    ensures HeardBy(c, CallsOf(Matching(members, KindOf(e)), e)) == []
  {
    if members != [] {
      NotHeard(members[..|members| - 1], c, e);
      MatchingSnoc(members, c, e);
    }
  }

  /** One more listener adds at most one call. */
  lemma MatchingSnoc(members: seq<Listener>, c: Callback, e: Event)
    requires members != []
    ensures HeardBy(c, CallsOf(Matching(members, KindOf(e)), e))
         == HeardBy(c, CallsOf(Matching(members[..|members| - 1], KindOf(e)), e))
            + if KindOf(e) in members[|members| - 1].events && members[|members| - 1].callback == c then [e] else []
  {
    var before := Matching(members[..|members| - 1], KindOf(e));
    if KindOf(e) in members[|members| - 1].events {
      var last := members[|members| - 1].callback;
      assert CallsOf(before + [last], e) == CallsOf(before, e) + [Call(last, e)];
      assert (CallsOf(before, e) + [Call(last, e)])[..|before|] == CallsOf(before, e);
    } else {
      assert before + [] == before;
    }
  }

  lemma {:induction false} HeardOnce(members: seq<Listener>, i: nat, e: Event)
    requires Alone(members, i)
    ensures HeardBy(members[i].callback, CallsOf(Matching(members, KindOf(e)), e))
         == if KindOf(e) in members[i].events then [e] else []
  {
    var n, c := |members| - 1, members[i].callback;
    MatchingSnoc(members, c, e);
    if i == n {
      NotHeard(members[..n], c, e);
    } else {
      AlonePrefix(members, i);
      HeardOnce(members[..n], i, e);
    }
  }

  lemma AlonePrefix(members: seq<Listener>, i: nat)
    requires Alone(members, i) && i < |members| - 1
    ensures Alone(members[..|members| - 1], i) && members[..|members| - 1][i] == members[i]
    ensures members[|members| - 1].callback != members[i].callback
  {
  }

  lemma {:induction false} MemberHears(members: seq<Listener>, i: nat, trace: seq<Event>)
    requires Alone(members, i)
    ensures HeardBy(members[i].callback, CallsTo(members, trace)) == OfKinds(trace, members[i].events)
  {
    if trace != [] {
      var before, e := trace[..|trace| - 1], trace[|trace| - 1];
      MemberHears(members, i, before);
      HeardOnce(members, i, e);
      HeardInBoth(members[i].callback, CallsTo(members, before), CallsOf(Matching(members, KindOf(e)), e));
    }
  }

  /**
   A listener of a group that is disturbed, if at all, only by the last event of a trace is
   called with exactly the events of its kinds, once each and in order, whatever the other
   listeners and their callbacks do.
   */
  lemma ListenerHears(ls: Listeners, group: Group, i: nat, trace: seq<Event>, effect: Effect)
    requires group in ls && Alone(ls[group], i)
    requires forall j :: 0 <= j < |trace| - 1 ==> Undisturbed(effect, group, ls[group], trace[j])
    ensures HeardBy(ls[group][i].callback, Calls(ls, group, trace, effect)) == OfKinds(trace, ls[group][i].events)
  {
    GroupHears(ls, group, trace, effect);
    MemberHears(ls[group], i, trace);
  }
}

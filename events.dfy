/** The listener registry (build/services/EventManager.js): for each event type, the
    listeners in registration order, each with an optional label. Listener functions
    are modelled by their identity. */
module Events {
  import opened GameTypes

  /** The identity of a listener function. */
  type ListenerId = nat

  datatype Entry = Entry(tag: Option<string>, listener: ListenerId)

  /** What `off` is given: a listener function, or a label. */
  datatype Handle = ByListener(listener: ListenerId) | ByLabel(name: string)

  type Registry = map<string, seq<Entry>>

  /** Whether an entry is the one a handle designates: by its function or by its label. */
  predicate Matches(e: Entry, h: Handle) {
    match h
    case ByListener(id) => e.listener == id
    case ByLabel(name) => e.tag == Some(name)
  }

  /** `findIndex`: the first entry matching `h`, or -1. */
  function FirstMatch(entries: seq<Entry>, h: Handle): (k: int)
    ensures -1 <= k < |entries|
    ensures k == -1 <==> forall i :: 0 <= i < |entries| ==> !Matches(entries[i], h)
    ensures 0 <= k ==> Matches(entries[k], h) && forall i :: 0 <= i < k ==> !Matches(entries[i], h)
  {
    if entries == [] then -1
    else if Matches(entries[0], h) then 0
    else
      var k := FirstMatch(entries[1..], h);
      assert forall i :: 1 <= i < |entries| ==> entries[1..][i - 1] == entries[i];
      if k == -1 then -1 else k + 1
  }

  /** The registry after `on(eventType, listener, tag)`: the list is created when
      missing, and the entry is appended unless that listener is registered already. */
  function AfterOn(ls: Registry, eventType: string, listener: ListenerId, tag: Option<string>): Registry {
    var entries := if eventType in ls then ls[eventType] else [];
    if FirstMatch(entries, ByListener(listener)) != -1 then ls[eventType := entries]
    else ls[eventType := entries + [Entry(tag, listener)]]
  }

  /** The registry and the result of `off(eventType, h)`: false without a list or a
      matching entry; otherwise the first matching entry is spliced out. */
  function AfterOff(ls: Registry, eventType: string, h: Handle): (Registry, bool) {
    if eventType !in ls then (ls, false)
    else
      var entries := ls[eventType];
      var k := FirstMatch(entries, h);
      if k == -1 then (ls, false)
      else (ls[eventType := entries[..k] + entries[k + 1..]], true)
  }

  /** The listeners `emit(eventType)` calls, in order; none for an unknown type. */
  function Invoked(ls: Registry, eventType: string): (r: seq<ListenerId>)
    ensures eventType in ls ==> |r| == |ls[eventType]| && forall i :: 0 <= i < |r| ==> r[i] == ls[eventType][i].listener
    ensures eventType !in ls ==> r == []
  {
    if eventType !in ls then [] else seq(|ls[eventType]|, i requires 0 <= i < |ls[eventType]| => ls[eventType][i].listener)
  }

  /** `on` appends a new listener at the end of its type's list and leaves every other
      type alone; a listener registered already leaves the entries unchanged. */
  lemma OnSpec(ls: Registry, eventType: string, listener: ListenerId, tag: Option<string>)
    ensures var ls' := AfterOn(ls, eventType, listener, tag);
      var entries := if eventType in ls then ls[eventType] else [];
      && eventType in ls'
      && (forall t :: t != eventType ==> (t in ls' <==> t in ls) && (t in ls ==> ls'[t] == ls[t]))
      && ((exists i :: 0 <= i < |entries| && entries[i].listener == listener) ==> ls'[eventType] == entries)
      && ((forall i :: 0 <= i < |entries| ==> entries[i].listener != listener) ==>
            ls'[eventType] == entries + [Entry(tag, listener)])
  {
  }

  /** Registering the same listener twice is registering it once. */
  lemma OnIdempotent(ls: Registry, eventType: string, listener: ListenerId, tag: Option<string>, tag': Option<string>)
    ensures AfterOn(AfterOn(ls, eventType, listener, tag), eventType, listener, tag')
         == AfterOn(ls, eventType, listener, tag)
  {
    var entries := if eventType in ls then ls[eventType] else [];
    var once := AfterOn(ls, eventType, listener, tag);
    if FirstMatch(entries, ByListener(listener)) == -1 {
      var grown := entries + [Entry(tag, listener)];
      assert grown[|entries|].listener == listener;
      assert FirstMatch(once[eventType], ByListener(listener)) != -1;
    }
  }

  /** `off` reports true exactly when the type has a matching entry; when it reports
      false the registry is unchanged, and other types are never touched. */
  lemma OffSpec(ls: Registry, eventType: string, h: Handle)
    ensures var (ls', removed) := AfterOff(ls, eventType, h);
      && (eventType !in ls ==> !removed && ls' == ls)
      && (removed <==> eventType in ls && exists i :: 0 <= i < |ls[eventType]| && Matches(ls[eventType][i], h))
      && (!removed ==> ls' == ls)
      && (forall t :: t != eventType ==> (t in ls' <==> t in ls) && (t in ls ==> ls'[t] == ls[t]))
  {
  }

  /** When `off` reports true it has removed exactly the first matching entry, and the
      others keep their order. */
  lemma OffRemovesFirst(ls: Registry, eventType: string, h: Handle)
    requires AfterOff(ls, eventType, h).1
    ensures var ls' := AfterOff(ls, eventType, h).0;
      var entries := ls[eventType];
      var k := FirstMatch(entries, h);
      && eventType in ls' && 0 <= k
      && multiset(ls'[eventType]) == multiset(entries) - multiset{entries[k]}
      && |ls'[eventType]| == |entries| - 1
      && (forall i :: 0 <= i < k ==> ls'[eventType][i] == entries[i])
      && (forall i :: k <= i < |ls'[eventType]| ==> ls'[eventType][i] == entries[i + 1])
  {
    var entries := ls[eventType];
    var k := FirstMatch(entries, h);
    assert AfterOff(ls, eventType, h).0 == ls[eventType := entries[..k] + entries[k + 1..]];
    SpliceOut(entries, k);
  }

  /** Splicing out position `k` removes one instance of that entry and shifts the
      rest down by one. */
  lemma SpliceOut(entries: seq<Entry>, k: nat)
    requires k < |entries|
    ensures var r := entries[..k] + entries[k + 1..];
      && multiset(r) == multiset(entries) - multiset{entries[k]}
      && |r| == |entries| - 1
      && (forall i :: 0 <= i < k ==> r[i] == entries[i])
      && (forall i :: k <= i < |r| ==> r[i] == entries[i + 1])
  {
    assert entries == entries[..k] + [entries[k]] + entries[k + 1..];
    assert multiset(entries) == multiset(entries[..k]) + multiset{entries[k]} + multiset(entries[k + 1..]);
  }

  /** Registering a new listener and then removing it by its function restores the
      listeners of that type. */
  lemma OffUndoesOn(ls: Registry, eventType: string, listener: ListenerId, tag: Option<string>)
    requires eventType in ls
    requires forall i :: 0 <= i < |ls[eventType]| ==> ls[eventType][i].listener != listener
    ensures AfterOff(AfterOn(ls, eventType, listener, tag), eventType, ByListener(listener)) == (ls, true)
  {
    var entries := ls[eventType];
    var grown := entries + [Entry(tag, listener)];
    assert FirstMatch(entries, ByListener(listener)) == -1;
    assert Matches(grown[|entries|], ByListener(listener));
    assert forall i :: 0 <= i < |entries| ==> grown[i] == entries[i];
    assert FirstMatch(grown, ByListener(listener)) == |entries|;
    var on := AfterOn(ls, eventType, listener, tag);
    assert on == ls[eventType := grown];
    assert grown[..|entries|] + grown[|entries| + 1..] == entries;
    assert AfterOff(on, eventType, ByListener(listener)) == (on[eventType := entries], true);
    assert on[eventType := entries] == ls;
  }

  class EventManager {
    var listeners: Registry

    constructor()
      ensures listeners == map[]
    {
      listeners := map[];
    }

    method On(eventType: string, listener: ListenerId, tag: Option<string>)
      modifies this
      ensures listeners == AfterOn(old(listeners), eventType, listener, tag)
    {
      if eventType !in listeners {
        listeners := listeners[eventType := []];
      }
      var entries := listeners[eventType];
      if FirstMatch(entries, ByListener(listener)) != -1 {
        return;
      }
      listeners := listeners[eventType := entries + [Entry(tag, listener)]];
    }

    method Off(eventType: string, h: Handle) returns (removed: bool)
      modifies this
      ensures (listeners, removed) == AfterOff(old(listeners), eventType, h)
    {
      if eventType !in listeners {
        return false;
      }
      var entries := listeners[eventType];
      var index := FirstMatch(entries, h);
      if index != -1 {
        listeners := listeners[eventType := entries[..index] + entries[index + 1..]];
        return true;
      }
      return false;
    }

    /** `emit(eventType)`: the listeners are called one after another, in registration
        order; the registry is not changed. */
    method Emit(eventType: string) returns (invoked: seq<ListenerId>)
      ensures invoked == Invoked(listeners, eventType)
    {
      if eventType !in listeners {
        return [];
      }
      var entries := listeners[eventType];
      invoked := [];
      var i := 0;
      while i < |entries|
        invariant 0 <= i <= |entries|
        invariant |invoked| == i
        invariant forall k :: 0 <= k < i ==> invoked[k] == entries[k].listener
      {
        invoked := invoked + [entries[i].listener];
        i := i + 1;
      }
    }
  }
}

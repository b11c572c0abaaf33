/** The game's event system: a directory from unique event names to event
    objects, each event holding an unordered set of listener callbacks that
    firing the event calls in turn. Memory addresses are abstracted to
    identities: an event object is an `EventId`, a callback is its function
    pointer. Allocation results are oracle arguments; logging is not
    observable. */
module Events {
  import opened Base
  import Vector
  import opened Resources

  type GameId = nat

  /** The address of an event object. */
  type EventId = nat

  /** A listener callback, identified by its (non-NULL) function pointer. */
  type Callback = nat

  /** The opaque `data` pointer passed when an event is fired. */
  type Payload = nat

  /** An event object: its own copy of the name, the game it belongs to,
      and the vector of listeners. */
  datatype Event = Event(name: CString, game: GameId, listeners: Vector.Vec<Callback>)

  /** A game's event system: the directory and the event objects it owns,
      by address. */
  datatype System = System(game: GameId, directory: map<CString, EventId>, live: map<EventId, Event>)

  /** What event_register allocates: the event object and its name copy. */
  datatype Allocation = EventObject | NameCopy

  /** An event object the system can hold: it belongs to the game and its
      listener vector holds no callback twice. */
  predicate ValidEvent(e: Event, game: GameId)
  {
    e.game == game && e.listeners.Valid() && NoDuplicates(e.listeners.items)
  }

  /** The directory and the live event objects correspond one to one, each
      event being filed under its own name. */
  predicate Valid(s: System)
  {
    && (forall n :: n in s.directory ==>
          s.directory[n] in s.live && s.live[s.directory[n]].name == n)
    && (forall id :: id in s.live ==>
          s.live[id].name in s.directory && s.directory[s.live[id].name] == id)
    && (forall id :: id in s.live ==> ValidEvent(s.live[id], s.game))
  }

  /** event_system_create: initialise an empty directory; it always
      succeeds. */
  function SystemCreate(game: GameId): (r: (bool, System))
    ensures r.0 && Valid(r.1) && r.1.game == game
    ensures forall n :: Get(r.1, n) == None
  {
    (true, System(game, map[], map[]))
  }

  /** event_get: the event filed under `name`, or `None`. */
  function Get(s: System, name: CString): (r: Option<EventId>)
    ensures r.Some? <==> name in s.directory
    ensures Valid(s) && r.Some? ==> r.value in s.live && s.live[r.value].name == name
  {
    if name in s.directory then Some(s.directory[name]) else None
  }

  /** The outcome of event_register: the new event (NULL on failure), the
      system afterwards, and the allocations and frees it performed. */
  datatype Registered = Registered(event: Option<EventId>, system: System, trace: seq<Action<Allocation>>)

  /** event_register. `record` is what the allocation of the event object
      returns, `nameCopied` whether copying the name succeeds, `insertOk`
      whether the directory can allocate its node. The directory refuses a
      name it already holds. Each failure frees what was allocated before
      it, in reverse. */
  function Register(s: System, name: CString, record: Option<EventId>, nameCopied: bool, insertOk: bool): (r: Registered)
    requires Valid(s)
    requires record.Some? ==> record.value !in s.live
    ensures Valid(r.system)
    ensures r.event.Some? <==> record.Some? && nameCopied && insertOk && name !in s.directory
    ensures r.event.None? ==> r.system == s && Balanced(r.trace)
    ensures r.event.Some? ==> r.event == record && r.system.game == s.game
    ensures r.event.Some? ==> Get(r.system, name) == r.event
    ensures r.event.Some? ==> r.system.live[r.event.value] == Event(name, s.game, Vector.Init())
    ensures r.event.Some? ==> forall n :: n != name ==> Get(r.system, n) == Get(s, n)
    ensures r.event.Some? ==> forall id :: id in s.live ==> id in r.system.live && r.system.live[id] == s.live[id]
    ensures r.event.Some? ==> Outstanding(r.trace) == Some([EventObject, NameCopy])
  {
    if record.None? then
      RollbackIsBalanced<Allocation>([]);
      Registered(None, s, Acquires<Allocation>([]) + ReleasesInReverse<Allocation>([]))
    else if !nameCopied then
      RollbackIsBalanced([EventObject]);
      Registered(None, s, Acquires([EventObject]) + ReleasesInReverse([EventObject]))
    else if !insertOk || name in s.directory then
      RollbackIsBalanced([EventObject, NameCopy]);
      Registered(None, s, Acquires([EventObject, NameCopy]) + ReleasesInReverse([EventObject, NameCopy]))
    else
      var id := record.value;
      var e := Event(name, s.game, Vector.Init());
      ReplayAcquires([], [EventObject, NameCopy]);
      assert [] + [EventObject, NameCopy] == [EventObject, NameCopy];
      Registered(Some(id), s.(directory := s.directory[name := id], live := s.live[id := e]),
                 Acquires([EventObject, NameCopy]))
  }

  /** event_unregister: remove the event from its game's directory and free
      it. An event the directory does not hold is left alone (the source
      logs an error); the flag says which case happened. */
  function Unregister(s: System, id: EventId): (r: (bool, System))
    requires Valid(s)
    ensures Valid(r.1) && r.1.game == s.game
    ensures r.0 <==> id in s.live
    ensures !r.0 ==> r.1 == s
    ensures r.0 ==> id !in r.1.live && Get(r.1, s.live[id].name) == None
    ensures r.0 ==> forall n :: n != s.live[id].name ==> Get(r.1, n) == Get(s, n)
    ensures forall other :: other in s.live && other != id ==> other in r.1.live && r.1.live[other] == s.live[other]
  {
    if id in s.live then
      (true, s.(directory := s.directory - {s.live[id].name}, live := s.live - {id}))
    else (false, s)
  }

  /** event_system_destroy: free every event object (with its name and its
      listeners), then clear the directory. Returns the events freed. */
  function SystemDestroy(s: System): (r: (set<EventId>, System))
    requires Valid(s)
    ensures Valid(r.1) && r.1.game == s.game
    ensures forall n :: Get(r.1, n) == None
    ensures forall n :: n in s.directory ==> Get(s, n).value in r.0
    ensures forall id :: id in r.0 ==> id in s.live
  {
    (s.live.Keys, System(s.game, map[], map[]))
  }

  /** The system with the listener vector of event `id` replaced. */
  function WithListeners(s: System, id: EventId, v: Vector.Vec<Callback>): (r: System)
    requires Valid(s) && id in s.live
    requires v.Valid() && NoDuplicates(v.items)
    ensures Valid(r) && r.game == s.game && r.directory == s.directory
    ensures r.live.Keys == s.live.Keys && r.live[id].listeners == v
    ensures r.live[id].name == s.live[id].name
    ensures forall other :: other in s.live && other != id ==> r.live[other] == s.live[other]
  {
    s.(live := s.live[id := s.live[id].(listeners := v)])
  }

  /** event_register_listener: refuse (0) a callback the event already
      has; otherwise append it (1). The listener vector's growth is assumed
      to succeed. */
  function RegisterListener(s: System, id: EventId, callback: Callback): (r: (bool, System))
    requires Valid(s) && id in s.live
    ensures Valid(r.1) && r.1.directory == s.directory && r.1.live.Keys == s.live.Keys
    ensures r.0 <==> callback !in s.live[id].listeners.items
    ensures !r.0 ==> r.1 == s
    ensures r.0 ==> r.1.live[id].listeners.items == s.live[id].listeners.items + [callback]
    ensures forall other :: other in s.live && other != id ==> r.1.live[other] == s.live[other]
  {
    var v := s.live[id].listeners;
    if callback in v.items then (false, s)
    else
      var pushed := Vector.Push(v, callback, true).0;
      AppendFreshKeepsNoDuplicates(v.items, callback);
      (true, WithListeners(s, id, pushed))
  }

  /** The position of `x` in `xs`, searching from the front. */
  function Find<T(==)>(xs: seq<T>, x: T): (r: Option<nat>)
    ensures r.Some? <==> x in xs
    ensures r.Some? ==> r.value < |xs| && xs[r.value] == x && x !in xs[..r.value]
  {
    if xs == [] then None
    else if xs[0] == x then Some(0)
    else match Find(xs[1..], x)
      case None => None
      case Some(i) =>
        assert xs[..i + 1] == [xs[0]] + xs[1..][..i];
        Some(i + 1)
  }

  /** event_unregister_listener: erase the callback, moving the last
      listener into its place, and return 1; return 0 when it is not
      registered. */
  function UnregisterListener(s: System, id: EventId, callback: Callback): (r: (bool, System))
    requires Valid(s) && id in s.live
    ensures Valid(r.1) && r.1.directory == s.directory && r.1.live.Keys == s.live.Keys
    ensures r.0 <==> callback in s.live[id].listeners.items
    ensures !r.0 ==> r.1 == s
    ensures r.0 ==> callback !in r.1.live[id].listeners.items
    ensures r.0 ==> multiset(r.1.live[id].listeners.items) ==
                    multiset(s.live[id].listeners.items) - multiset{callback}
    ensures r.0 ==> r.1.live[id].listeners ==
                    Vector.EraseUnordered(s.live[id].listeners, Find(s.live[id].listeners.items, callback).value)
    ensures forall other :: other in s.live && other != id ==> r.1.live[other] == s.live[other]
  {
    var v := s.live[id].listeners;
    match Find(v.items, callback)
    case None => (false, s)
    case Some(i) =>
      var erased := Vector.EraseUnordered(v, i);
      Vector.EraseUnorderedIsRemoval(v, i);
      EraseUnorderedKeepsNoDuplicates(v, i);
      RemovedUnique(v.items, erased.items, callback);
      (true, WithListeners(s, id, erased))
  }

  /** event_unregister_all_listeners: empty the listener vector and free
      its storage. */
  function UnregisterAllListeners(s: System, id: EventId): (r: System)
    requires Valid(s) && id in s.live
    ensures Valid(r) && r.directory == s.directory && r.live.Keys == s.live.Keys
    ensures r.live[id].listeners.items == [] && r.live[id].listeners.capacity == 0
    ensures forall other :: other in s.live && other != id ==> r.live[other] == s.live[other]
  {
    WithListeners(s, id, Vector.ClearFree(s.live[id].listeners))
  }

  /** One callback invocation made by event_fire. */
  datatype Call = Call(callback: Callback, event: EventId, data: Payload)

  /** event_fire: walk the listener vector front to back, calling each
      callback with the event and the payload. The calls, in order. */
  function Fire(listeners: seq<Callback>, event: EventId, data: Payload): (calls: seq<Call>)
    ensures |calls| == |listeners|
    ensures forall i :: 0 <= i < |listeners| ==> calls[i] == Call(listeners[i], event, data)
  {
    if listeners == [] then []
    else Fire(listeners[..|listeners| - 1], event, data) + [Call(listeners[|listeners| - 1], event, data)]
  }

  /** Firing calls every current listener exactly once and nothing else. */
  lemma FireCallsEachListenerOnce(listeners: seq<Callback>, event: EventId, data: Payload, callback: Callback)
    requires NoDuplicates(listeners)
    ensures Count(Fire(listeners, event, data), Call(callback, event, data)) ==
            if callback in listeners then 1 else 0
  {
    var calls := Fire(listeners, event, data);
    assert NoDuplicates(calls);
    CountNoDuplicates(calls, Call(callback, event, data));
    if callback in listeners {
      var i :| 0 <= i < |listeners| && listeners[i] == callback;
      assert calls[i] == Call(callback, event, data);
    }
  }

  /** Appending an element not yet present keeps a sequence duplicate-free. */
  lemma AppendFreshKeepsNoDuplicates<T>(xs: seq<T>, x: T)
    requires NoDuplicates(xs) && x !in xs
    ensures NoDuplicates(xs + [x])
  {
  }

  /** The unordered erase keeps a vector duplicate-free. */
  lemma EraseUnorderedKeepsNoDuplicates<T>(v: Vector.Vec<T>, index: nat)
    requires v.Valid() && index < |v.items| && NoDuplicates(v.items)
    ensures NoDuplicates(Vector.EraseUnordered(v, index).items)
  {
    var r := Vector.EraseUnordered(v, index).items;
    var last := |v.items| - 1;
    forall i, j | 0 <= i < j < |r|
      ensures r[i] != r[j]
    {
      var i' := if i == index then last else i;
      var j' := if j == index then last else j;
      assert r[i] == v.items[i'] && r[j] == v.items[j'] && i' != j';
    }
  }

  /** Taking one occurrence of an element that occurred once removes it. */
  lemma RemovedUnique<T>(before: seq<T>, after: seq<T>, x: T)
    requires NoDuplicates(before) && x in before
    requires multiset(after) == multiset(before) - multiset{x}
    ensures x !in after
  {
    CountNoDuplicates(before, x);
    MultisetCount(before, x);
  }

  /** The multiplicity of `x` in the multiset of a sequence is its count. */
  lemma {:induction false} MultisetCount<T>(s: seq<T>, x: T)
    ensures multiset(s)[x] == Count(s, x)
  {
    if s != [] {
      var init := s[..|s| - 1];
      assert s == init + [s[|s| - 1]];
      MultisetCount(init, x);
    }
  }

  /** Unregistering a freshly registered event restores the system. */
  lemma RegisterThenUnregister(s: System, name: CString, record: Option<EventId>, nameCopied: bool, insertOk: bool)
    requires Valid(s)
    requires record.Some? ==> record.value !in s.live
    requires Register(s, name, record, nameCopied, insertOk).event.Some?
    ensures Unregister(Register(s, name, record, nameCopied, insertOk).system, record.value) == (true, s)
  {
    var r := Register(s, name, record, nameCopied, insertOk);
    var id := record.value;
    assert r.system.directory - {name} == s.directory;
    assert r.system.live - {id} == s.live;
  }

  /** Unregistering a listener just registered restores the listeners:
      the new listener is the last element, so nothing is moved. Only the
      vector's grown allocation remains. */
  lemma RegisterThenUnregisterListener(s: System, id: EventId, callback: Callback)
    requires Valid(s) && id in s.live
    requires RegisterListener(s, id, callback).0
    ensures var u := UnregisterListener(RegisterListener(s, id, callback).1, id, callback);
      && u.0 && u.1.directory == s.directory && u.1.live.Keys == s.live.Keys
      && u.1.live[id].listeners.items == s.live[id].listeners.items
      && forall other :: other in s.live && other != id ==> u.1.live[other] == s.live[other]
  {
    var v := s.live[id].listeners;
    var s1 := RegisterListener(s, id, callback).1;
    var w := s1.live[id].listeners;
    assert w.items == v.items + [callback];
    assert Find(w.items, callback) == Some(|v.items|) by {
      assert w.items[|v.items|] == callback;
    }
    assert Vector.EraseUnordered(w, |v.items|).items == v.items;
  }

  /** The register/unregister scenario: two events are filed under their
      names and each disappears from the directory when unregistered. */
  lemma RegisterAndUnregisterEventsScenario()
    ensures
      var s0 := SystemCreate(7).1;
      var r1 := Register(s0, "evt1", Some(1), true, true);
      var r2 := Register(r1.system, "evt2", Some(2), true, true);
      var u1 := Unregister(r2.system, 1);
      var u2 := Unregister(u1.1, 2);
      && r1.event == Some(1) && Get(r1.system, "evt1") == Some(1) && Get(r1.system, "shit") == None
      && r2.event == Some(2) && Get(r2.system, "evt2") == Some(2)
      && u1.0 && Get(u1.1, "evt1") == None && Get(u1.1, "evt2") == Some(2)
      && u2.0 && Get(u2.1, "evt1") == None && Get(u2.1, "evt2") == None
  {
  }

  /** A second registration under a name already in use fails and changes
      nothing; a second unregister of the same event finds it no longer
      live and takes the not-owned path. */
  lemma DuplicateNameAndDoubleUnregister()
    ensures
      var s0 := SystemCreate(7).1;
      var r1 := Register(s0, "evt1", Some(1), true, true);
      var r2 := Register(r1.system, "evt1", Some(2), true, true);
      var u1 := Unregister(r1.system, 1);
      && r2.event == None && r2.system == r1.system
      && u1.0 && !Unregister(u1.1, 1).0
  {
  }

  /** An event with listeners 10 and 20 registered in that order. */
  function TwoListeners(): (s: System)
    ensures Valid(s) && 1 in s.live && s.live[1].listeners.items == [10, 20]
  {
    var s0 := Register(SystemCreate(7).1, "event", Some(1), true, true).system;
    RegisterListener(RegisterListener(s0, 1, 10).1, 1, 20).1
  }

  /** The same event after listener 30 is registered too. */
  function ThreeListeners(): (s: System)
    ensures Valid(s) && 1 in s.live && s.live[1].listeners.items == [10, 20, 30]
  {
    var s := TwoListeners();
    assert 30 !in s.live[1].listeners.items;
    RegisterListener(s, 1, 30).1
  }

  /** The firing scenario: with two listeners both are called once, in
      registration order; after the first is unregistered only the second
      is. */
  lemma FireScenario()
    ensures Fire(TwoListeners().live[1].listeners.items, 1, 0) == [Call(10, 1, 0), Call(20, 1, 0)]
    ensures Fire(UnregisterListener(TwoListeners(), 1, 10).1.live[1].listeners.items, 1, 0) == [Call(20, 1, 0)]
  {
    assert Find([10, 20], 10) == Some(0);
  }

  /** With three listeners (ThreeListeners builds such a system),
      unregistering the first moves the last into its place, so firing no
      longer follows registration order. */
  lemma FireOrderAfterRemoval(s: System)
    requires Valid(s) && 1 in s.live && s.live[1].listeners.items == [10, 20, 30]
    ensures Fire(UnregisterListener(s, 1, 10).1.live[1].listeners.items, 1, 0) ==
            [Call(30, 1, 0), Call(20, 1, 0)]
  {
    var v := s.live[1].listeners;
    assert Find(v.items, 10) == Some(0);
    var erased := Vector.EraseUnordered(v, 0);
    assert erased.items == [30, 20];
    assert UnregisterListener(s, 1, 10).1.live[1].listeners == erased;
  }
}

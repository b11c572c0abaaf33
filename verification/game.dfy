/** The game object's lifecycle: game_create acquires the game record, a
    copy of its name, the event system and the renderer in that order,
    jumping on a failure to a chain of labels that releases what was
    acquired in reverse; game_destroy releases all four in reverse. The
    allocator and renderer_create are oracles. */
module Lifecycle {
  import opened Base
  import opened Resources
  import Events

  /** The four parts of a game, in the order game_create acquires them. */
  datatype Part = GameRecord | NameCopy | EventSystem | Renderer

  const Parts: seq<Part> := [GameRecord, NameCopy, EventSystem, Renderer]

  /** The renderer handle renderer_create returns. */
  type RendererId = nat

  datatype Game = Game(id: Events.GameId, name: CString, events: Events.System, renderer: RendererId)

  /** The number of steps that succeed before the first failure. */
  function FirstFailure(ok: seq<bool>): (k: nat)
    ensures k <= |ok|
    ensures forall i :: 0 <= i < k ==> ok[i]
    ensures k < |ok| ==> !ok[k]
  {
    if ok == [] || !ok[0] then 0 else 1 + FirstFailure(ok[1..])
  }

  /** A goto chain: acquire `parts` one after another while `ok` says the
      step succeeds; at the first failure release what was acquired, the
      most recent first. */
  function Chain<R>(parts: seq<R>, ok: seq<bool>): (r: (bool, seq<Action<R>>))
    requires |ok| == |parts|
    ensures r.0 <==> forall i :: 0 <= i < |ok| ==> ok[i]
    ensures r.0 ==> Outstanding(r.1) == Some(parts)
    ensures !r.0 ==> Balanced(r.1)
    ensures !r.0 ==> forall a :: a in r.1 ==> a.resource in parts[..FirstFailure(ok)]
  {
    var k := FirstFailure(ok);
    if k == |ok| then
      ReplayAcquires([], parts);
      assert [] + parts == parts;
      (true, Acquires(parts))
    else
      var done := parts[..k];
      RollbackIsBalanced(done);
      var t := Acquires(done) + ReleasesInReverse(done);
      assert forall a :: a in t ==> a.resource in done by {
        forall a | a in t
          ensures a.resource in done
        {
          var j :| 0 <= j < |t| && t[j] == a;
          if j >= |done| {
            assert t[j] == ReleasesInReverse(done)[j - |done|];
          }
        }
      }
      (false, t)
  }

  /** game_create. `record` is the allocation of the game record (its
      address, or `None`), `nameCopied` whether malloc_string succeeds and
      `renderer` what renderer_create returns. event_system_create always
      succeeds, so its failure label is never reached. */
  function Create(name: CString, record: Option<Events.GameId>, nameCopied: bool,
                  renderer: Option<RendererId>): (r: (Option<Game>, seq<Action<Part>>))
    ensures r.0.Some? <==> record.Some? && nameCopied && renderer.Some?
    ensures r.0.Some? ==> Outstanding(r.1) == Some(Parts)
    ensures r.0.Some? ==> r.0.value.name == name && r.0.value.renderer == renderer.value
    ensures r.0.Some? ==> Events.Valid(r.0.value.events) && r.0.value.events.game == r.0.value.id
    ensures r.0.Some? ==> forall n :: Events.Get(r.0.value.events, n).None?
    ensures r.0.None? ==> Balanced(r.1)
    ensures !nameCopied ==> Acquire(EventSystem) !in r.1 && Acquire(Renderer) !in r.1
  {
    var id := if record.Some? then record.value else 0;
    var system := Events.SystemCreate(id);
    var steps := [record.Some?, nameCopied, system.0, renderer.Some?];
    var chain := Chain(Parts, steps);
    if chain.0 then
      assert steps[3];
      (Some(Game(id, name, system.1, renderer.value)), chain.1)
    else
      assert !nameCopied ==> FirstFailure(steps) <= 1 && Parts[..FirstFailure(steps)] <= [GameRecord];
      (None, chain.1)
  }

  /** game_destroy: release the renderer, the event system (freeing every
      event), the name and the game record. Returns the releases and the
      events freed. */
  function Destroy(g: Game): (r: (seq<Action<Part>>, set<Events.EventId>))
    requires Events.Valid(g.events)
    ensures r.0 == ReleasesInReverse(Parts)
    ensures r.1 == Events.SystemDestroy(g.events).0
  {
    ([Release(Renderer), Release(EventSystem), Release(NameCopy), Release(GameRecord)],
     Events.SystemDestroy(g.events).0)
  }

  /** Destroying a created game releases everything creation acquired, in
      the reverse order. */
  lemma CreateThenDestroyIsBalanced(name: CString, record: Option<Events.GameId>, nameCopied: bool,
                                    renderer: Option<RendererId>)
    requires Create(name, record, nameCopied, renderer).0.Some?
    ensures var c := Create(name, record, nameCopied, renderer);
      Balanced(c.1 + Destroy(c.0.value).0)
  {
    var c := Create(name, record, nameCopied, renderer);
    ReplayAppend([], c.1, Destroy(c.0.value).0);
    ReplayReleases([], Parts);
    assert [] + Parts == Parts;
  }

  /** A renderer failure releases the event system, the name and the game
      record, in that order, after acquiring the first three parts. */
  lemma RendererFailureRollsBack(name: CString, record: Events.GameId)
    ensures Create(name, Some(record), true, None) ==
      (None, [Acquire(GameRecord), Acquire(NameCopy), Acquire(EventSystem),
              Release(EventSystem), Release(NameCopy), Release(GameRecord)])
  {
    var steps := [true, true, true, false];
    assert FirstFailure(steps) == 3 by {
      assert steps[1..] == [true, true, false];
      assert steps[1..][1..] == [true, false];
      assert steps[1..][1..][1..] == [false];
    }
    var done := [GameRecord, NameCopy, EventSystem];
    assert Events.SystemCreate(record).0;
    assert Parts[..3] == done;
    assert Chain(Parts, steps).1 == Acquires(done) + ReleasesInReverse(done);
    assert Acquires(done) == [Acquire(GameRecord), Acquire(NameCopy), Acquire(EventSystem)];
    assert ReleasesInReverse(done) == [Release(EventSystem), Release(NameCopy), Release(GameRecord)];
    assert !Chain(Parts, steps).0;
    assert Create(name, Some(record), true, None) == (None, Chain(Parts, steps).1);
    assert Acquires(done) + ReleasesInReverse(done) ==
      [Acquire(GameRecord), Acquire(NameCopy), Acquire(EventSystem),
       Release(EventSystem), Release(NameCopy), Release(GameRecord)];
  }

  /** A failed name copy frees the game record alone. */
  lemma NameFailureFreesRecordOnly(name: CString, record: Events.GameId, renderer: Option<RendererId>)
    ensures Create(name, Some(record), false, renderer) ==
      (None, [Acquire(GameRecord), Release(GameRecord)])
  {
    var steps := [true, false, true, renderer.Some?];
    assert FirstFailure(steps) == 1 by {
      assert steps[1..][0] == false;
    }
    var done := [GameRecord];
    assert Events.SystemCreate(record).0;
    assert Parts[..1] == done;
    assert Chain(Parts, steps).1 == Acquires(done) + ReleasesInReverse(done);
    assert Acquires(done) == [Acquire(GameRecord)];
    assert ReleasesInReverse(done) == [Release(GameRecord)];
    assert !Chain(Parts, steps).0;
    assert Create(name, Some(record), false, renderer) == (None, Chain(Parts, steps).1);
    assert Acquires(done) + ReleasesInReverse(done) == [Acquire(GameRecord), Release(GameRecord)];
  }
}

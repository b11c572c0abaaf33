/** Acquisition and release of resources, recorded as a trace of actions.
    The engine's create functions acquire resources one after another and,
    on a failure, jump to labels that release what was acquired in reverse;
    replaying such a trace on a stack says what is still held at its end,
    and whether anything was released out of order. */
module Resources {
  import opened Base

  datatype Action<R> = Acquire(resource: R) | Release(resource: R)

  /** Replay `trace` on the stack `held` (most recent acquisition last):
      an acquisition pushes, a release must pop the most recent resource
      still held. `None` means some release broke that discipline. */
  function Replay<R(==)>(held: seq<R>, trace: seq<Action<R>>): Option<seq<R>>
    decreases |trace|
  {
    if trace == [] then Some(held)
    else match trace[0]
      case Acquire(r) => Replay(held + [r], trace[1..])
      case Release(r) =>
        if held != [] && held[|held| - 1] == r then Replay(held[..|held| - 1], trace[1..])
        else None
  }

  /** Resources acquired and not yet released after `trace`, starting from
      nothing; `None` when the trace releases out of order. */
  function Outstanding<R(==)>(trace: seq<Action<R>>): Option<seq<R>>
  {
    Replay([], trace)
  }

  /** Everything acquired is released again, each in reverse order of
      acquisition. */
  predicate Balanced<R(==)>(trace: seq<Action<R>>)
  {
    Outstanding(trace) == Some([])
  }

  /** Acquiring each of `rs` in turn. */
  function Acquires<R>(rs: seq<R>): (t: seq<Action<R>>)
    ensures |t| == |rs|
    ensures forall i :: 0 <= i < |rs| ==> t[i] == Acquire(rs[i])
  {
    seq(|rs|, i requires 0 <= i < |rs| => Acquire(rs[i]))
  }

  /** Releasing each of `rs` in the reverse of their order. */
  function ReleasesInReverse<R>(rs: seq<R>): (t: seq<Action<R>>)
    ensures |t| == |rs|
    ensures forall i :: 0 <= i < |rs| ==> t[i] == Release(rs[|rs| - 1 - i])
  {
    seq(|rs|, i requires 0 <= i < |rs| => Release(rs[|rs| - 1 - i]))
  }

  /** Replaying a concatenation is replaying its second part from where the
      first left off. */
  lemma {:induction false} ReplayAppend<R>(held: seq<R>, a: seq<Action<R>>, b: seq<Action<R>>)
    ensures Replay(held, a + b) ==
      (match Replay(held, a) case None => None case Some(h) => Replay(h, b))
    decreases |a|
  {
    if a == [] {
      assert a + b == b;
    } else {
      assert (a + b)[0] == a[0] && (a + b)[1..] == a[1..] + b;
      match a[0]
      case Acquire(r) => ReplayAppend(held + [r], a[1..], b);
      case Release(r) =>
        if held != [] && held[|held| - 1] == r {
          ReplayAppend(held[..|held| - 1], a[1..], b);
        }
    }
  }

  /** Acquiring `rs` pushes them on top of what is held. */
  lemma {:induction false} ReplayAcquires<R>(held: seq<R>, rs: seq<R>)
    ensures Replay(held, Acquires(rs)) == Some(held + rs)
    decreases |rs|
  {
    if rs == [] {
      assert held + rs == held;
    } else {
      assert Acquires(rs)[1..] == Acquires(rs[1..]);
      ReplayAcquires(held + [rs[0]], rs[1..]);
      assert held + [rs[0]] + rs[1..] == held + rs;
    }
  }

  /** Releasing `rs` in reverse pops exactly them off the top of the stack. */
  lemma {:induction false} ReplayReleases<R>(held: seq<R>, rs: seq<R>)
    ensures Replay(held + rs, ReleasesInReverse(rs)) == Some(held)
    decreases |rs|
  {
    if rs == [] {
      assert held + rs == held;
    } else {
      var last := |rs| - 1;
      var t := ReleasesInReverse(rs);
      assert t[0] == Release(rs[last]);
      assert t[1..] == ReleasesInReverse(rs[..last]);
      assert (held + rs)[..|held + rs| - 1] == held + rs[..last];
      ReplayReleases(held, rs[..last]);
    }
  }

  /** The rollback pattern: acquiring resources and then releasing them in
      exact reverse leaves nothing held. */
  lemma RollbackIsBalanced<R>(rs: seq<R>)
    ensures Balanced(Acquires(rs) + ReleasesInReverse(rs))
  {
    ReplayAppend([], Acquires(rs), ReleasesInReverse(rs));
    ReplayAcquires([], rs);
    assert [] + rs == rs;
    ReplayReleases([], rs);
  }

  /** Releasing in the order of acquisition is out of order as soon as two
      resources are involved. */
  lemma ReleaseInSameOrderFails<R>(a: R, b: R)
    requires a != b
    ensures Outstanding([Acquire(a), Acquire(b), Release(a), Release(b)]) == None
  {
    var t := [Acquire(a), Acquire(b), Release(a), Release(b)];
    assert t[1..] == [Acquire(b), Release(a), Release(b)];
    assert t[1..][1..] == [Release(a), Release(b)];
    assert [] + [a] == [a];
    assert Replay([], t) == Replay([a], t[1..]);
    assert [a] + [b] == [a, b];
    assert Replay([a], t[1..]) == Replay([a, b], t[1..][1..]);
  }

  /** Every resource the trace acquires, with multiplicity. */
  function Acquired<R>(trace: seq<Action<R>>): multiset<R>
  {
    if trace == [] then multiset{}
    else
      var last := trace[|trace| - 1];
      Acquired(trace[..|trace| - 1]) + (if last.Acquire? then multiset{last.resource} else multiset{})
  }

  /** Every resource the trace releases, with multiplicity. */
  function Released<R>(trace: seq<Action<R>>): multiset<R>
  {
    if trace == [] then multiset{}
    else
      var last := trace[|trace| - 1];
      Released(trace[..|trace| - 1]) + (if last.Release? then multiset{last.resource} else multiset{})
  }

  /** What the trace acquires and never releases, whatever the order. */
  function Leaked<R>(trace: seq<Action<R>>): multiset<R>
  {
    Acquired(trace) - Released(trace)
  }

  /** Both counts distribute over concatenation. */
  lemma {:induction false} CountsAppend<R>(a: seq<Action<R>>, b: seq<Action<R>>)
    ensures Acquired(a + b) == Acquired(a) + Acquired(b)
    ensures Released(a + b) == Released(a) + Released(b)
    decreases |b|
  {
    if b == [] {
      assert a + b == a;
    } else {
      var b' := b[..|b| - 1];
      assert (a + b)[..|a + b| - 1] == a + b';
      CountsAppend(a, b');
    }
  }

  /** A counted replay: whatever `trace` acquires on top of `held` is
      either released by it or still held at its end. */
  lemma {:induction false} ReplayCounts<R>(held: seq<R>, trace: seq<Action<R>>)
    requires Replay(held, trace).Some?
    ensures multiset(held) + Acquired(trace) == multiset(Replay(held, trace).value) + Released(trace)
    decreases |trace|
  {
    if trace != [] {
      var x, rest := trace[0], trace[1..];
      var next := ReplayStep(held, trace);
      ReplayCounts(next, rest);
      assert trace == [x] + rest;
      CountsAppend([x], rest);
      var last := multiset(Replay(held, trace).value);
      calc {
        multiset(held) + Acquired(trace);
        (multiset(held) + Acquired([x])) + Acquired(rest);
        (multiset(next) + Released([x])) + Acquired(rest);
        (multiset(next) + Acquired(rest)) + Released([x]);
        (last + Released(rest)) + Released([x]);
        last + Released(trace);
      }
    }
  }

  /** One action of a replay that keeps the discipline: the stack it
      leaves, and the counts of that action. */
  lemma ReplayStep<R>(held: seq<R>, trace: seq<Action<R>>) returns (next: seq<R>)
    requires trace != [] && Replay(held, trace).Some?
    ensures Replay(held, trace) == Replay(next, trace[1..])
    ensures multiset(held) + Acquired([trace[0]]) == multiset(next) + Released([trace[0]])
  {
    CountsSingle(trace[0]);
    match trace[0]
    case Acquire(r) =>
      next := held + [r];
    case Release(r) =>
      next := held[..|held| - 1];
      assert held == next + [r];
  }

  /** A balanced trace releases exactly what it acquires. */
  lemma BalancedReleasesAll<R>(trace: seq<Action<R>>)
    requires Balanced(trace)
    ensures Acquired(trace) == Released(trace) && Leaked(trace) == multiset{}
  {
    var none: seq<R> := [];
    assert Replay(none, trace).value == none;
    ReplayCounts(none, trace);
    assert multiset(none) == multiset{};
    assert multiset(none) + Acquired(trace) == Acquired(trace);
    assert multiset(Replay(none, trace).value) + Released(trace) == Released(trace);
    assert Leaked(trace) == multiset{};
  }

  /** The counts of a one-action trace. */
  lemma CountsSingle<R>(x: Action<R>)
    ensures Acquired([x]) == if x.Acquire? then multiset{x.resource} else multiset{}
    ensures Released([x]) == if x.Release? then multiset{x.resource} else multiset{}
  {
    assert [x][..0] == [];
  }

  /** The counts of a trace built action by action. */
  lemma CountsSnoc<R>(t: seq<Action<R>>, x: Action<R>)
    ensures Acquired(t + [x]) == Acquired(t) + (if x.Acquire? then multiset{x.resource} else multiset{})
    ensures Released(t + [x]) == Released(t) + (if x.Release? then multiset{x.resource} else multiset{})
  {
    assert (t + [x])[..|t + [x]| - 1] == t;
  }

  /** Releasing the one resource a trace leaks leaves nothing leaked. */
  lemma ReleaseTheLeak<R>(t: seq<Action<R>>, x: R)
    requires Leaked(t) == multiset{x}
    ensures Leaked(t + [Release(x)]) == multiset{}
  {
    CountsSnoc(t, Release(x));
  }

  /** Leak-free pieces interleaved as `a, b, c, d` with `a + d` and `b + c`
      leak-free make a leak-free whole. */
  lemma LeakFreeNested<R>(a: seq<Action<R>>, b: seq<Action<R>>, c: seq<Action<R>>, d: seq<Action<R>>)
    requires Leaked(a + d) == multiset{} && Leaked(b + c) == multiset{}
    ensures Leaked(a + b + c + d) == multiset{}
  {
    CountsAppend(a, d);
    CountsAppend(b, c);
    CountsAppend(a, b);
    CountsAppend(a + b, c);
    CountsAppend(a + b + c, d);
    var acq := Acquired(a) + Acquired(b) + Acquired(c) + Acquired(d);
    var rel := Released(a) + Released(b) + Released(c) + Released(d);
    forall x
      ensures (acq - rel)[x] == 0
    {
      assert (Acquired(a + d) - Released(a + d))[x] == 0;
      assert (Acquired(b + c) - Released(b + c))[x] == 0;
    }
    assert acq - rel == multiset{};
  }
}

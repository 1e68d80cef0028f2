/**
 The protocol by which Insert, Update and Upsert share a cache of built statements, as a state machine.
 A goroutine looks its key up under the read lock, builds its statement if nothing was found, executes, and
 stores what it built under the write lock; any other goroutine may take any step in between.
 */
module CacheProtocol {
  import opened Wrappers

  /** How a call is turned into a key, and into a statement when building it succeeds. */
  datatype System<!A(!new), K(!new), V> = System(key: A -> K, build: A -> Option<V>)

  datatype Phase<A, V> =
    | Looked(call: A, found: Option<V>)
    | Ready(call: A, statement: V, cached: bool)
    | Executed(call: A, statement: V)

  /** The cache, what each goroutine has in hand, and everything executed so far. */
  datatype State<A, K, V> = State(cache: map<K, V>, running: map<nat, Phase<A, V>>, log: seq<(A, V)>)

  datatype Step<A> = Lookup(g: nat, call: A) | Build(g: nat) | Execute(g: nat, ok: bool) | Store(g: nat)

  ghost function Start<A, K, V>(): State<A, K, V> {
    State(map[], map[], [])
  }

  ghost function Leave<A, K, V>(s: State<A, K, V>, g: nat): State<A, K, V> {
    s.(running := s.running - {g})
  }

  /** One step of one goroutine; a step it is not ready for does nothing. */
  ghost function Next<A(!new), K(!new), V>(sys: System<A, K, V>, s: State<A, K, V>, step: Step<A>): State<A, K, V> {
    match step
    case Lookup(g, call) =>
      if g in s.running then s else
        var k := sys.key(call);
        s.(running := s.running[g := Looked(call, if k in s.cache then Some(s.cache[k]) else None)])
    case Build(g) =>
      if g !in s.running || !s.running[g].Looked? then s else
        var call := s.running[g].call;
        var cached := s.running[g].found.Some?;
        var statement := if cached then s.running[g].found else sys.build(call);
        if statement.Some? then s.(running := s.running[g := Ready(call, statement.value, cached)]) else Leave(s, g)
    case Execute(g, ok) =>
      if g !in s.running || !s.running[g].Ready? then s else
        var call, v := s.running[g].call, s.running[g].statement;
        var t := s.(log := s.log + [(call, v)]);
        if ok && !s.running[g].cached then t.(running := s.running[g := Executed(call, v)]) else Leave(t, g)
    case Store(g) =>
      if g !in s.running || !s.running[g].Executed? then s else
        Leave(s.(cache := s.cache[sys.key(s.running[g].call) := s.running[g].statement]), g)
  }

  ghost function Run<A(!new), K(!new), V>(sys: System<A, K, V>, s: State<A, K, V>, steps: seq<Step<A>>): State<A, K, V>
    decreases |steps|
  {
    if steps == [] then s else Run(sys, Next(sys, s, steps[0]), steps[1..])
  }

  /** Only calls from the given set are ever started. */
  ghost predicate Uses<A(!new)>(calls: iset<A>, steps: seq<Step<A>>) {
    forall i :: 0 <= i < |steps| && steps[i].Lookup? ==> steps[i].call in calls
  }

  /** Everything executed is what its own call would have built. */
  ghost predicate Transparent<A(!new), K(!new), V>(sys: System<A, K, V>, s: State<A, K, V>) {
    forall i :: 0 <= i < |s.log| ==> sys.build(s.log[i].0) == Some(s.log[i].1)
  }

  /** v is the statement freshly built by every call that looks under k. */
  ghost predicate FreshFor<A(!new), K(!new), V>(sys: System<A, K, V>, calls: iset<A>, k: K, v: V) {
    forall a :: a in calls && sys.key(a) == k ==> sys.build(a) == Some(v)
  }

  ghost predicate CacheFresh<A(!new), K(!new), V>(sys: System<A, K, V>, calls: iset<A>, cache: map<K, V>) {
    forall k :: k in cache ==> FreshFor(sys, calls, k, cache[k])
  }

  /** A key never covers two calls that build differently. */
  ghost predicate Faithful<A(!new), K(!new), V>(sys: System<A, K, V>, calls: iset<A>) {
    forall a, b :: a in calls && b in calls && sys.key(a) == sys.key(b) && sys.build(a).Some? ==>
      sys.build(b) == sys.build(a)
  }

  ghost predicate PhaseFresh<A(!new), K(!new), V>(sys: System<A, K, V>, calls: iset<A>, p: Phase<A, V>) {
    p.call in calls &&
    match p
    case Looked(call, found) => found.Some? ==> sys.build(call) == found
    case Ready(call, v, _) => sys.build(call) == Some(v)
    case Executed(call, v) => sys.build(call) == Some(v)
  }

  ghost predicate Inv<A(!new), K(!new), V>(sys: System<A, K, V>, calls: iset<A>, s: State<A, K, V>) {
    CacheFresh(sys, calls, s.cache) && Transparent(sys, s) &&
    forall g :: g in s.running ==> PhaseFresh(sys, calls, s.running[g])
  }

  /** Every step keeps the invariant, and no step ever changes or drops an entry of the cache. */
  lemma StepKeepsInv<A(!new), K(!new), V>(sys: System<A, K, V>, calls: iset<A>, s: State<A, K, V>, step: Step<A>)
    requires Faithful(sys, calls) && Inv(sys, calls, s)
    requires step.Lookup? ==> step.call in calls
    ensures Inv(sys, calls, Next(sys, s, step))
    ensures forall k :: k in s.cache ==> k in Next(sys, s, step).cache && Next(sys, s, step).cache[k] == s.cache[k]
  {
    var t := Next(sys, s, step);
    if step.Store? && step.g in s.running && s.running[step.g].Executed? {
      var call, v := s.running[step.g].call, s.running[step.g].statement;
      assert PhaseFresh(sys, calls, s.running[step.g]);
      assert FreshFor(sys, calls, sys.key(call), v);
    }
  }

  lemma {:induction false} RunKeepsInv<A(!new), K(!new), V>(
    sys: System<A, K, V>, calls: iset<A>, s: State<A, K, V>, steps: seq<Step<A>>)
    requires Faithful(sys, calls) && Inv(sys, calls, s) && Uses(calls, steps)
    ensures Inv(sys, calls, Run(sys, s, steps))
    ensures forall k :: k in s.cache ==> k in Run(sys, s, steps).cache && Run(sys, s, steps).cache[k] == s.cache[k]
    decreases |steps|
  {
    if steps != [] {
      StepKeepsInv(sys, calls, s, steps[0]);
      RunKeepsInv(sys, calls, Next(sys, s, steps[0]), steps[1..]);
    }
  }

  /** One goroutine running a call on its own, start to finish. */
  ghost function Solo<A>(g: nat, call: A, ok: bool): seq<Step<A>> {
    [Lookup(g, call), Build(g), Execute(g, ok), Store(g)]
  }

  lemma RunFour<A(!new), K(!new), V>(sys: System<A, K, V>, s: State<A, K, V>, a: Step<A>, b: Step<A>, c: Step<A>,
                  d: Step<A>)
    ensures Run(sys, s, [a, b, c, d]) == Next(sys, Next(sys, Next(sys, Next(sys, s, a), b), c), d)
  {
    var s1 := Next(sys, s, a);
    var s2 := Next(sys, s1, b);
    var s3 := Next(sys, s2, c);
    assert [a, b, c, d][1..] == [b, c, d] && [b, c, d][1..] == [c, d] && [c, d][1..] == [d];
    assert Run(sys, s3, [d]) == Next(sys, s3, d);
    assert Run(sys, s2, [c, d]) == Run(sys, s3, [d]);
    assert Run(sys, s1, [b, c, d]) == Run(sys, s2, [c, d]);
  }

  lemma {:induction false} RunAppend<A(!new), K(!new), V>(
    sys: System<A, K, V>, s: State<A, K, V>, xs: seq<Step<A>>, ys: seq<Step<A>>)
    ensures Run(sys, s, xs + ys) == Run(sys, Run(sys, s, xs), ys)
    decreases |xs|
  {
    if xs == [] {
      assert xs + ys == ys;
    } else {
      assert (xs + ys)[1..] == xs[1..] + ys;
      RunAppend(sys, Next(sys, s, xs[0]), xs[1..], ys);
    }
  }

  /** A solo run executes the cached statement if there is one, else the built one, and remembers a success. */
  lemma SoloRun<A(!new), K(!new), V>(sys: System<A, K, V>, s: State<A, K, V>, g: nat, call: A, ok: bool)
    requires g !in s.running
    ensures var t := Run(sys, s, Solo(g, call, ok)); var k := sys.key(call);
            var v := if k in s.cache then Some(s.cache[k]) else sys.build(call);
            && t.running == s.running
            && t.log == (if v.Some? then s.log + [(call, v.value)] else s.log)
            && t.cache == if k !in s.cache && v.Some? && ok then s.cache[k := v.value] else s.cache
  {
    RunFour(sys, s, Lookup(g, call), Build(g), Execute(g, ok), Store(g));
    assert s.running[g := Looked(call, None)] - {g} == s.running;
  }

  /** On a fresh cache a call served alone executes what it would build, and leaves the cache fresh. */
  lemma SoloCall<A(!new), K(!new), V>(sys: System<A, K, V>, calls: iset<A>, cache: map<K, V>, call: A, ok: bool)
    requires Faithful(sys, calls) && CacheFresh(sys, calls, cache) && call in calls
    ensures var s := Run(sys, State(cache, map[], []), Solo(0, call, ok)); var k := sys.key(call);
            && CacheFresh(sys, calls, s.cache)
            && (k in cache ==> sys.build(call) == Some(cache[k]))
            && s.log == (if sys.build(call).Some? then [(call, sys.build(call).value)] else [])
            && s.cache == (if k !in cache && sys.build(call).Some? && ok then cache[k := sys.build(call).value]
                           else cache)
  {
    var s: State<A, K, V> := State(cache, map[], []);
    SoloRun(sys, s, 0, call, ok);
    RunKeepsInv(sys, calls, s, Solo(0, call, ok));
    if sys.key(call) in cache {
      assert FreshFor(sys, calls, sys.key(call), cache[sys.key(call)]);
    }
  }

  /** If two calls share a key and build differently, running one after the other executes a wrong statement. */
  lemma ClashIsSeen<A(!new), K(!new), V>(sys: System<A, K, V>, a: A, b: A)
    requires sys.key(a) == sys.key(b) && sys.build(a).Some? && sys.build(b) != sys.build(a)
    ensures !Transparent(sys, Run(sys, Start(), Solo(0, a, true) + Solo(0, b, true)))
  {
    var s: State<A, K, V> := Start();
    SoloRun(sys, s, 0, a, true);
    var t := Run(sys, s, Solo(0, a, true));
    SoloRun(sys, t, 0, b, true);
    RunAppend(sys, s, Solo(0, a, true), Solo(0, b, true));
    assert Run(sys, t, Solo(0, b, true)).log[1] == (b, sys.build(a).value);
  }

  /** So two calls with one key, in turn, get what they would build exactly if they build the same. */
  lemma InTurnExactly<A(!new), K(!new), V>(sys: System<A, K, V>, a: A, b: A)
    requires sys.key(a) == sys.key(b) && sys.build(a).Some?
    ensures Transparent(sys, Run(sys, Start(), Solo(0, a, true) + Solo(0, b, true))) <==> sys.build(b) == sys.build(a)
  {
    if sys.build(b) == sys.build(a) {
      RunKeepsInv(sys, iset{a, b}, Start(), Solo(0, a, true) + Solo(0, b, true));
    } else {
      ClashIsSeen(sys, a, b);
    }
  }

  /** The cache cannot be noticed in any interleaving exactly when keys are faithful to what is built. */
  lemma TransparentExactlyWhenFaithful<A(!new), K(!new), V(!new)>(sys: System<A, K, V>, calls: iset<A>)
    ensures Faithful(sys, calls) <==>
            forall steps: seq<Step<A>> :: Uses(calls, steps) ==> Transparent(sys, Run(sys, Start(), steps))
  {
    if Faithful(sys, calls) {
      forall steps: seq<Step<A>> | Uses(calls, steps)
        ensures Transparent(sys, Run(sys, Start(), steps))
      {
        RunKeepsInv(sys, calls, Start(), steps);
      }
    } else {
      var a, b :| a in calls && b in calls && sys.key(a) == sys.key(b) && sys.build(a).Some?
                  && sys.build(b) != sys.build(a);
      ClashIsSeen(sys, a, b);
      assert Uses(calls, Solo(0, a, true) + Solo(0, b, true));
    }
  }
}

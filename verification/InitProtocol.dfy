/** openvdb::initialize and uninitialize: double-checked locking around global registries, as
    a state machine in which any number of threads take their steps in any order. */
module InitProtocol {
  import opened Wrappers

  datatype Registry = Codecs | Metadata | Maps | Grids | Attributes

  /** What is registered together. */
  datatype Item =
    CodecTypes | MetaTypes | PointIndexMeta | PointDataMeta | MapTypes | GridTypes | PointDataGridType | AttributeTypes

  function RegistryOf(i: Item): Registry {
    match i
    case CodecTypes => Codecs
    case MetaTypes => Metadata
    case PointIndexMeta => Metadata
    case PointDataMeta => Metadata
    case MapTypes => Maps
    case GridTypes => Grids
    case PointDataGridType => Grids
    case AttributeTypes => Attributes
  }

  datatype Op = Clear(r: Registry) | Register(i: Item) | RegisterIfMissing(i: Item) | Store(flag: bool)

  /** The body of initialize, from io::internal::initialize to the store of the flag. */
  const INITIALIZE: seq<Op> :=
    [ Clear(Codecs), Register(CodecTypes), Clear(Metadata), Register(MetaTypes), Clear(Maps), Register(MapTypes),
      Clear(Grids), Register(GridTypes), Register(PointIndexMeta), Register(AttributeTypes), Register(PointDataMeta),
      RegisterIfMissing(PointDataGridType), Store(true) ]

  /** The body of uninitialize. */
  const UNINITIALIZE: seq<Op> :=
    [ Store(false), Clear(Metadata), Clear(Grids), Clear(Maps), Clear(Codecs), Clear(Attributes) ]

  /** Where a thread is: about to load the flag, to take the lock, to load the flag again, to
      run some operation of a body, or to release the lock.  `init` tells initialize from
      uninitialize. */
  datatype Thread =
    Idle | AtFirstLoad | AtLock(init: bool) | AtSecondLoad | InBody(init: bool, k: nat) | AtUnlock(init: bool)

  /** `counts` says how often each item has been registered since its registry was cleared. */
  datatype State = State(flag: bool, owner: Option<nat>, counts: map<Item, nat>, threads: seq<Thread>)

  function Count(counts: map<Item, nat>, i: Item): nat {
    if i in counts then counts[i] else 0
  }

  function Body(init: bool): seq<Op> {
    if init then INITIALIZE else UNINITIALIZE
  }

  /** The effect of an operation on the registries. */
  function Effect(op: Op, counts: map<Item, nat>): map<Item, nat> {
    match op
    case Clear(r) => map i | i in counts && RegistryOf(i) != r :: counts[i]
    case Register(i) => counts[i := if i in counts then counts[i] + 1 else 1]
    case RegisterIfMissing(i) => if i in counts then counts else counts[i := 1]
    case Store(_) => counts
  }

  function Threads(s: State, t: nat, th: Thread): seq<Thread>
    requires t < |s.threads|
  {
    s.threads[t := th]
  }

  /** One step of thread t: it calls one of the functions, or goes on in it. */
  ghost predicate Next(s: State, t: nat, s': State) {
    t < |s.threads| &&
    match s.threads[t]
    case Idle =>
      || s' == s.(threads := Threads(s, t, AtFirstLoad))
      || s' == s.(threads := Threads(s, t, AtLock(false)))
    case AtFirstLoad =>
      s' == s.(threads := Threads(s, t, if s.flag then Idle else AtLock(true)))
    case AtLock(init) =>
      && s.owner == None
      && s' == s.(owner := Some(t), threads := Threads(s, t, if init then AtSecondLoad else InBody(false, 0)))
    case AtSecondLoad =>
      s' == s.(threads := Threads(s, t, if s.flag then AtUnlock(true) else InBody(true, 0)))
    case InBody(init, k) =>
      && k < |Body(init)|
      && var op := Body(init)[k];
      s' == s.(counts := Effect(op, s.counts), flag := if op.Store? then op.flag else s.flag,
               threads := Threads(s, t, if k + 1 < |Body(init)| then InBody(init, k + 1) else AtUnlock(init)))
    case AtUnlock(_) =>
      s' == s.(owner := None, threads := Threads(s, t, Idle))
  }

  ghost predicate Initial(s: State) {
    !s.flag && s.owner == None && s.counts == map[] && forall t | 0 <= t < |s.threads| :: s.threads[t] == Idle
  }

  /* ---- what every reachable state satisfies ---- */

  predicate Holding(th: Thread) {
    th.AtSecondLoad? || th.InBody? || th.AtUnlock?
  }

  ghost predicate Populated(counts: map<Item, nat>) {
    forall i: Item :: Count(counts, i) == 1
  }

  ghost predicate Empty(counts: map<Item, nat>) {
    forall i: Item :: Count(counts, i) == 0
  }

  /** The flag is true exactly when everything is registered, and otherwise nothing is. */
  ghost predicate Settled(flag: bool, counts: map<Item, nat>) {
    if flag then Populated(counts) else Empty(counts)
  }

  /** Registered by the first k operations of initialize. */
  predicate Done(i: Item, k: nat) {
    match i
    case CodecTypes => k > 1
    case MetaTypes => k > 3
    case MapTypes => k > 5
    case GridTypes => k > 7
    case PointIndexMeta => k > 8
    case AttributeTypes => k > 9
    case PointDataMeta => k > 10
    case PointDataGridType => k > 11
  }

  /** Cleared by the first k operations of uninitialize. */
  predicate Gone(i: Item, k: nat) {
    match i
    case MetaTypes | PointIndexMeta | PointDataMeta => k > 1
    case GridTypes | PointDataGridType => k > 2
    case MapTypes => k > 3
    case CodecTypes => k > 4
    case AttributeTypes => k > 5
  }

  /** The registries, in the middle of a body. */
  ghost predicate Midway(flag: bool, counts: map<Item, nat>, init: bool, k: nat) {
    if init then
      k < |INITIALIZE| && !flag && forall i: Item :: Count(counts, i) == if Done(i, k) then 1 else 0
    else
      k < |UNINITIALIZE| &&
      if k == 0 then Settled(flag, counts)
      else !flag && forall i: Item :: if Gone(i, k) then Count(counts, i) == 0 else Count(counts, i) <= 1
  }

  /** What a thread inside the lock may rely on. */
  ghost predicate InsideOk(th: Thread, flag: bool, counts: map<Item, nat>) {
    match th
    case InBody(init, k) => Midway(flag, counts, init, k)
    case AtUnlock(init) => flag == init && Settled(flag, counts)
    case _ => Settled(flag, counts)
  }

  ghost predicate Inv(s: State) {
    && (forall t | 0 <= t < |s.threads| :: Holding(s.threads[t]) <==> s.owner == Some(t))
    && (forall i | i in s.counts :: s.counts[i] > 0)
    && match s.owner
       case None => Settled(s.flag, s.counts)
       case Some(t) => t < |s.threads| && InsideOk(s.threads[t], s.flag, s.counts)
  }

  /** The counts after an operation. */
  lemma EffectCounts(op: Op, counts: map<Item, nat>, i: Item)
    ensures Count(Effect(op, counts), i) ==
            match op
            case Clear(r) => if RegistryOf(i) == r then 0 else Count(counts, i)
            case Register(j) => if i == j then Count(counts, i) + 1 else Count(counts, i)
            case RegisterIfMissing(j) => if i == j && i !in counts then 1 else Count(counts, i)
            case Store(_) => Count(counts, i)
  {
  }

  /** An operation leaves the registries as the next one expects them. */
  lemma BodyStep(flag: bool, counts: map<Item, nat>, init: bool, k: nat)
    requires Midway(flag, counts, init, k) && forall i | i in counts :: counts[i] > 0
    ensures k < |Body(init)|
    ensures var op := Body(init)[k];
            var flag', counts' := if op.Store? then op.flag else flag, Effect(op, counts);
            if k + 1 < |Body(init)| then Midway(flag', counts', init, k + 1)
            else flag' == init && Settled(flag', counts')
  {
    var op := Body(init)[k];
    forall i: Item ensures Count(Effect(op, counts), i) ==
                           match op
                           case Clear(r) => if RegistryOf(i) == r then 0 else Count(counts, i)
                           case Register(j) => if i == j then Count(counts, i) + 1 else Count(counts, i)
                           case RegisterIfMissing(j) => if i == j && i !in counts then 1 else Count(counts, i)
                           case Store(_) => Count(counts, i)
    {
      EffectCounts(op, counts, i);
    }
  }

  lemma EffectKeepsPositive(op: Op, counts: map<Item, nat>)
    requires forall i | i in counts :: counts[i] > 0
    ensures forall i | i in Effect(op, counts) :: Effect(op, counts)[i] > 0
  {
  }

  lemma InvStep(s: State, t: nat, s': State)
    requires Inv(s) && Next(s, t, s')
    ensures Inv(s')
  {
    assert Holding(s.threads[t]) <==> s.owner == Some(t);
    if s.threads[t].InBody? {
      BodyStep(s.flag, s.counts, s.threads[t].init, s.threads[t].k);
      EffectKeepsPositive(Body(s.threads[t].init)[s.threads[t].k], s.counts);
    }
  }

  /** A run: any threads, in any order. */
  ghost predicate IsRun(states: seq<State>, actors: seq<nat>) {
    && |states| == |actors| + 1 && Initial(states[0])
    && forall k | 0 <= k < |actors| :: Next(states[k], actors[k], states[k + 1])
  }

  lemma {:induction false} RunKeepsInv(states: seq<State>, actors: seq<nat>, k: nat)
    requires IsRun(states, actors) && k < |states|
    ensures Inv(states[k])
  {
    if k == 0 {
      assert forall i: Item :: Count(states[0].counts, i) == 0;
    } else {
      RunKeepsInv(states, actors, k - 1);
      assert Next(states[k - 1], actors[k - 1], states[k - 1 + 1]);
      InvStep(states[k - 1], actors[k - 1], states[k]);
    }
  }

  /** Once the flag reads true, all registries are populated, each item exactly once; and no
      more than one thread is inside the lock. */
  lemma FlagMeansPopulated(states: seq<State>, actors: seq<nat>, k: nat)
    requires IsRun(states, actors) && k < |states|
    ensures states[k].flag ==> Populated(states[k].counts)
    ensures forall i: Item :: Count(states[k].counts, i) <= 1
    ensures forall t, u | 0 <= t < u < |states[k].threads| ::
              !(Holding(states[k].threads[t]) && Holding(states[k].threads[u]))
  {
    RunKeepsInv(states, actors, k);
    var s := states[k];
    forall t, u | 0 <= t < u < |s.threads| ensures !(Holding(s.threads[t]) && Holding(s.threads[u])) {
      assert Holding(s.threads[t]) <==> s.owner == Some(t);
      assert Holding(s.threads[u]) <==> s.owner == Some(u);
    }
  }

  /** A registration never meets an item that is already there, so none of them throws. */
  lemma RegistrationsSucceed(states: seq<State>, actors: seq<nat>, k: nat, t: nat)
    requires IsRun(states, actors) && k < |states| && t < |states[k].threads| && states[k].threads[t].InBody?
    ensures var th := states[k].threads[t];
            th.k < |Body(th.init)| &&
            (Body(th.init)[th.k].Register? ==> Count(states[k].counts, Body(th.init)[th.k].i) == 0)
  {
    RunKeepsInv(states, actors, k);
    assert Holding(states[k].threads[t]) <==> states[k].owner == Some(t);
  }

  /** Whenever nobody is inside the lock, the flag says exactly whether the library is
      initialized, and the registries are either complete or empty. */
  lemma QuietMeansSettled(states: seq<State>, actors: seq<nat>, k: nat)
    requires IsRun(states, actors) && k < |states|
    requires forall t | 0 <= t < |states[k].threads| :: !Holding(states[k].threads[t])
    ensures Settled(states[k].flag, states[k].counts)
  {
    RunKeepsInv(states, actors, k);
    var s := states[k];
    if s.owner.Some? {
      assert false;
    }
  }

  /** When a call returns, it has done its work: a return from initialize, by either way, meets the
      flag set and everything registered, and one from uninitialize the flag unset and nothing
      registered. */
  lemma CallsTakeEffect(states: seq<State>, actors: seq<nat>, k: nat)
    requires IsRun(states, actors) && k < |actors|
    ensures var s, t, s' := states[k], actors[k], states[k + 1];
            && t < |s.threads| == |s'.threads|
            && (s'.threads[t] == Idle && (s.threads[t] == AtFirstLoad || s.threads[t] == AtUnlock(true)) ==>
                  s.flag && s'.flag && Populated(s'.counts))
            && (s'.threads[t] == Idle && s.threads[t] == AtUnlock(false) ==> !s'.flag && Empty(s'.counts))
            && (s'.threads[t] == Idle ==> s.threads[t] == AtFirstLoad || s.threads[t].AtUnlock?)
  {
    var s, t, s' := states[k], actors[k], states[k + 1];
    assert Next(s, t, s');
    RunKeepsInv(states, actors, k);
    FlagMeansPopulated(states, actors, k);
    assert Holding(s.threads[t]) <==> s.owner == Some(t);
  }

  /** How many steps a thread has left until it returns, once it need not wait for the lock. */
  function StepsLeft(th: Thread): nat {
    match th
    case Idle => 0
    case AtUnlock(_) => 1
    case InBody(init, k) => 1 + if k < |Body(init)| then |Body(init)| - k else 0
    case AtSecondLoad => 15
    case AtLock(_) => 16
    case AtFirstLoad => 17
  }

  /** Every call that has begun comes closer to its return with every step, after 17 steps at
      most; with the flag set, initialize returns at once and never waits for the lock. */
  lemma CallsEnd(s: State, t: nat, s': State)
    requires Next(s, t, s') && s.threads[t] != Idle
    ensures StepsLeft(s'.threads[t]) < StepsLeft(s.threads[t]) <= 17
    ensures s.threads[t] == AtFirstLoad && s.flag ==> s' == s.(threads := s'.threads) && s'.threads[t] == Idle
  {
  }

  /** No deadlock: a thread can take a step unless it waits for the lock, and then another
      thread that holds the lock can. */
  lemma SomeoneCanGo(states: seq<State>, actors: seq<nat>, k: nat, t: nat)
    requires IsRun(states, actors) && k < |states| && t < |states[k].threads|
    ensures var s := states[k];
            || (exists s' :: Next(s, t, s'))
            || (s.threads[t].AtLock? && s.owner.Some? && exists s' :: Next(s, s.owner.value, s'))
  {
    RunKeepsInv(states, actors, k);
    var s := states[k];
    if s.threads[t].AtLock? && s.owner.Some? {
      assert Holding(s.threads[s.owner.value]);
      CanStep(s, s.owner.value);
    } else {
      CanStep(s, t);
    }
  }

  lemma CanStep(s: State, t: nat)
    requires Inv(s) && t < |s.threads| && (s.threads[t].AtLock? ==> s.owner.None?)
    ensures exists s' :: Next(s, t, s')
  {
    assert Holding(s.threads[t]) <==> s.owner == Some(t);
    var th := s.threads[t];
    var s' :=
      match th
      case Idle => s.(threads := Threads(s, t, AtFirstLoad))
      case AtFirstLoad => s.(threads := Threads(s, t, if s.flag then Idle else AtLock(true)))
      case AtLock(init) =>
        s.(owner := Some(t), threads := Threads(s, t, if init then AtSecondLoad else InBody(false, 0)))
      case AtSecondLoad => s.(threads := Threads(s, t, if s.flag then AtUnlock(true) else InBody(true, 0)))
      case InBody(init, k) =>
        var op := Body(init)[k];
        s.(counts := Effect(op, s.counts), flag := if op.Store? then op.flag else s.flag,
           threads := Threads(s, t, if k + 1 < |Body(init)| then InBody(init, k + 1) else AtUnlock(init)))
      case AtUnlock(_) => s.(owner := None, threads := Threads(s, t, Idle));
    assert Next(s, t, s');
  }
}

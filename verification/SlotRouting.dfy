/** The sessions of one provider bucket over several replicas and stores: `sharedSlotSemaphore`
    (src/utils/shared-slots.ts:203-264) as `withSharedSlot` uses it (src/utils/mx-throttle.ts:165-237).
    Every section between two awaits is one action; a call to the store is sent, served and answered
    in separate actions, or fails, and what is sent may be served late or never. */
module SlotRouting {
  import opened Wrappers
  import opened Backends
  import opened SharedSlots
  import opened SlotFairness

  /** Which store answered: `s<generation>` or `l`. */
  datatype Grant = SharedGrant(generation: nat) | LocalGrant

  /** `granter` records which store granted; the code knows only `grant`. */
  datatype Phase =
    | Asking
    | Sent(backend: nat, generation: nat)
    | Served(backend: nat, generation: nat, granted: bool)
    | Running(grant: Grant, granter: Store)
    | Finished(grant: Grant, granter: Store)

  datatype Session = Session(replica: string, phase: Phase)

  /** What is on its way to a store. A release without a grant is the one sent after a failed
      acquire; a late acquire is one given up on before the store served it. */
  datatype Message =
    | Renewal(store: Store, holder: string, grant: Grant)
    | Release(store: Store, holder: string, carried: Option<Grant>)
    | LateAcquire(store: Store, holder: string)

  datatype World = World(
    now: int,
    slots: map<Store, Slots>,
    replicas: map<string, Installed>,
    /** The backend each replica had installed at each generation. */
    named: map<(string, nat), nat>,
    sessions: map<string, Session>,
    mail: multiset<Message>)

  datatype Action =
    | Tick(to: int)
    | Swap(replica: string, backend: Option<nat>)
    | Arrive(holder: string, replica: string)
    | Ask(holder: string)
    | Serve(holder: string)
    | Answer(holder: string)
    | Fail(holder: string)
    | Renew(holder: string)
    | Finish(holder: string)
    | Deliver(message: Message)
    | Lose(message: Message)
    | Sweep(store: Store)

  function In(w: World, store: Store): Slots {
    if store in w.slots then w.slots[store] else NO_SLOTS
  }

  predicate Known(w: World, holder: string) {
    holder in w.sessions && w.sessions[holder].replica in w.replicas
  }

  predicate Enabled(w: World, a: Action) {
    match a
    case Tick(to) => w.now <= to
    case Swap(replica, _) => replica in w.replicas
    case Arrive(holder, replica) =>
      holder !in w.sessions && replica in w.replicas && w.replicas[replica].backend.Some?
    case Ask(holder) => Known(w, holder) && w.sessions[holder].phase.Asking?
    case Serve(holder) => Known(w, holder) && w.sessions[holder].phase.Sent?
    case Answer(holder) => Known(w, holder) && w.sessions[holder].phase.Served?
    case Fail(holder) => Known(w, holder) && (w.sessions[holder].phase.Sent? || w.sessions[holder].phase.Served?)
    case Renew(holder) => Known(w, holder) && w.sessions[holder].phase.Running?
    case Finish(holder) => Known(w, holder) && w.sessions[holder].phase.Running?
    case Deliver(m) => m in w.mail
    case Lose(m) => m in w.mail
    case Sweep(_) => true
  }

  /** `storeOf`: the store a grant names, while it is still installed. */
  function StoreOf(w: World, replica: string, grant: Grant): Option<Store>
    requires replica in w.replicas
  {
    match grant
    case LocalGrant => Some(Local(replica))
    case SharedGrant(generation) =>
      var i := w.replicas[replica];
      if i.backend.Some? && i.generation == generation then Some(Shared(i.backend.value)) else None
  }

  function WithPhase(w: World, holder: string, phase: Phase): World
    requires holder in w.sessions
  {
    w.(sessions := w.sessions[holder := w.sessions[holder].(phase := phase)])
  }

  function WithSlots(w: World, store: Store, s: Slots): World {
    w.(slots := w.slots[store := s])
  }

  function WithMail(w: World, mail: multiset<Message>): World {
    w.(mail := mail)
  }

  /** The acquire on the replica's own memory. */
  function AskLocally(w: World, holder: string, o: SlotOptions): World
    requires holder in w.sessions
  {
    var store := Local(w.sessions[holder].replica);
    var r := AcquireOn(In(w, store), holder, o, w.now);
    WithPhase(WithSlots(w, store, r.0), holder, if r.1 then Running(LocalGrant, store) else Asking)
  }

  /** One more message under way, and one less: equal messages count each. */
  function Posted(mail: multiset<Message>, m: Message): (r: multiset<Message>)
    ensures forall x :: x in r <==> x in mail || x == m
  {
    mail + multiset{m}
  }

  function Taken(mail: multiset<Message>, m: Message): (r: multiset<Message>)
    ensures forall x :: x in r ==> x in mail
    ensures forall x :: x in mail && x != m ==> x in r
  {
    mail - multiset{m}
  }

  function Sending(w: World, m: Option<Message>): multiset<Message> {
    if m.Some? then Posted(w.mail, m.value) else w.mail
  }

  function Apply(w: World, a: Action, o: SlotOptions): World
    requires Enabled(w, a)
  {
    match a
    case Tick(to) => w.(now := to)
    case Swap(replica, backend) =>
      var generation := w.replicas[replica].generation + 1;
      w.(replicas := w.replicas[replica := Installed(backend, generation)],
         named := if backend.Some? then w.named[(replica, generation) := backend.value] else w.named)
    case Arrive(holder, replica) => w.(sessions := w.sessions[holder := Session(replica, Asking)])
    case Ask(holder) =>
      var i := w.replicas[w.sessions[holder].replica];
      if i.backend.Some? then WithPhase(w, holder, Sent(i.backend.value, i.generation))
      else AskLocally(w, holder, o)
    case Serve(holder) =>
      var p := w.sessions[holder].phase;
      var r := AcquireOn(In(w, Shared(p.backend)), holder, o, w.now);
      WithPhase(WithSlots(w, Shared(p.backend), r.0), holder, Served(p.backend, p.generation, r.1))
    case Answer(holder) =>
      var p := w.sessions[holder].phase;
      WithPhase(w, holder, if p.granted then Running(SharedGrant(p.generation), Shared(p.backend)) else Asking)
    case Fail(holder) =>
      var p := w.sessions[holder].phase;
      var late := if p.Sent? then Some(LateAcquire(Shared(p.backend), holder)) else None;
      AskLocally(WithMail(w, Posted(Sending(w, late), Message.Release(Shared(p.backend), holder, None))), holder, o)
    case Renew(holder) =>
      var s := w.sessions[holder];
      var store := StoreOf(w, s.replica, s.phase.grant);
      WithMail(w, Sending(w, if store.Some? then Some(Renewal(store.value, holder, s.phase.grant)) else None))
    case Finish(holder) =>
      var s := w.sessions[holder];
      var store := StoreOf(w, s.replica, s.phase.grant);
      var mail := Sending(w, if store.Some? then Some(Message.Release(store.value, holder, Some(s.phase.grant))) else None);
      WithPhase(WithMail(w, mail), holder, Finished(s.phase.grant, s.phase.granter))
    case Deliver(m) =>
      var s := In(w, m.store);
      var t := match m {
        case Renewal(_, holder, _) => RenewOn(s, holder, o.leaseMs, w.now).0
        case Release(_, holder, _) => ReleaseOn(s, holder)
        case LateAcquire(_, holder) => AcquireOn(s, holder, o, w.now).0
      };
      WithSlots(WithMail(w, Taken(w.mail, m)), m.store, t)
    case Lose(m) => WithMail(w, Taken(w.mail, m))
    case Sweep(store) => WithSlots(w, store, Drop(In(w, store), w.now))
  }

  /** No session yet, nothing held anywhere; each replica knows the backend it starts with. */
  ghost predicate Init(w: World) {
    && w.slots == map[] && w.sessions == map[] && w.mail == multiset{}
    && (forall r :: r in w.replicas && w.replicas[r].backend.Some? ==>
          (r, w.replicas[r].generation) in w.named && w.named[(r, w.replicas[r].generation)] == w.replicas[r].backend.value)
    && forall r, g :: (r, g) in w.named ==> r in w.replicas && g <= w.replicas[r].generation
  }

  ghost predicate Possible(w: World, run: seq<Action>, o: SlotOptions)
    decreases |run|
  {
    run == [] || (Enabled(w, run[0]) && Possible(Apply(w, run[0], o), run[1..], o))
  }

  function After(w: World, run: seq<Action>, o: SlotOptions): World
    requires Possible(w, run, o)
    decreases |run|
  {
    if run == [] then w else After(Apply(w, run[0], o), run[1..], o)
  }

  // ---------- What every run keeps ----------

  /** No store ever holds more than `max` live leases. */
  ghost predicate StoresBounded(w: World, max: int) {
    forall store :: store in w.slots ==>
      Bounded(w.slots[store], max, w.now) && WellFormed(w.slots[store], w.now)
  }

  /** The generation a replica's grant carries names the backend that granted. */
  ghost predicate Names(w: World, replica: string, generation: nat, backend: nat) {
    (replica, generation) in w.named && w.named[(replica, generation)] == backend
  }

  ghost predicate InstalledNamed(w: World) {
    && (forall r :: r in w.replicas && w.replicas[r].backend.Some? ==>
          Names(w, r, w.replicas[r].generation, w.replicas[r].backend.value))
    && forall r, g :: (r, g) in w.named ==> r in w.replicas && g <= w.replicas[r].generation
  }

  ghost predicate GrantNames(w: World, replica: string, grant: Grant, granter: Store) {
    match grant
    case LocalGrant => granter == Local(replica)
    case SharedGrant(generation) => granter.Shared? && Names(w, replica, generation, granter.backend)
  }

  ghost predicate SessionNamed(w: World, s: Session) {
    match s.phase
    case Asking => true
    case Sent(backend, generation) => Names(w, s.replica, generation, backend)
    case Served(backend, generation, _) => Names(w, s.replica, generation, backend)
    case Running(grant, granter) => GrantNames(w, s.replica, grant, granter)
    case Finished(grant, granter) => GrantNames(w, s.replica, grant, granter)
  }

  ghost predicate SessionsNamed(w: World) {
    forall h :: h in w.sessions ==> w.sessions[h].replica in w.replicas && SessionNamed(w, w.sessions[h])
  }

  /** A message that carries a grant is on its way to the store that granted, for its own holder. */
  ghost predicate Rightful(w: World, m: Message) {
    match m
    case LateAcquire(_, _) => true
    case Renewal(store, holder, grant) => GrantedBy(w, holder, grant, store)
    case Release(store, holder, carried) =>
      carried.Some? ==> GrantedBy(w, holder, carried.value, store) && w.sessions[holder].phase.Finished?
  }

  ghost predicate GrantedBy(w: World, holder: string, grant: Grant, store: Store) {
    && holder in w.sessions
    && var p := w.sessions[holder].phase;
       (p.Running? || p.Finished?) && p.grant == grant && p.granter == store
  }

  ghost predicate MailRightful(w: World) {
    forall m :: m in w.mail ==> Rightful(w, m)
  }

  ghost predicate Invariant(w: World, max: int) {
    StoresBounded(w, max) && InstalledNamed(w) && SessionsNamed(w) && MailRightful(w)
  }

  /** Any operation on one store's slots keeps it bounded. */
  lemma OpKeepsStore(w: World, store: Store, o: SlotOptions, op: Op)
    requires StoresBounded(w, o.max) && 0 <= o.max
    requires op.Acquire? ==> op.leaseMs == o.leaseMs && op.queueTtlMs == o.queueTtlMs
    ensures var s := Step(In(w, store), o.max, Event(w.now, op));
            Bounded(s, o.max, w.now) && WellFormed(s, w.now)
  {
    hide Step;
    StepKeepsBound(In(w, store), o.max, Event(w.now, op));
    StepKeepsWellFormed(In(w, store), o.max, Event(w.now, op));
  }

  lemma ApplyKeepsStores(w: World, a: Action, o: SlotOptions)
    requires StoresBounded(w, o.max) && 0 <= o.max && Enabled(w, a)
    ensures StoresBounded(Apply(w, a, o), o.max)
  {
    hide Posted, Taken, AcquireOn, RenewOn, ReleaseOn, Drop, Bounded, WellFormed;
    var w' := Apply(w, a, o);
    match a {
      case Tick(to) =>
        forall s | s in w.slots
          ensures Bounded(w.slots[s], o.max, to) && WellFormed(w.slots[s], to)
        {
          LaterKeepsStore(w.slots[s], o.max, w.now, to);
        }
      case Ask(holder) =>
        OpKeepsStore(w, Local(w.sessions[holder].replica), o, Op.Acquire(holder, o.leaseMs, o.queueTtlMs));
      case Serve(holder) =>
        OpKeepsStore(w, Shared(w.sessions[holder].phase.backend), o, Op.Acquire(holder, o.leaseMs, o.queueTtlMs));
      case Fail(holder) =>
        OpKeepsStore(w, Local(w.sessions[holder].replica), o, Op.Acquire(holder, o.leaseMs, o.queueTtlMs));
      case Deliver(m) =>
        OpKeepsStore(w, m.store, o,
          match m
          case Renewal(_, holder, _) => Op.Renew(holder, o.leaseMs)
          case Release(_, holder, _) => Op.Release(holder)
          case LateAcquire(_, holder) => Op.Acquire(holder, o.leaseMs, o.queueTtlMs));
      case Sweep(store) => OpKeepsStore(w, store, o, Op.Sweep);
      case _ =>
    }
  }

  lemma LaterKeepsStore(s: Slots, max: int, at: int, later: int)
    requires Bounded(s, max, at) && WellFormed(s, at) && at <= later
    ensures Bounded(s, max, later) && WellFormed(s, later)
  {
    LeasesLapse(s.holders, at, later);
  }

  /** A new generation is new: what was named stays named. */
  lemma ApplyKeepsInstalled(w: World, a: Action, o: SlotOptions)
    requires InstalledNamed(w) && Enabled(w, a)
    ensures InstalledNamed(Apply(w, a, o))
    ensures forall p :: p in w.named ==> p in Apply(w, a, o).named && Apply(w, a, o).named[p] == w.named[p]
    ensures w.replicas.Keys <= Apply(w, a, o).replicas.Keys
  {
    hide Posted, Taken, AcquireOn, RenewOn, ReleaseOn, Drop;
  }

  lemma SessionStaysNamed(w: World, w': World, s: Session)
    requires SessionNamed(w, s)
    requires forall p :: p in w.named ==> p in w'.named && w'.named[p] == w.named[p]
    ensures SessionNamed(w', s)
  {
  }

  /** The one session an action changes, if any, is left naming its store. */
  lemma ActorNamed(w: World, a: Action, o: SlotOptions, h: string)
    requires InstalledNamed(w) && SessionsNamed(w) && Enabled(w, a) && h in Apply(w, a, o).sessions
    requires h !in w.sessions || w.sessions[h] != Apply(w, a, o).sessions[h]
    ensures Apply(w, a, o).sessions[h].replica in w.replicas
    ensures SessionNamed(w, Apply(w, a, o).sessions[h])
  {
    hide Posted, Taken, AcquireOn, RenewOn, ReleaseOn, Drop;
  }

  lemma ApplyKeepsNames(w: World, a: Action, o: SlotOptions)
    requires InstalledNamed(w) && SessionsNamed(w) && Enabled(w, a)
    ensures InstalledNamed(Apply(w, a, o)) && SessionsNamed(Apply(w, a, o))
  {
    var w' := Apply(w, a, o);
    ApplyKeepsInstalled(w, a, o);
    hide Apply, Enabled, InstalledNamed, SessionNamed;
    forall h | h in w'.sessions
      ensures w'.sessions[h].replica in w'.replicas && SessionNamed(w', w'.sessions[h])
    {
      if h !in w.sessions || w.sessions[h] != w'.sessions[h] {
        ActorNamed(w, a, o, h);
      }
      SessionStaysNamed(w, w', w'.sessions[h]);
    }
  }

  /** What was under way keeps to its session, which keeps its grant. */
  lemma RightfulStays(w: World, a: Action, o: SlotOptions, m: Message)
    requires Rightful(w, m) && Enabled(w, a)
    ensures Rightful(Apply(w, a, o), m)
  {
    hide Posted, Taken, AcquireOn, RenewOn, ReleaseOn, Drop;
  }

  lemma NewMailRightful(w: World, a: Action, o: SlotOptions, m: Message)
    requires InstalledNamed(w) && SessionsNamed(w) && Enabled(w, a)
    requires m in Apply(w, a, o).mail && m !in w.mail
    ensures Rightful(Apply(w, a, o), m)
  {
    hide Posted, Taken, AcquireOn, RenewOn, ReleaseOn, Drop;
  }

  lemma ApplyKeepsMail(w: World, a: Action, o: SlotOptions)
    requires InstalledNamed(w) && SessionsNamed(w) && MailRightful(w) && Enabled(w, a)
    ensures MailRightful(Apply(w, a, o))
  {
    hide Apply, Enabled, Rightful, InstalledNamed, SessionsNamed;
    forall m | m in Apply(w, a, o).mail
      ensures Rightful(Apply(w, a, o), m)
    {
      if m in w.mail {
        RightfulStays(w, a, o, m);
      } else {
        NewMailRightful(w, a, o, m);
      }
    }
  }

  lemma {:induction false} RunKeepsInvariant(w: World, run: seq<Action>, o: SlotOptions)
    requires Invariant(w, o.max) && 0 <= o.max && Possible(w, run, o)
    ensures Invariant(After(w, run, o), o.max)
    decreases |run|
  {
    hide Apply, Enabled, StoresBounded, InstalledNamed, SessionsNamed, MailRightful;
    if run != [] {
      ApplyKeepsStores(w, run[0], o);
      ApplyKeepsNames(w, run[0], o);
      ApplyKeepsMail(w, run[0], o);
      RunKeepsInvariant(Apply(w, run[0], o), run[1..], o);
    }
  }

  lemma InitInvariant(w: World, max: int)
    requires Init(w)
    ensures Invariant(w, max)
  {
  }

  // ---------- The shared limit ----------

  /** The sessions running `fn` on a slot this store granted. */
  function RunningOn(w: World, store: Store): set<string> {
    set h | h in w.sessions && w.sessions[h].phase.Running? && w.sessions[h].phase.granter == store
  }

  predicate HoldsLease(w: World, store: Store, holder: string) {
    var h := In(w, store).holders;
    holder in h && h[holder] > w.now
  }

  /** The sessions among them whose lease the store no longer has. */
  function LostOn(w: World, store: Store): set<string> {
    set h | h in RunningOn(w, store) && !HoldsLease(w, store, h)
  }

  /** Across every interleaving of replicas, failed calls, late messages and backend swaps: the
      sessions running on a live lease of one store never exceed `max`, so the sessions running on
      a slot of that store never exceed `max` by more than the leases it lost. */
  lemma SharedLimit(init: World, run: seq<Action>, o: SlotOptions, store: Store)
    requires Init(init) && Possible(init, run, o) && 0 <= o.max
    ensures var w := After(init, run, o);
            && |RunningOn(w, store) - LostOn(w, store)| <= o.max
            && |RunningOn(w, store)| <= o.max + |LostOn(w, store)|
  {
    hide *;
    InitInvariant(init, o.max);
    RunKeepsInvariant(init, run, o);
    LimitInState(After(init, run, o), o.max, store);
  }

  lemma LimitInState(w: World, max: int, store: Store)
    requires Invariant(w, max) && 0 <= max
    ensures |RunningOn(w, store) - LostOn(w, store)| <= max
    ensures |RunningOn(w, store)| <= max + |LostOn(w, store)|
  {
    hide InstalledNamed, SessionsNamed, MailRightful, WellFormed;
    var live := RunningOn(w, store) - LostOn(w, store);
    SubsetSize(live, LiveHolders(In(w, store).holders, w.now).Keys);
    assert RunningOn(w, store) == live + LostOn(w, store);
  }

  /** Every renewal and release that carries a grant is addressed to the store that granted, and
      carries its own session's grant, wherever the backends were swapped meanwhile. */
  lemma GrantsReachTheirStore(init: World, run: seq<Action>, o: SlotOptions, m: Message)
    requires Init(init) && Possible(init, run, o) && 0 <= o.max && m in After(init, run, o).mail
    ensures var w := After(init, run, o);
            && (m.Renewal? ==> GrantedBy(w, m.holder, m.grant, m.store))
            && (m.Release? && m.carried.Some? ==>
                  GrantedBy(w, m.holder, m.carried.value, m.store) && w.sessions[m.holder].phase.Finished?)
  {
    hide After, Possible, StoresBounded, InstalledNamed, SessionsNamed;
    InitInvariant(init, o.max);
    RunKeepsInvariant(init, run, o);
    assert Rightful(After(init, run, o), m);
  }

  lemma OthersKeepLease(s: Slots, max: int, e: Event, holder: string)
    requires holder in LiveHolders(s.holders, e.at)
    requires e.op.Acquire? || e.op.Renew? ==> e.op.leaseMs >= 1
    requires e.op.Release? ==> e.op.holder != holder
    ensures holder in LiveHolders(Step(s, max, e).holders, e.at)
  {
    hide Admits, LiveQueue, Remove, Put;
  }

  /** A running session loses a live lease only as its time runs out, or to the release its own
      failed acquire sent to that store: never to another session, a swap or a sweep. */
  lemma LeaseLostOnlyBy(w: World, a: Action, o: SlotOptions, holder: string, store: Store)
    requires Invariant(w, o.max) && Enabled(w, a) && o.leaseMs >= 1
    requires holder in RunningOn(w, store) && HoldsLease(w, store, holder)
    requires !HoldsLease(Apply(w, a, o), store, holder)
    ensures a.Tick? || a == Deliver(Message.Release(store, holder, None))
  {
    hide Posted, Taken, AcquireOn, RenewOn, ReleaseOn, Drop, StoresBounded, InstalledNamed, SessionsNamed;
    var s := In(w, store);
    assert holder in LiveHolders(s.holders, w.now);
    match a {
      case Ask(h) => OthersKeepLease(s, o.max, Event(w.now, Op.Acquire(h, o.leaseMs, o.queueTtlMs)), holder);
      case Serve(h) => OthersKeepLease(s, o.max, Event(w.now, Op.Acquire(h, o.leaseMs, o.queueTtlMs)), holder);
      case Fail(h) => OthersKeepLease(s, o.max, Event(w.now, Op.Acquire(h, o.leaseMs, o.queueTtlMs)), holder);
      case Sweep(_) => OthersKeepLease(s, o.max, Event(w.now, Op.Sweep), holder);
      case Deliver(m) =>
        assert Rightful(w, m);
        match m {
          case Renewal(_, h, _) => OthersKeepLease(s, o.max, Event(w.now, Op.Renew(h, o.leaseMs)), holder);
          case LateAcquire(_, h) => OthersKeepLease(s, o.max, Event(w.now, Op.Acquire(h, o.leaseMs, o.queueTtlMs)), holder);
          case Release(_, h, _) =>
            if h != holder {
              OthersKeepLease(s, o.max, Event(w.now, Op.Release(h)), holder);
            }
        }
      case _ =>
    }
  }

  // ---------- Messages that arrive late ----------

  /** What is on its way stays so until it is delivered or lost. */
  lemma MailStays(w: World, a: Action, o: SlotOptions, m: Message)
    requires Enabled(w, a) && m in w.mail && a != Deliver(m) && a != Lose(m)
    ensures m in Apply(w, a, o).mail
  {
    hide Posted, Taken, AcquireOn, RenewOn, ReleaseOn, Drop;
  }

  lemma {:induction false} MailStaysAlong(w: World, run: seq<Action>, o: SlotOptions, m: Message)
    requires Possible(w, run, o) && m in w.mail && Deliver(m) !in run && Lose(m) !in run
    ensures m in After(w, run, o).mail
    decreases |run|
  {
    hide Apply, Enabled;
    if run != [] {
      MailStays(w, run[0], o, m);
      MailStaysAlong(Apply(w, run[0], o), run[1..], o, m);
    }
  }

  /** A release frees the slot and the place of its holder whenever it arrives, and takes nobody else's lease. */
  lemma ReleaseLands(w: World, o: SlotOptions, m: Message)
    requires m in w.mail && m.Release?
    ensures var after := Apply(w, Deliver(m), o);
            && !HoldsLease(after, m.store, m.holder) && !Waits(In(after, m.store).queue, m.holder)
            && forall x :: x != m.holder ==> (HoldsLease(after, m.store, x) <==> HoldsLease(w, m.store, x))
  {
    RemoveContents(In(w, m.store).queue, m.holder);
    hide Remove;
  }

  /** A renewal prolongs a lease that lives when it arrives to a whole lease from then; a lease that has
      lapsed stays lost. */
  lemma RenewalLands(w: World, o: SlotOptions, m: Message)
    requires m in w.mail && m.Renewal?
    ensures var h := In(Apply(w, Deliver(m), o), m.store).holders;
            if HoldsLease(w, m.store, m.holder) then m.holder in h && h[m.holder] == w.now + o.leaseMs
            else m.holder !in h
  {
    hide LiveQueue;
  }

  /** The release of a session that finishes: addressed to the store that granted, while that is installed. */
  function ReleaseOf(w: World, holder: string): Message
    requires Known(w, holder) && w.sessions[holder].phase.Running?
  {
    var p := w.sessions[holder].phase;
    Message.Release(p.granter, holder, Some(p.grant))
  }

  function RenewalOf(w: World, holder: string): Message
    requires Known(w, holder) && w.sessions[holder].phase.Running?
  {
    var p := w.sessions[holder].phase;
    Renewal(p.granter, holder, p.grant)
  }

  /** Whether the store that granted can be reached still: the replica's own memory, or a backend that has not
      been replaced since. */
  predicate StillReached(w: World, holder: string)
    requires Known(w, holder) && w.sessions[holder].phase.Running?
  {
    var grant, installed := w.sessions[holder].phase.grant, w.replicas[w.sessions[holder].replica];
    grant.LocalGrant? || (installed.backend.Some? && installed.generation == grant.generation)
  }

  /** When it cannot, neither a renewal nor a release is sent anywhere. */
  lemma UnreachedGetsNothing(w: World, holder: string, o: SlotOptions)
    requires Known(w, holder) && w.sessions[holder].phase.Running? && !StillReached(w, holder)
    ensures Apply(w, Action.Renew(holder), o).mail == w.mail && Apply(w, Finish(holder), o).mail == w.mail
  {
  }

  lemma FinishSends(w: World, holder: string, o: SlotOptions)
    requires Invariant(w, o.max) && Enabled(w, Finish(holder))
    requires StillReached(w, holder)
    ensures ReleaseOf(w, holder) in Apply(w, Finish(holder), o).mail
  {
    hide StoresBounded, MailRightful;
    assert SessionNamed(w, w.sessions[holder]);
  }

  lemma RenewSends(w: World, holder: string, o: SlotOptions)
    requires Invariant(w, o.max) && Enabled(w, Action.Renew(holder))
    requires StillReached(w, holder)
    ensures RenewalOf(w, holder) in Apply(w, Action.Renew(holder), o).mail
  {
    hide StoresBounded, MailRightful;
    assert SessionNamed(w, w.sessions[holder]);
  }

  /** A session that finishes sends its release to the store that granted, while that is installed; however
      long it is under way and whatever happens meanwhile, it frees the slot there when it arrives. */
  lemma FinishReleases(init: World, history: seq<Action>, o: SlotOptions, holder: string, later: seq<Action>)
    requires Init(init) && Possible(init, history, o) && 0 <= o.max
    requires Enabled(After(init, history, o), Finish(holder))
    requires Possible(Apply(After(init, history, o), Finish(holder), o), later, o)
    ensures var w := After(init, history, o);
            var arriving := After(Apply(w, Finish(holder), o), later, o);
            var release := ReleaseOf(w, holder);
            StillReached(w, holder)
            && Deliver(release) !in later && Lose(release) !in later ==>
              && release in arriving.mail
              && !HoldsLease(Apply(arriving, Deliver(release), o), release.store, holder)
  {
    hide After, Apply, Invariant, Init, HoldsLease, Possible;
    InitInvariant(init, o.max);
    RunKeepsInvariant(init, history, o);
    var w := After(init, history, o);
    var release := ReleaseOf(w, holder);
    if StillReached(w, holder)
       && Deliver(release) !in later && Lose(release) !in later {
      FinishSends(w, holder, o);
      MailStaysAlong(Apply(w, Finish(holder), o), later, o, release);
      ReleaseLands(After(Apply(w, Finish(holder), o), later, o), o, release);
    }
  }

  /** A renewal likewise goes to the store that granted, and prolongs the lease if that lives when it arrives. */
  lemma RenewProlongs(init: World, history: seq<Action>, o: SlotOptions, holder: string, later: seq<Action>)
    requires Init(init) && Possible(init, history, o) && 0 <= o.max
    requires Enabled(After(init, history, o), Action.Renew(holder))
    requires Possible(Apply(After(init, history, o), Action.Renew(holder), o), later, o)
    ensures var w := After(init, history, o);
            var arriving := After(Apply(w, Action.Renew(holder), o), later, o);
            var renewal := RenewalOf(w, holder);
            StillReached(w, holder)
            && Deliver(renewal) !in later && Lose(renewal) !in later ==>
              && renewal in arriving.mail
              && (HoldsLease(arriving, renewal.store, holder) ==>
                    var h := In(Apply(arriving, Deliver(renewal), o), renewal.store).holders;
                    holder in h && h[holder] == arriving.now + o.leaseMs)
  {
    hide After, Apply, Invariant, Init, HoldsLease, Possible;
    InitInvariant(init, o.max);
    RunKeepsInvariant(init, history, o);
    var w := After(init, history, o);
    var renewal := RenewalOf(w, holder);
    if StillReached(w, holder)
       && Deliver(renewal) !in later && Lose(renewal) !in later {
      RenewSends(w, holder, o);
      MailStaysAlong(Apply(w, Action.Renew(holder), o), later, o, renewal);
      RenewalLands(After(Apply(w, Action.Renew(holder), o), later, o), o, renewal);
    }
  }
}

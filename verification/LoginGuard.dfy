/** The dashboard login's order of take, verify, fail or refund (src/pages/plugins/auth-login.plugin.tsx:196-330)
    on the counters of several replicas (src/utils/shared-store.ts:497-574): every section between two
    awaits is one action. A call to the shared store is sent, served and answered in separate actions,
    or fails, and what was sent may be served late or never. */
module LoginGuard {
  import opened Wrappers
  import opened Backends
  import opened WindowCounter

  datatype Limit = Limit(maxAttempts: int, windowMs: int)

  /** A window id as the caller holds it: `s<generation>:<id>` or `l:<id>`. */
  datatype Ticket = SharedTicket(generation: nat, id: nat) | LocalTicket(id: nat)

  /** The record of one counted take, which the code does not keep: where it counted and for which
      attempt. `abandoned` when the caller never learned of it, `givenBack` once a refund landed. */
  datatype Charge = Charge(store: Store, key: string, id: nat, attempt: string, abandoned: bool, givenBack: bool)

  /** A window a take counted in and its place in the record. */
  datatype Counting = Counting(id: nat, charge: nat)

  /** `Failed` is every way out without a session; `Closed` follows the refund, sent or skipped. */
  datatype Phase =
    | Arrived
    | Sent(backend: nat, generation: nat)
    | Served(backend: nat, generation: nat, counting: Option<Counting>)
    | Refused
    | Verifying(ticket: Ticket, charge: nat)
    | Failed(ticket: Ticket, charge: nat)
    | Succeeded(ticket: Ticket, charge: nat)
    | Closed(charge: nat)

  /** `key` is the client's bucket. */
  datatype Attempt = Attempt(replica: string, key: string, phase: Phase)

  /** What is on its way to a shared store: a take given up on before it was served, or a refund. */
  datatype Message =
    | LateTake(backend: nat, key: string, attempt: string)
    | Refund(backend: nat, key: string, id: nat, attempt: string)

  datatype World = World(
    now: int,
    counters: map<Store, Counter>,
    replicas: map<string, Installed>,
    /** The backend each replica had installed at each generation. */
    named: map<(string, nat), nat>,
    attempts: map<string, Attempt>,
    mail: set<Message>,
    charges: seq<Charge>)

  datatype Action =
    | Tick(to: int)
    | Swap(replica: string, backend: Option<nat>)
    | Arrive(attempt: string, replica: string, key: string)
    | Ask(attempt: string)
    | Serve(attempt: string)
    | Answer(attempt: string)
    | Fail(attempt: string)
    | Judge(attempt: string, ok: bool)
    | GiveBack(attempt: string)
    | Deliver(message: Message)
    | Lose(message: Message)
    | Peek(store: Store, key: string)
    | Mark(store: Store, key: string)
    | Sweep(store: Store)

  function In(w: World, store: Store): Counter {
    if store in w.counters then w.counters[store] else EMPTY
  }

  predicate Known(w: World, attempt: string) {
    attempt in w.attempts && w.attempts[attempt].replica in w.replicas
  }

  predicate Enabled(w: World, a: Action) {
    match a
    case Tick(to) => w.now <= to
    case Swap(replica, _) => replica in w.replicas
    case Arrive(attempt, replica, _) => attempt !in w.attempts && replica in w.replicas
    case Ask(attempt) => Known(w, attempt) && w.attempts[attempt].phase.Arrived?
    case Serve(attempt) => Known(w, attempt) && w.attempts[attempt].phase.Sent?
    case Answer(attempt) => Known(w, attempt) && w.attempts[attempt].phase.Served?
    case Fail(attempt) => Known(w, attempt) && (w.attempts[attempt].phase.Sent? || w.attempts[attempt].phase.Served?)
    case Judge(attempt, _) => Known(w, attempt) && w.attempts[attempt].phase.Verifying?
    case GiveBack(attempt) => Known(w, attempt) && w.attempts[attempt].phase.Succeeded?
    case Deliver(m) => m in w.mail
    case Lose(m) => m in w.mail
    case Peek(_, _) => true
    case Mark(_, _) => true
    case Sweep(_) => true
  }

  /** One take of weight 1 that counts nothing when refused (`takeLoginAttempt`); the window it counted in. */
  function TakeAttempt(c: Counter, key: string, limit: Limit, now: int): (Counter, Option<nat>) {
    var o := WindowOptions(limit.maxAttempts, limit.windowMs, 1, 0);
    var (c', d) := TakeOn(c, [key], o, now);
    TakeOneKey(c, key, o, now);
    (c', if d.limited then None else Some(d.windows[key]))
  }

  function WithPhase(w: World, attempt: string, phase: Phase): World
    requires attempt in w.attempts
  {
    w.(attempts := w.attempts[attempt := w.attempts[attempt].(phase := phase)])
  }

  function WithCounter(w: World, store: Store, c: Counter): World {
    w.(counters := w.counters[store := c])
  }

  /** A take served by `store`, and its record if it counted. */
  function CountTake(w: World, store: Store, key: string, attempt: string, abandoned: bool, limit: Limit): (World, Option<Counting>) {
    var (c, id) := TakeAttempt(In(w, store), key, limit, w.now);
    var counted := WithCounter(w, store, c);
    match id
    case None => (counted, None)
    case Some(id) =>
      (counted.(charges := w.charges + [Charge(store, key, id, attempt, abandoned, false)]), Some(Counting(id, |w.charges|)))
  }

  /** The take on the replica's own memory. */
  function AskLocally(w: World, attempt: string, limit: Limit): World
    requires attempt in w.attempts
  {
    var a := w.attempts[attempt];
    var (counted, counting) := CountTake(w, Local(a.replica), a.key, attempt, false, limit);
    WithPhase(counted, attempt,
              if counting.Some? then Verifying(LocalTicket(counting.value.id), counting.value.charge) else Refused)
  }

  /** A refund served by `store`: it lands if the window it names is still the live one. */
  function Refunded(w: World, store: Store, key: string, id: nat, charge: nat): World {
    var live := LiveWindow(In(w, store).entries, key, w.now);
    var refunded := WithCounter(w, store, RefundOn(In(w, store), key, id, w.now));
    if live.Some? && live.value.id == id && charge < |w.charges| then
      refunded.(charges := w.charges[charge := w.charges[charge].(givenBack := true)])
    else refunded
  }

  /** The record of a take served whose answer was lost. */
  function Abandoned(w: World, counting: Option<Counting>): World {
    if counting.Some? && counting.value.charge < |w.charges| then
      w.(charges := w.charges[counting.value.charge := w.charges[counting.value.charge].(abandoned := true)])
    else w
  }

  /** `refundLoginAttempt`: to the store that counted, while it is still installed; else skipped. */
  function GivingBack(w: World, attempt: string): World
    requires Known(w, attempt) && w.attempts[attempt].phase.Succeeded?
  {
    var a := w.attempts[attempt];
    var closed := WithPhase(w, attempt, Closed(a.phase.charge));
    match a.phase.ticket
    case LocalTicket(id) => Refunded(closed, Local(a.replica), a.key, id, a.phase.charge)
    case SharedTicket(generation, id) =>
      var i := w.replicas[a.replica];
      if i.backend.Some? && i.generation == generation then
        closed.(mail := w.mail + {Message.Refund(i.backend.value, a.key, id, attempt)})
      else closed
  }

  function Delivered(w: World, m: Message, limit: Limit): World {
    var w1 := w.(mail := w.mail - {m});
    match m
    case LateTake(backend, key, attempt) => CountTake(w1, Shared(backend), key, attempt, true, limit).0
    case Refund(backend, key, id, attempt) =>
      if attempt in w.attempts && w.attempts[attempt].phase.Closed? then
        Refunded(w1, Shared(backend), key, id, w.attempts[attempt].phase.charge)
      else w1
  }

  function Apply(w: World, a: Action, limit: Limit): World
    requires Enabled(w, a)
  {
    match a
    case Tick(to) => w.(now := to)
    case Swap(replica, backend) =>
      var generation := w.replicas[replica].generation + 1;
      w.(replicas := w.replicas[replica := Installed(backend, generation)],
         named := if backend.Some? then w.named[(replica, generation) := backend.value] else w.named)
    case Arrive(attempt, replica, key) => w.(attempts := w.attempts[attempt := Attempt(replica, key, Arrived)])
    case Ask(attempt) =>
      var i := w.replicas[w.attempts[attempt].replica];
      if i.backend.Some? then WithPhase(w, attempt, Sent(i.backend.value, i.generation)) else AskLocally(w, attempt, limit)
    case Serve(attempt) =>
      var p := w.attempts[attempt].phase;
      var (counted, counting) := CountTake(w, Shared(p.backend), w.attempts[attempt].key, attempt, false, limit);
      WithPhase(counted, attempt, Served(p.backend, p.generation, counting))
    case Answer(attempt) =>
      var p := w.attempts[attempt].phase;
      WithPhase(w, attempt,
                if p.counting.Some? then Verifying(SharedTicket(p.generation, p.counting.value.id), p.counting.value.charge)
                else Refused)
    case Fail(attempt) =>
      var p := w.attempts[attempt].phase;
      if p.Sent? then
        AskLocally(w.(mail := w.mail + {LateTake(p.backend, w.attempts[attempt].key, attempt)}), attempt, limit)
      else AskLocally(Abandoned(w, p.counting), attempt, limit)
    case Judge(attempt, ok) =>
      var p := w.attempts[attempt].phase;
      WithPhase(w, attempt, if ok then Succeeded(p.ticket, p.charge) else Failed(p.ticket, p.charge))
    case GiveBack(attempt) => GivingBack(w, attempt)
    case Deliver(m) => Delivered(w, m, limit)
    case Lose(m) => w.(mail := w.mail - {m})
    case Peek(store, key) => WithCounter(w, store, PeekOn(In(w, store), key, w.now).0)
    case Mark(store, key) => WithCounter(w, store, MarkOn(In(w, store), key, w.now).0)
    case Sweep(store) => WithCounter(w, store, In(w, store).(entries := PrunedEntries(In(w, store).entries, w.now)))
  }

  /** The generation a replica knew names the backend it had then. */
  ghost predicate Names(w: World, replica: string, generation: nat, backend: nat) {
    (replica, generation) in w.named && w.named[(replica, generation)] == backend
  }

  ghost predicate InstalledNamed(w: World) {
    && (forall r :: r in w.replicas && w.replicas[r].backend.Some? ==>
          Names(w, r, w.replicas[r].generation, w.replicas[r].backend.value))
    && forall r, g :: (r, g) in w.named ==> r in w.replicas && g <= w.replicas[r].generation
  }

  /** No attempt yet, nothing counted anywhere; each replica knows the backend it starts with. */
  ghost predicate Init(w: World) {
    && w.counters == map[] && w.attempts == map[] && w.mail == {} && w.charges == []
    && InstalledNamed(w)
  }

  ghost predicate Possible(w: World, run: seq<Action>, limit: Limit)
    decreases |run|
  {
    run == [] || (Enabled(w, run[0]) && Possible(Apply(w, run[0], limit), run[1..], limit))
  }

  function After(w: World, run: seq<Action>, limit: Limit): World
    requires Possible(w, run, limit)
    decreases |run|
  {
    if run == [] then w else After(Apply(w, run[0], limit), run[1..], limit)
  }
}

/**
 * Readiness, lifecycle and finalizer locks: processes that start, observe, finalize and operate the runtime, taking
 * advisory locks one atomic step at a time, in any interleaving and with any of them dying at any moment.
 */
module Readiness {
  datatype Token = Empty | Token(id: int)

  datatype Holder = Nobody | By(actor: int)

  /** A persistent lock file: its holders and the token written in it. */
  datatype LockFile = LockFile(ex: Holder, sh: set<int>, token: Token)

  /** m-ui starting: BeginRuntimeStartupAt, PublishReady, Close. */
  datatype Startup =
    | Leased | Resetting | TokenWritten(token: int) | Cleared(token: int)
    | Holding(token: int) | Locked(token: int) | Announced(token: int) | Published(token: int)
    | Retracting(token: int) | Retracted

  /** Waiting for readiness: tryAcquireRuntimeReadyGuardAt. */
  datatype Attempt = Observing | Sighted(seen: int) | Peeked(seen: int, owner: int) | Touching | Leaving

  /** Holding the guard: a mere observer, or the native finalizer on its way to the coordinator and back. */
  datatype Guard = Granted(owner: int) | Armed | Rechecking | Commissioned | Withdrawing

  /** preflightNativeFinalizerCore before the guard. */
  datatype Preflight = Probing | LiveSeen | LiveCoordinated | Waiting | Handled

  /** Where a process is. `f` tells a finalizer's guard from an observer's. */
  datatype Pc =
    | Idle
    | Starting(startup: Startup)
    | Watching(f: bool, attempt: Attempt)
    | Guarding(f: bool, guard: Guard)
    | Finalizing(preflight: Preflight)
    | Operating(marked: bool)
    | Gone

  datatype World = World(lease: LockFile, ready: LockFile, marker: LockFile, coordinator: Holder, actors: map<int, Pc>)

  /** What the scheduler lets a process do next. A fault, or the death of the process, may leave a half-written token. */
  datatype Choice =
    | StartUp | Observe | Finalize | Operate | Proceed(token: int) | Quit
    | Fault(wrote: bool, left: Token) | Crash(wrote: bool, left: Token)

  function PcOf(w: World, a: int): Pc {
    if a in w.actors then w.actors[a] else Idle
  }

  // ---------------------------------------------------------------- one process

  /** What a process can find out in one step: which locks it would get, and what the tokens are. */
  datatype View = View(leaseEx: bool, leaseSh: bool, readyEx: bool, readySh: bool, markerEx: bool, markerSh: bool,
                       coordinator: bool, owner: int, leaseToken: Token, readyToken: Token)

  datatype Op = Keep | TakeEx | TakeSh | Drop

  datatype Write = Leave | Put(token: Token)

  datatype Effect = Effect(lease: Op, ready: Op, marker: Op, coordinator: Op,
                           leaseToken: Write, readyToken: Write, next: Pc)

  function Go(pc: Pc): Effect {
    Effect(Keep, Keep, Keep, Keep, Leave, Leave, pc)
  }

  function OnLease(op: Op, pc: Pc): Effect {
    Effect(op, Keep, Keep, Keep, Leave, Leave, pc)
  }

  function OnReady(op: Op, pc: Pc): Effect {
    Effect(Keep, op, Keep, Keep, Leave, Leave, pc)
  }

  function OnMarker(op: Op, pc: Pc): Effect {
    Effect(Keep, Keep, op, Keep, Leave, Leave, pc)
  }

  function OnCoordinator(op: Op, pc: Pc): Effect {
    Effect(Keep, Keep, Keep, op, Leave, Leave, pc)
  }

  function Writing(leaseToken: Write, readyToken: Write, pc: Pc): Effect {
    Effect(Keep, Keep, Keep, Keep, leaseToken, readyToken, pc)
  }

  /** A failed BeginRuntimeStartupAt unlocks and closes both files. */
  function Abandon(leaseToken: Write, readyToken: Write): Effect {
    Effect(Drop, Drop, Keep, Keep, leaseToken, readyToken, Gone)
  }

  /** Close every handle: what the death of the process comes to for its locks. */
  const LET_GO := Effect(Drop, Drop, Drop, Drop, Leave, Leave, Gone)

  function Torn(c: Choice): Write {
    if (c.Fault? || c.Crash?) && c.wrote then Put(c.left) else Leave
  }

  /** The process dies, in the middle of a token's write if it was at one. */
  function Die(pc: Pc, c: Choice): Effect {
    if !pc.Starting? then LET_GO
    else
      match pc.startup
      case Resetting => LET_GO.(leaseToken := Torn(c))
      case TokenWritten(_) => LET_GO.(readyToken := Torn(c))
      case Locked(_) => LET_GO.(readyToken := Torn(c))
      case Retracting(_) => LET_GO.(readyToken := Torn(c))
      case _ => LET_GO
  }

  /** The first step of each role. */
  function Enter(c: Choice, v: View): Effect {
    match c
    case StartUp => if v.leaseEx then OnLease(TakeEx, Starting(Leased)) else Go(Gone)
    case Observe => if v.leaseSh then OnLease(TakeSh, Watching(false, Observing)) else Go(Gone)
    case Finalize => if v.markerSh then OnMarker(TakeSh, Finalizing(Probing)) else Go(Finalizing(LiveSeen))
    case Operate => if v.coordinator then OnCoordinator(TakeEx, Operating(false)) else Go(Gone)
    case _ => Go(Idle)
  }

  /** BeginRuntimeStartupAt, from the lease on; an error unlocks and closes whatever is open. */
  function Begin(s: Startup, c: Choice, v: View): Effect {
    match s
    case Leased =>
      if c.Proceed? && v.readyEx then OnReady(TakeEx, Starting(Resetting))
      else if c.Proceed? || c.Fault? then OnLease(Drop, Gone)
      else Go(Starting(s))
    case Resetting =>
      if c.Proceed? then Writing(Put(Token(c.token)), Leave, Starting(TokenWritten(c.token)))
      else if c.Fault? then Abandon(Torn(c), Leave)
      else Go(Starting(s))
    case TokenWritten(t) =>
      if c.Proceed? then Writing(Leave, Put(Empty), Starting(Cleared(t)))
      else if c.Fault? then Abandon(Leave, Torn(c))
      else Go(Starting(s))
    case Cleared(t) =>
      if c.Proceed? then OnReady(Drop, Starting(Holding(t)))
      else if c.Fault? then Abandon(Leave, Leave)
      else Go(Starting(s))
    case _ => Go(Starting(s))
  }

  /** PublishReady and Close. */
  function Publish(s: Startup, c: Choice, v: View): Effect {
    match s
    case Holding(t) =>
      if c.Proceed? && v.readyEx then OnReady(TakeEx, Starting(Locked(t)))
      else if c.Quit? then OnLease(Drop, Gone)
      else Go(Starting(s))
    case Locked(t) =>
      if c.Proceed? then Writing(Leave, Put(Token(t)), Starting(Announced(t)))
      else if c.Fault? then Effect(Keep, Drop, Keep, Keep, Leave, Torn(c), Starting(Holding(t)))
      else Go(Starting(s))
    case Announced(t) =>
      if c.Proceed? then OnLease(Drop, Starting(Published(t)))
      else if c.Fault? then OnLease(Drop, Starting(Retracting(t)))
      else Go(Starting(s))
    case Published(t) => if c.Quit? then OnReady(Drop, Gone) else Go(Starting(s))
    case Retracting(t) => Writing(Leave, if c.Fault? then Torn(c) else Put(Empty), Starting(Retracted))
    case Retracted => OnReady(Drop, Gone)
    case _ => Go(Starting(s))
  }

  /** Not live: an observer gives up, a finalizer polls again. */
  function NotLive(f: bool): Effect {
    OnLease(Drop, if f then Finalizing(Waiting) else Gone)
  }

  /** tryAcquireRuntimeReadyGuardAt once the lease is shared; an error ends the attempt for good. */
  function Watch(f: bool, t: Attempt, c: Choice, v: View): Effect {
    match t
    case Observing =>
      if c.Fault? then NotLive(false)
      else if v.leaseToken.Empty? then NotLive(f)
      else Go(Watching(f, Sighted(v.leaseToken.id)))
    case Sighted(seen) =>
      if c.Fault? then NotLive(false)
      else if v.readySh then OnReady(TakeSh, Watching(f, Touching))
      else Go(Watching(f, Peeked(seen, v.owner)))
    case Peeked(seen, owner) =>
      if c.Fault? then NotLive(false)
      else if v.readyToken == Token(seen) then Go(Guarding(f, Granted(owner)))
      else NotLive(f)
    case Touching => OnReady(Drop, Watching(f && !c.Fault?, Leaving))
    case Leaving => NotLive(f)
  }

  /** preflightNativeFinalizerCore up to the guard. */
  function Prepare(s: Preflight, c: Choice, v: View): Effect {
    match s
    case Probing => OnMarker(Drop, if c.Fault? then Gone else Finalizing(Waiting))
    case LiveSeen =>
      if c.Fault? then Go(Gone)
      else if v.coordinator then OnCoordinator(TakeEx, Finalizing(LiveCoordinated))
      else Go(Finalizing(Handled))
    case LiveCoordinated => OnCoordinator(Drop, Gone)
    case Waiting =>
      if c.Quit? || c.Fault? then Go(Gone)
      else if v.leaseSh then OnLease(TakeSh, Watching(true, Observing))
      else Go(Finalizing(s))
    case Handled => Go(Finalizing(s))
  }

  /** From the guard to the coordinator and back; an observer just closes its guard. */
  function Commission(f: bool, g: Guard, c: Choice, v: View): Effect {
    match g
    case Granted(_) =>
      if !f then (if c.Quit? then NotLive(false) else Go(Guarding(f, g)))
      else if c.Fault? || !v.coordinator then Go(Guarding(f, Withdrawing))
      else OnCoordinator(TakeEx, Guarding(f, Armed))
    case Armed =>
      if c.Fault? || !v.markerSh then OnCoordinator(Drop, Guarding(f, Withdrawing))
      else OnMarker(TakeSh, Guarding(f, Rechecking))
    case Rechecking =>
      if c.Fault? then Effect(Keep, Keep, Drop, Drop, Leave, Leave, Guarding(f, Withdrawing))
      else OnMarker(Drop, Guarding(f, Commissioned))
    case Commissioned =>
      if c.Quit? then OnCoordinator(Drop, Guarding(f, Withdrawing)) else Go(Guarding(f, g))
    case Withdrawing => OnLease(Drop, Gone)
  }

  /** A lifecycle operation marks itself only while it holds the coordinator. */
  function Operation(marked: bool, c: Choice, v: View): Effect {
    if marked then OnMarker(Drop, Operating(false))
    else if c.Proceed? && v.markerEx then OnMarker(TakeEx, Operating(true))
    else OnCoordinator(Drop, Gone)
  }

  function Move(pc: Pc, c: Choice, v: View): Effect {
    if c.Crash? then Die(pc, c)
    else
      match pc
      case Idle => Enter(c, v)
      case Starting(s) =>
        if s.Leased? || s.Resetting? || s.TokenWritten? || s.Cleared? then Begin(s, c, v) else Publish(s, c, v)
      case Watching(f, t) => Watch(f, t, c, v)
      case Guarding(f, g) => Commission(f, g, c, v)
      case Finalizing(s) => Prepare(s, c, v)
      case Operating(marked) => Operation(marked, c, v)
      case Gone => Go(Gone)
  }

  /** The locks one process holds: the lease, the ready and the marker file, each exclusive or shared; the coordinator. */
  datatype Locks = Locks(leaseEx: bool, leaseSh: bool, readyEx: bool, readySh: bool, markerEx: bool, markerSh: bool,
                         coordinator: bool)

  predicate HoldsLease(s: Startup) {
    !s.Published? && !s.Retracting? && !s.Retracted?
  }

  predicate HoldsReady(s: Startup) {
    !s.Leased? && !s.Holding?
  }

  /** What a process at this place in the protocol must hold. */
  function Due(pc: Pc): Locks {
    match pc
    case Idle => Locks(false, false, false, false, false, false, false)
    case Starting(s) => Locks(HoldsLease(s), false, HoldsReady(s), false, false, false, false)
    case Watching(_, t) => Locks(false, true, false, t.Touching?, false, false, false)
    case Guarding(_, g) => Locks(false, true, false, false, false, g.Rechecking?, g.Armed? || g.Rechecking? || g.Commissioned?)
    case Finalizing(s) => Locks(false, false, false, false, false, s.Probing?, s.LiveCoordinated?)
    case Operating(marked) => Locks(false, false, false, false, marked, false, true)
    case Gone => Locks(false, false, false, false, false, false, false)
  }

  /** What an effect makes of the locks held before it. */
  function After(h: Locks, e: Effect): Locks {
    Locks(HeldEx(h.leaseEx, e.lease), HeldSh(h.leaseSh, e.lease), HeldEx(h.readyEx, e.ready), HeldSh(h.readySh, e.ready),
          HeldEx(h.markerEx, e.marker), HeldSh(h.markerSh, e.marker), HeldEx(h.coordinator, e.coordinator))
  }

  predicate HeldEx(held: bool, op: Op) {
    op.TakeEx? || (held && op.Keep?)
  }

  predicate HeldSh(held: bool, op: Op) {
    op.TakeSh? || (held && op.Keep?)
  }

  /** Only free locks are taken. */
  predicate Available(ex: bool, sh: bool, op: Op) {
    (op.TakeEx? ==> ex) && (op.TakeSh? ==> sh)
  }

  predicate Legal(v: View, e: Effect) {
    && Available(v.leaseEx, v.leaseSh, e.lease) && Available(v.readyEx, v.readySh, e.ready)
    && Available(v.markerEx, v.markerSh, e.marker) && Available(v.coordinator, false, e.coordinator)
  }

  /**
   * The lease token changes only under both exclusive locks, the ready token only under its own, and nobody locks the
   * ready file exclusively without the lease.
   */
  predicate WritesUnderLock(h: Locks, e: Effect) {
    && (e.leaseToken.Put? ==> h.leaseEx && h.readyEx) && (e.readyToken.Put? ==> h.readyEx)
    && (e.ready.TakeEx? ==> h.leaseEx)
  }

  /** The token a startup has written to the lease. */
  function Minted(s: Startup): Token {
    if s.Leased? || s.Resetting? || s.Retracted? then Empty else Token(s.token)
  }

  /** The tokens a process relies on. */
  predicate Relies(pc: Pc, leaseToken: Token, readyToken: Token) {
    match pc
    case Starting(s) =>
      && (Minted(s).Token? ==> leaseToken == Minted(s))
      && (s.Announced? || s.Published? || s.Retracting? ==> readyToken == Minted(s))
    case Watching(_, t) => t.Sighted? || t.Peeked? ==> leaseToken == Token(t.seen)
    case _ => true
  }

  function Written(token: Token, write: Write): Token {
    if write.Put? then write.token else token
  }

  /** The locks a process holds after a step are the ones due at its new place. */
  predicate Balanced(pc: Pc, e: Effect) {
    After(Due(pc), e) == Due(e.next)
  }

  lemma EnterBalances(c: Choice, v: View)
    ensures Balanced(Idle, Enter(c, v)) && Legal(v, Enter(c, v))
  {
  }

  lemma BeginBalances(s: Startup, c: Choice, v: View)
    ensures Balanced(Starting(s), Begin(s, c, v)) && Legal(v, Begin(s, c, v))
  {
  }

  lemma PublishBalances(s: Startup, c: Choice, v: View)
    ensures Balanced(Starting(s), Publish(s, c, v)) && Legal(v, Publish(s, c, v))
  {
  }

  lemma WatchBalances(f: bool, t: Attempt, c: Choice, v: View)
    ensures Balanced(Watching(f, t), Watch(f, t, c, v)) && Legal(v, Watch(f, t, c, v))
  {
  }

  lemma PrepareBalances(s: Preflight, c: Choice, v: View)
    ensures Balanced(Finalizing(s), Prepare(s, c, v)) && Legal(v, Prepare(s, c, v))
  {
  }

  lemma CommissionBalances(f: bool, g: Guard, c: Choice, v: View)
    ensures Balanced(Guarding(f, g), Commission(f, g, c, v)) && Legal(v, Commission(f, g, c, v))
  {
  }

  lemma OperationBalances(marked: bool, c: Choice, v: View)
    ensures Balanced(Operating(marked), Operation(marked, c, v)) && Legal(v, Operation(marked, c, v))
  {
  }

  lemma MoveBalances(pc: Pc, c: Choice, v: View)
    ensures Balanced(pc, Move(pc, c, v)) && Legal(v, Move(pc, c, v))
  {
    hide Balanced, Legal, Die, Enter, Begin, Publish, Watch, Prepare, Commission, Operation;
    if c.Crash? || pc.Gone? {
      GoneBalances(pc, c, v);
    } else {
      match pc {
        case Idle => EnterBalances(c, v);
        case Starting(s) =>
          BeginBalances(s, c, v);
          PublishBalances(s, c, v);
        case Watching(f, t) => WatchBalances(f, t, c, v);
        case Guarding(f, g) => CommissionBalances(f, g, c, v);
        case Finalizing(s) => PrepareBalances(s, c, v);
        case Operating(marked) => OperationBalances(marked, c, v);
      }
    }
  }

  lemma GoneBalances(pc: Pc, c: Choice, v: View)
    ensures Balanced(pc, Die(pc, c)) && Balanced(Gone, Go(Gone)) && Legal(v, Die(pc, c)) && Legal(v, Go(Gone))
  {
  }

  lemma MoveWritesUnderLock(pc: Pc, c: Choice, v: View)
    ensures WritesUnderLock(Due(pc), Move(pc, c, v))
  {
  }

  predicate IsHolding(pc: Pc) {
    pc.Starting? && pc.startup.Holding?
  }

  /** Whoever comes to hold the lease with a reset ready file has just let go of that file. */
  predicate FreesReady(pc: Pc, e: Effect) {
    IsHolding(e.next) ==> (IsHolding(pc) && e.ready.Keep?) || (Due(pc).readyEx && e.ready.Drop?)
  }

  lemma MoveFreesReady(pc: Pc, c: Choice, v: View)
    ensures FreesReady(pc, Move(pc, c, v))
  {
  }

  /** The owner a guard, or an attempt about to be granted one, has seen. */
  function Seen(pc: Pc): Holder {
    if pc.Watching? && pc.attempt.Peeked? then By(pc.attempt.owner)
    else if pc.Guarding? && pc.guard.Granted? then By(pc.guard.owner)
    else Nobody
  }

  /** An owner is seen only by finding the ready lock taken. */
  lemma MoveSees(pc: Pc, c: Choice, v: View)
    ensures var e := Move(pc, c, v);
      Seen(e.next).By? ==>
        Seen(e.next) == Seen(pc) || (pc.Watching? && pc.attempt.Sighted? && !v.readySh && Seen(e.next) == By(v.owner))
  {
  }

  /** Where the single steps lead that end an attempt, a publication or a preflight. */
  lemma MoveEnds(pc: Pc, c: Choice, v: View)
    ensures var next := Move(pc, c, v).next;
      && (pc.Watching? && pc.f && !c.Fault? && !c.Crash? ==> next.Watching? || next.Guarding? || next == Finalizing(Waiting))
      && (pc.Watching? && !pc.f ==> next.Watching? || next.Guarding? || next.Gone?)
      && (next.Starting? && next.startup.Published? && next != pc ==> c.Proceed? && pc.Starting? && pc.startup.Announced?)
      && (next == Finalizing(Handled) && next != pc ==> pc == Finalizing(LiveSeen) && !v.coordinator)
  {
  }

  lemma MoveDecides(pc: Pc, c: Choice, v: View)
    ensures var e := Move(pc, c, v);
      && (e.next.Guarding? && !pc.Guarding? ==> pc.Watching? && pc.attempt.Peeked? && v.readyToken == Token(pc.attempt.seen))
      && (pc.Starting? && (pc.startup.TokenWritten? || pc.startup.Retracting?) && c.Proceed? ==> e.readyToken == Put(Empty))
  {
  }

  lemma MoveKeepsTokens(pc: Pc, c: Choice, v: View)
    requires Relies(pc, v.leaseToken, v.readyToken)
    ensures var e := Move(pc, c, v);
      Relies(e.next, Written(v.leaseToken, e.leaseToken), Written(v.readyToken, e.readyToken))
  {
  }

  // ---------------------------------------------------------------- all processes

  predicate FreeForEx(l: LockFile) {
    l.ex.Nobody? && l.sh == {}
  }

  function Look(w: World): View {
    View(FreeForEx(w.lease), w.lease.ex.Nobody?, FreeForEx(w.ready), w.ready.ex.Nobody?, FreeForEx(w.marker), w.marker.ex.Nobody?,
         w.coordinator.Nobody?, if w.ready.ex.By? then w.ready.ex.actor else 0, w.lease.token, w.ready.token)
  }

  function Turn(l: LockFile, a: int, op: Op, write: Write): LockFile {
    LockFile(Owner(l.ex, a, op),
             if op.TakeSh? then l.sh + {a} else if op.Drop? then l.sh - {a} else l.sh,
             Written(l.token, write))
  }

  function Owner(ex: Holder, a: int, op: Op): Holder {
    if op.TakeEx? then By(a) else if op.Drop? && ex == By(a) then Nobody else ex
  }

  function Perform(w: World, a: int, e: Effect): World {
    World(Turn(w.lease, a, e.lease, e.leaseToken), Turn(w.ready, a, e.ready, e.readyToken), Turn(w.marker, a, e.marker, Leave),
          Owner(w.coordinator, a, e.coordinator), w.actors[a := e.next])
  }

  function Step(w: World, a: int, c: Choice): World {
    Perform(w, a, Move(PcOf(w, a), c, Look(w)))
  }

  function Run(w: World, schedule: seq<(int, Choice)>): World
    decreases schedule
  {
    if schedule == [] then w else Run(Step(w, schedule[0].0, schedule[0].1), schedule[1..])
  }

  const UNUSED := LockFile(Nobody, {}, Empty)
  const NOBODY := World(UNUSED, UNUSED, UNUSED, Nobody, map[])

  /** What the lock table says a process holds. */
  function Held(w: World, a: int): Locks {
    Locks(w.lease.ex == By(a), a in w.lease.sh, w.ready.ex == By(a), a in w.ready.sh,
          w.marker.ex == By(a), a in w.marker.sh, w.coordinator == By(a))
  }

  ghost predicate Sane(l: LockFile) {
    l.ex.By? ==> l.sh == {}
  }

  /**
   * The lock table says of a process exactly what its place in the protocol says, its tokens stand, and a startup that
   * has reset the ready file will find it free.
   */
  ghost predicate Accounted(w: World, a: int) {
    && Held(w, a) == Due(PcOf(w, a)) && Relies(PcOf(w, a), w.lease.token, w.ready.token)
    && (IsHolding(PcOf(w, a)) ==> w.ready.ex.Nobody?)
  }

  ghost predicate Invariant(w: World) {
    Sane(w.lease) && Sane(w.ready) && Sane(w.marker) && forall a :: Accounted(w, a)
  }

  lemma TurnFacts(l: LockFile, a: int, op: Op, write: Write)
    requires Sane(l) && Available(FreeForEx(l), l.ex.Nobody?, op)
    ensures var m := Turn(l, a, op, write);
      && Sane(m) && m.token == Written(l.token, write) && (m.ex == By(a) <==> HeldEx(l.ex == By(a), op)) && (a in m.sh <==> HeldSh(a in l.sh, op))
      && (forall b :: b != a ==> (m.ex == By(b) <==> l.ex == By(b)) && (b in m.sh <==> b in l.sh))
  {
  }

  lemma OthersAreLeftAlone(w: World, a: int, e: Effect, b: int)
    requires Invariant(w) && Legal(Look(w), e) && WritesUnderLock(Held(w, a), e) && a != b
    ensures Accounted(Perform(w, a, e), b)
  {
    hide Turn;
    assert Accounted(w, b);
    TurnFacts(w.lease, a, e.lease, e.leaseToken);
    TurnFacts(w.ready, a, e.ready, e.readyToken);
    TurnFacts(w.marker, a, e.marker, Leave);
  }

  lemma OwnStepIsAccounted(w: World, a: int, e: Effect)
    requires Invariant(w) && Balanced(PcOf(w, a), e) && Legal(Look(w), e)
    requires Relies(e.next, Written(w.lease.token, e.leaseToken), Written(w.ready.token, e.readyToken))
    requires FreesReady(PcOf(w, a), e)
    ensures Sane(Perform(w, a, e).lease) && Sane(Perform(w, a, e).ready) && Sane(Perform(w, a, e).marker)
    ensures Accounted(Perform(w, a, e), a)
  {
    hide Turn, Due, Relies;
    assert Accounted(w, a);
    TurnFacts(w.lease, a, e.lease, e.leaseToken);
    TurnFacts(w.ready, a, e.ready, e.readyToken);
    TurnFacts(w.marker, a, e.marker, Leave);
  }

  lemma StepKeeps(w: World, a: int, c: Choice)
    requires Invariant(w)
    ensures Invariant(Step(w, a, c))
  {
    hide Move, Perform, Look, Due, Accounted, FreesReady;
    var e := Move(PcOf(w, a), c, Look(w));
    HeldIsDue(w, a);
    LookFacts(w);
    MoveBalances(PcOf(w, a), c, Look(w));
    MoveWritesUnderLock(PcOf(w, a), c, Look(w));
    MoveFreesReady(PcOf(w, a), c, Look(w));
    MoveKeepsTokens(PcOf(w, a), c, Look(w));
    OwnStepIsAccounted(w, a, e);
    forall b ensures Accounted(Perform(w, a, e), b) {
      if a != b {
        OthersAreLeftAlone(w, a, e, b);
      }
    }
  }

  lemma LookFacts(w: World)
    ensures Look(w).leaseToken == w.lease.token && Look(w).readyToken == w.ready.token
  {
  }

  lemma HeldIsDue(w: World, a: int)
    requires Invariant(w)
    ensures Held(w, a) == Due(PcOf(w, a)) && Relies(PcOf(w, a), w.lease.token, w.ready.token)
  {
    assert Accounted(w, a);
  }

  /** Every interleaving of every set of processes keeps the accounts straight. */
  lemma {:induction false} RunKeeps(w: World, schedule: seq<(int, Choice)>)
    requires Invariant(w)
    ensures Invariant(Run(w, schedule))
    decreases schedule
  {
    if schedule != [] {
      StepKeeps(w, schedule[0].0, schedule[0].1);
      RunKeeps(Step(w, schedule[0].0, schedule[0].1), schedule[1..]);
    }
  }

  lemma RunsFromNobody(schedule: seq<(int, Choice)>)
    ensures Invariant(Run(NOBODY, schedule))
  {
    forall a ensures Accounted(NOBODY, a) {}
    RunKeeps(NOBODY, schedule);
  }

  // ---------------------------------------------------------------- what the protocol promises

  predicate HasPublished(pc: Pc) {
    pc.Starting? && !HoldsLease(pc.startup)
  }

  lemma AtMostOnePublishedOwner(w: World, a: int, b: int)
    requires Invariant(w) && HasPublished(PcOf(w, a)) && HasPublished(PcOf(w, b))
    ensures a == b
  {
    HeldIsDue(w, a);
    HeldIsDue(w, b);
  }

  predicate Scheduled(schedule: seq<(int, Choice)>, a: int) {
    exists i :: 0 <= i < |schedule| && schedule[i].0 == a
  }

  lemma StepOfAnother(w: World, a: int, c: Choice, o: int)
    requires a != o
    ensures PcOf(Step(w, a, c), o) == PcOf(w, o)
  {
    hide Move, Look;
  }

  lemma StepWrites(w: World, a: int, c: Choice)
    requires Invariant(w)
    ensures Step(w, a, c).lease.token != w.lease.token || Step(w, a, c).ready.token != w.ready.token ==> w.ready.ex == By(a)
  {
    hide Move, Look, Due;
    MoveWritesUnderLock(PcOf(w, a), c, Look(w));
    HeldIsDue(w, a);
  }

  /**
   * While an owner has published and lives, both tokens are its own, and no interleaving of other processes, failed
   * second startups among them, changes either.
   */
  lemma {:induction false} PublishedOwnerIsUndisturbed(w: World, schedule: seq<(int, Choice)>, o: int)
    requires Invariant(w) && PcOf(w, o).Starting? && PcOf(w, o).startup.Published? && !Scheduled(schedule, o)
    ensures var end, t := Run(w, schedule), Token(PcOf(w, o).startup.token);
      PcOf(end, o) == PcOf(w, o) && end.lease.token == t && end.ready.token == t && end.ready.ex == By(o)
    decreases schedule
  {
    HeldIsDue(w, o);
    if schedule != [] {
      var (a, c) := schedule[0];
      assert a != o;
      StepKeeps(w, a, c);
      StepWrites(w, a, c);
      StepOfAnother(w, a, c, o);
      assert forall i :: 0 <= i < |schedule[1..]| ==> schedule[1..][i] == schedule[i + 1];
      PublishedOwnerIsUndisturbed(Step(w, a, c), schedule[1..], o);
    }
  }

  lemma LeaseKeepsObserversOut(w: World, a: int)
    requires Invariant(w) && w.lease.ex == By(a)
    ensures w.ready.sh == {}
  {
    forall b ensures b !in w.ready.sh {
      HeldIsDue(w, b);
      assert Held(w, b).readySh ==> Held(w, b).leaseSh;
    }
  }

  /** Observers never make a startup's attempt on the ready lock fail: only another published owner can. */
  lemma ReadyIsRefusedOnlyByAPublishedOwner(w: World, a: int)
    requires Invariant(w) && PcOf(w, a) == Starting(Leased) && !Look(w).readyEx
    ensures w.ready.ex.By? && HasPublished(PcOf(w, w.ready.ex.actor))
  {
    HeldIsDue(w, a);
    LeaseKeepsObserversOut(w, a);
    if w.ready.ex.By? {
      HeldIsDue(w, w.ready.ex.actor);
    }
  }

  /** And a startup that got through is never refused the lock when it comes to publish. */
  lemma PublishingIsNeverRefused(w: World, a: int)
    requires Invariant(w) && IsHolding(PcOf(w, a))
    ensures Look(w).readyEx
  {
    HeldIsDue(w, a);
    LeaseKeepsObserversOut(w, a);
    assert Accounted(w, a);
  }

  /** While anybody holds a guard, no startup is under way and none can begin, whatever the others do. */
  lemma {:induction false} GuardBlocksStartups(w: World, schedule: seq<(int, Choice)>, g: int, a: int)
    requires Invariant(w) && PcOf(w, g).Guarding? && !Scheduled(schedule, g)
    ensures var end := Run(w, schedule);
      && PcOf(end, g) == PcOf(w, g) && end.lease.ex.Nobody?
      && (PcOf(end, a).Idle? ==> PcOf(Step(end, a, StartUp), a).Gone?)
    decreases schedule
  {
    HeldIsDue(w, g);
    if schedule != [] {
      var (b, c) := schedule[0];
      assert b != g;
      StepKeeps(w, b, c);
      StepOfAnother(w, b, c, g);
      assert forall i :: 0 <= i < |schedule[1..]| ==> schedule[1..][i] == schedule[i + 1];
      GuardBlocksStartups(Step(w, b, c), schedule[1..], g, a);
    }
  }

  /** A commissioned finalizer has the guard and the coordinator, and no lifecycle operation has the marker. */
  lemma {:induction false} CommissionIsExclusive(w: World, schedule: seq<(int, Choice)>, a: int)
    requires Invariant(w) && PcOf(w, a).Guarding? && PcOf(w, a).guard.Commissioned? && !Scheduled(schedule, a)
    ensures var end := Run(w, schedule);
      PcOf(end, a) == PcOf(w, a) && a in end.lease.sh && end.coordinator == By(a) && end.marker.ex.Nobody?
    decreases schedule
  {
    HeldIsDue(w, a);
    if w.marker.ex.By? {
      HeldIsDue(w, w.marker.ex.actor);
    }
    if schedule != [] {
      var (b, c) := schedule[0];
      assert b != a;
      StepKeeps(w, b, c);
      StepOfAnother(w, b, c, a);
      assert forall i :: 0 <= i < |schedule[1..]| ==> schedule[1..][i] == schedule[i + 1];
      CommissionIsExclusive(Step(w, b, c), schedule[1..], a);
    }
  }

  /** Whatever way a process has left the protocol, it holds nothing. */
  lemma ExitsHoldNothing(w: World, a: int)
    requires Invariant(w) && (PcOf(w, a).Gone? || PcOf(w, a) == Finalizing(Handled))
    ensures Held(w, a) == Locks(false, false, false, false, false, false, false)
  {
    HeldIsDue(w, a);
  }

  /** A marker held exclusively belongs to the holder of the coordinator. */
  lemma MarkerImpliesCoordinator(w: World)
    requires Invariant(w) && w.marker.ex.By?
    ensures w.coordinator == w.marker.ex
  {
    HeldIsDue(w, w.marker.ex.actor);
  }

  // ---------------------------------------------------------------- a guard is granted only past a published owner

  /** At some moment of the run, while `a` was making its attempt, `owner` had published and held the ready lock. */
  ghost predicate Witnessed(schedule: seq<(int, Choice)>, a: int, owner: int) {
    exists k :: 0 <= k <= |schedule| && SawPublished(Run(NOBODY, schedule[..k]), a, owner)
  }

  ghost predicate SawPublished(w: World, a: int, owner: int) {
    PcOf(w, a).Watching? && PcOf(w, a).attempt.Sighted? && HasPublished(PcOf(w, owner)) && w.ready.ex == By(owner)
  }

  lemma PeekingSeesAPublishedOwner(w: World, a: int, c: Choice)
    requires Invariant(w) && Seen(PcOf(Step(w, a, c), a)).By?
    ensures Seen(PcOf(Step(w, a, c), a)) == Seen(PcOf(w, a)) || SawPublished(w, a, Seen(PcOf(Step(w, a, c), a)).actor)
  {
    hide Move, Seen, Turn;
    MoveSees(PcOf(w, a), c, Look(w));
    HeldIsDue(w, a);
    if w.ready.ex.By? {
      HeldIsDue(w, w.ready.ex.actor);
    }
  }

  lemma {:induction false} RunSnoc(w: World, schedule: seq<(int, Choice)>, last: (int, Choice))
    ensures Run(w, schedule + [last]) == Step(Run(w, schedule), last.0, last.1)
    decreases schedule
  {
    if schedule == [] {
      assert [last][1..] == [];
    } else {
      assert (schedule + [last])[1..] == schedule[1..] + [last];
      RunSnoc(Step(w, schedule[0].0, schedule[0].1), schedule[1..], last);
    }
  }

  /** No guard without a published owner that held the ready lock during the very attempt. */
  lemma {:induction false} GuardsAreWitnessed(schedule: seq<(int, Choice)>, a: int)
    requires Seen(PcOf(Run(NOBODY, schedule), a)).By?
    ensures Witnessed(schedule, a, Seen(PcOf(Run(NOBODY, schedule), a)).actor)
    decreases schedule
  {
    if schedule != [] {
      var rest, last := schedule[..|schedule| - 1], schedule[|schedule| - 1];
      assert schedule == rest + [last];
      RunSnoc(NOBODY, rest, last);
      RunsFromNobody(rest);
      var w := Run(NOBODY, rest);
      var owner := Seen(PcOf(Run(NOBODY, schedule), a)).actor;
      if last.0 == a {
        PeekingSeesAPublishedOwner(w, a, last.1);
      } else {
        StepOfAnother(w, last.0, last.1, a);
      }
      if Seen(PcOf(w, a)) == By(owner) {
        GuardsAreWitnessed(rest, a);
        var k :| 0 <= k <= |rest| && SawPublished(Run(NOBODY, rest[..k]), a, owner);
        assert schedule[..k] == rest[..k];
      } else {
        assert schedule[..|rest|] == rest;
      }
    }
  }

  // ---------------------------------------------------------------- what can be had, whatever the others do

  /** How often a process is scheduled. */
  function Turns(schedule: seq<(int, Choice)>, a: int): nat {
    if schedule == [] then 0 else (if schedule[0].0 == a then 1 else 0) + Turns(schedule[1..], a)
  }

  /** Whenever it is scheduled, the process goes on. */
  predicate Proceeds(schedule: seq<(int, Choice)>, a: int) {
    forall i :: 0 <= i < |schedule| && schedule[i].0 == a ==> schedule[i].1.Proceed?
  }

  lemma ProceedsOn(schedule: seq<(int, Choice)>, a: int)
    requires schedule != [] && Proceeds(schedule, a)
    ensures Proceeds(schedule[1..], a)
  {
    assert forall i :: 0 <= i < |schedule[1..]| ==> schedule[1..][i] == schedule[i + 1];
  }

  lemma ScheduledOn(schedule: seq<(int, Choice)>, o: int)
    requires schedule != [] && !Scheduled(schedule, o)
    ensures !Scheduled(schedule[1..], o) && schedule[0].0 != o
  {
    assert forall i :: 0 <= i < |schedule[1..]| ==> schedule[1..][i] == schedule[i + 1];
  }

  /** Where an attempt stands that needs `left` more steps to the guard of an owner with this token. */
  function Attempting(f: bool, left: nat, token: int, owner: int): Pc
    requires left <= 3
  {
    if left == 3 then Watching(f, Observing)
    else if left == 2 then Watching(f, Sighted(token))
    else if left == 1 then Watching(f, Peeked(token, owner))
    else Guarding(f, Granted(owner))
  }

  lemma AttemptAdvances(w: World, a: int, c: Choice, o: int, f: bool, left: nat)
    requires Invariant(w) && PcOf(w, o).Starting? && PcOf(w, o).startup.Published? && c.Proceed? && 1 <= left <= 3
    requires PcOf(w, a) == Attempting(f, left, PcOf(w, o).startup.token, o)
    ensures PcOf(Step(w, a, c), a) == Attempting(f, left - 1, PcOf(w, o).startup.token, o)
  {
    HeldIsDue(w, o);
  }

  /**
   * A guard can be had: while an owner that has published lives, three steps of an attempt are enough, in whatever way
   * everybody else runs in between.
   */
  lemma {:induction false} GuardIsGranted(w: World, schedule: seq<(int, Choice)>, a: int, o: int, f: bool, left: nat)
    requires Invariant(w) && PcOf(w, o).Starting? && PcOf(w, o).startup.Published? && !Scheduled(schedule, o)
    requires left <= 3 && PcOf(w, a) == Attempting(f, left, PcOf(w, o).startup.token, o)
    requires Proceeds(schedule, a) && Turns(schedule, a) <= left
    ensures PcOf(Run(w, schedule), a) == Attempting(f, left - Turns(schedule, a), PcOf(w, o).startup.token, o)
    decreases schedule
  {
    if schedule != [] {
      var (b, c) := schedule[0];
      hide Move, Look, Perform, Accounted;
      ScheduledOn(schedule, o);
      ProceedsOn(schedule, a);
      StepKeeps(w, b, c);
      StepOfAnother(w, b, c, o);
      if b == a {
        AttemptAdvances(w, a, c, o, f, left);
        GuardIsGranted(Step(w, b, c), schedule[1..], a, o, f, left - 1);
      } else {
        StepOfAnother(w, b, c, a);
        GuardIsGranted(Step(w, b, c), schedule[1..], a, o, f, left);
      }
    }
  }

  /** Every role begins whenever the lock it begins with is free, and a finalizer sees a marked operation. */
  lemma RolesBegin(w: World, a: int, c: Choice)
    requires Invariant(w) && PcOf(w, a).Idle? && c.Proceed?
    ensures FreeForEx(w.lease) ==> PcOf(Step(w, a, StartUp), a) == Starting(Leased)
    ensures w.lease.ex.Nobody? ==> PcOf(Step(w, a, Observe), a) == Watching(false, Observing)
    ensures w.marker.ex.By? ==> PcOf(Step(w, a, Finalize), a) == Finalizing(LiveSeen)
    ensures w.coordinator.Nobody? && FreeForEx(w.marker) ==> PcOf(Step(Step(w, a, Operate), a, c), a) == Operating(true)
  {
  }

  /** A finalizer that sees no marked operation goes on to its attempt. */
  lemma FinalizersBegin(w: World, a: int, c: Choice, d: Choice)
    requires PcOf(w, a).Idle? && c.Proceed? && d.Proceed? && w.lease.ex.Nobody? && w.marker.ex.Nobody?
    ensures PcOf(Step(Step(Step(w, a, Finalize), a, c), a, d), a) == Watching(true, Observing)
  {
    var probing := Step(w, a, Finalize);
    assert PcOf(probing, a) == Finalizing(Probing) && probing.lease.ex.Nobody?;
    var waiting := Step(probing, a, c);
    assert PcOf(waiting, a) == Finalizing(Waiting) && waiting.lease.ex.Nobody?;
  }

  /** The steps from a guard to the finalizer's work. */
  function Commissioning(left: nat, owner: int): Pc
    requires left <= 3
  {
    Guarding(true, if left == 3 then Granted(owner) else if left == 2 then Armed else if left == 1 then Rechecking else Commissioned)
  }

  lemma CommissioningAdvances(w: World, a: int, c: Choice, owner: int, left: nat)
    requires Invariant(w) && c.Proceed? && 1 <= left <= 3 && PcOf(w, a) == Commissioning(left, owner)
    requires left == 3 ==> w.coordinator.Nobody?
    ensures PcOf(Step(w, a, c), a) == Commissioning(left - 1, owner)
  {
    HeldIsDue(w, a);
    if w.marker.ex.By? {
      HeldIsDue(w, w.marker.ex.actor);
    }
  }

  /** A finalizer that finds the coordinator free gets to work: the marker cannot stand against it any more. */
  lemma {:induction false} FinalizerIsCommissioned(w: World, schedule: seq<(int, Choice)>, a: int, owner: int, left: nat)
    requires Invariant(w) && left <= 3 && PcOf(w, a) == Commissioning(left, owner)
    requires left == 3 ==> w.coordinator.Nobody? && schedule != [] && schedule[0].0 == a
    requires Proceeds(schedule, a) && Turns(schedule, a) <= left
    ensures PcOf(Run(w, schedule), a) == Commissioning(left - Turns(schedule, a), owner)
    decreases schedule
  {
    if schedule != [] {
      var (b, c) := schedule[0];
      hide Move, Look, Perform, Accounted;
      ProceedsOn(schedule, a);
      StepKeeps(w, b, c);
      if b == a {
        CommissioningAdvances(w, a, c, owner, left);
        FinalizerIsCommissioned(Step(w, b, c), schedule[1..], a, owner, left - 1);
      } else {
        StepOfAnother(w, b, c, a);
        FinalizerIsCommissioned(Step(w, b, c), schedule[1..], a, owner, left);
      }
    }
  }

  /** While a marked operation lives, a finalizer steps aside for it. */
  lemma {:induction false} LiveOperationIsLeftAlone(w: World, schedule: seq<(int, Choice)>, a: int, c: Choice)
    requires Invariant(w) && w.marker.ex.By? && !Scheduled(schedule, w.marker.ex.actor) && a != w.marker.ex.actor
    requires PcOf(w, a) == Finalizing(LiveSeen) && !Scheduled(schedule, a) && c.Proceed?
    ensures PcOf(Step(Run(w, schedule), a, c), a) == Finalizing(Handled)
    decreases schedule
  {
    var o := w.marker.ex.actor;
    HeldIsDue(w, o);
    if schedule != [] {
      var (b, d) := schedule[0];
      ScheduledOn(schedule, o);
      ScheduledOn(schedule, a);
      StepKeeps(w, b, d);
      StepOfAnother(w, b, d, o);
      StepOfAnother(w, b, d, a);
      HeldIsDue(Step(w, b, d), o);
      LiveOperationIsLeftAlone(Step(w, b, d), schedule[1..], a, c);
    }
  }

  ghost predicate NoneHasPublished(w: World) {
    forall b :: !HasPublished(PcOf(w, b))
  }

  /** Where a startup stands that needs `left` more steps to have published; `token` is the one it draws on its way. */
  function Beginning(left: nat, token: int): Pc
    requires left <= 7
  {
    Starting(if left == 7 then Leased else if left == 6 then Resetting else if left == 5 then TokenWritten(token)
             else if left == 4 then Cleared(token) else if left == 3 then Holding(token) else if left == 2 then Locked(token)
             else if left == 1 then Announced(token) else Published(token))
  }

  lemma BeginningAdvances(w: World, a: int, c: Choice, left: nat, token: int)
    requires Invariant(w) && c.Proceed? && 1 <= left <= 7 && PcOf(w, a) == Beginning(left, token)
    requires left == 7 ==> NoneHasPublished(w)
    requires left == 6 ==> c.token == token
    ensures PcOf(Step(w, a, c), a) == Beginning(left - 1, token)
  {
    HeldIsDue(w, a);
    if left == 7 && !Look(w).readyEx {
      ReadyIsRefusedOnlyByAPublishedOwner(w, a);
    }
    if left == 3 {
      PublishingIsNeverRefused(w, a);
    }
  }

  /** Nobody else can publish while a startup holds the lease. */
  lemma LeaseKeepsOthersFromPublishing(w: World, a: int, b: int, c: Choice)
    requires Invariant(w) && w.lease.ex == By(a) && a != b && NoneHasPublished(w)
    ensures NoneHasPublished(Step(w, b, c))
  {
    HeldIsDue(w, b);
    forall d ensures !HasPublished(PcOf(Step(w, b, c), d)) {
      if d != b {
        StepOfAnother(w, b, c, d);
      }
    }
  }

  /**
   * A startup gets through: once it has the lease and no other owner has published, seven steps publish it, in whatever
   * way everybody else runs in between.
   */
  lemma {:induction false} StartupPublishes(w: World, schedule: seq<(int, Choice)>, a: int, token: int, left: nat)
    requires Invariant(w) && left <= 7 && PcOf(w, a) == Beginning(left, token)
    requires left == 7 ==> NoneHasPublished(w)
    requires Proceeds(schedule, a) && Turns(schedule, a) <= left
    requires forall i :: 0 <= i < |schedule| && schedule[i].0 == a ==> schedule[i].1.token == token
    ensures PcOf(Run(w, schedule), a) == Beginning(left - Turns(schedule, a), token)
    decreases schedule
  {
    if schedule != [] {
      var (b, c) := schedule[0];
      ProceedsOn(schedule, a);
      assert forall i :: 0 <= i < |schedule[1..]| ==> schedule[1..][i] == schedule[i + 1];
      HeldIsDue(w, a);
      hide Move, Look, Perform, Accounted, NoneHasPublished;
      StepKeeps(w, b, c);
      if b == a {
        BeginningAdvances(w, a, c, left, token);
        StartupPublishes(Step(w, b, c), schedule[1..], a, token, left - 1);
      } else {
        StepOfAnother(w, b, c, a);
        if left == 7 {
          LeaseKeepsOthersFromPublishing(w, a, b, c);
        }
        StartupPublishes(Step(w, b, c), schedule[1..], a, token, left);
      }
    }
  }

  /** A guard is granted only on the owner's own token, and whoever resets or withdraws readiness blanks the token. */
  lemma TokensDecide(w: World, a: int, c: Choice)
    requires Invariant(w)
    ensures var next := PcOf(Step(w, a, c), a);
      next.Guarding? && !PcOf(w, a).Guarding? ==> w.lease.token.Token? && w.ready.token == w.lease.token
    ensures PcOf(w, a).Starting? && (PcOf(w, a).startup.TokenWritten? || PcOf(w, a).startup.Retracting?) && c.Proceed? ==>
      Step(w, a, c).ready.token == Empty
  {
    hide Held, Accounted, Move;
    MoveDecides(PcOf(w, a), c, Look(w));
    HeldIsDue(w, a);
  }

  /**
   * How an attempt ends otherwise: an observer is told that nobody is ready, a finalizer polls again unless a step has
   * failed; readiness is announced by nothing but a publication that went through; and a finalizer takes its work for
   * handled only while somebody else holds the coordinator.
   */
  lemma EndingsAreHonest(w: World, a: int, c: Choice)
    requires Invariant(w)
    ensures var pc, next := PcOf(w, a), PcOf(Step(w, a, c), a);
      && (pc.Watching? && pc.f && !c.Fault? && !c.Crash? ==> next.Watching? || next.Guarding? || next == Finalizing(Waiting))
      && (pc.Watching? && !pc.f ==> next.Watching? || next.Guarding? || next.Gone?)
      && (next.Starting? && next.startup.Published? && next != pc ==> c.Proceed? && pc.Starting? && pc.startup.Announced?)
      && (next == Finalizing(Handled) && next != pc ==> w.coordinator.By? && w.coordinator.actor != a)
  {
    hide Accounted, Relies, Move;
    MoveEnds(PcOf(w, a), c, Look(w));
    HeldIsDue(w, a);
  }

  /** And whoever has what it came for can give it back at once. */
  lemma HoldersCanLeave(w: World, a: int)
    requires Invariant(w)
    ensures PcOf(w, a).Starting? && (PcOf(w, a).startup.Published? || PcOf(w, a).startup.Holding?) ==> PcOf(Step(w, a, Quit), a).Gone?
    ensures PcOf(w, a).Guarding? && PcOf(w, a).guard.Granted? && !PcOf(w, a).f ==> PcOf(Step(w, a, Quit), a).Gone?
    ensures PcOf(w, a) == Guarding(true, Commissioned) ==> PcOf(Step(Step(w, a, Quit), a, Quit), a).Gone?
    ensures PcOf(w, a).Operating? ==> PcOf(Step(Step(w, a, Quit), a, Quit), a).Gone?
  {
  }
}

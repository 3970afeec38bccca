/** The cache population protocol of gsym-cache: locks, objects and failure
    records changed in interleaved steps by any number of processes
    (gsym-cache/src/manage.rs, maintenance.rs and layout.rs). */
module Population {
  import opened Words
  import opened Wrappers
  import opened Wire
  import opened Image

  type BuildIdBytes = seq<uint8>

  // -------------------------------------------------------------------- lock slots

  const FNV_OFFSET: bv64 := 0xcbf2_9ce4_8422_2325
  const FNV_PRIME: bv64 := 0x0000_0100_0000_01b3

  const SLOTS: nat := 4096

  function Mix(hash: bv64, byte: uint8): bv64 {
    (hash ^ (byte as bv64)) * FNV_PRIME
  }

  function HashFrom(hash: bv64, bytes: seq<uint8>): bv64
    decreases |bytes|
  {
    if bytes == [] then hash else HashFrom(Mix(hash, bytes[0]), bytes[1..])
  }

  /** `lock_slot`: one of 4096 lock files. */
  function LockSlot(id: BuildIdBytes): (slot: nat)
    ensures slot < SLOTS
  {
    var hash := HashFrom(FNV_OFFSET, id);
    var masked: bv64 := (hash ^ (hash >> 32)) & 0x0fff;
    assert masked <= 0x0fff;
    masked as nat
  }

  // --------------------------------------------------------------- failure records

  datatype FailureKind = MissingInput | UnsupportedInput | MalformedInput | TransientIo | ResourceExhausted

  function Code(kind: FailureKind): uint8 {
    match kind
    case MissingInput => 1
    case UnsupportedInput => 2
    case MalformedInput => 3
    case TransientIo => 4
    case ResourceExhausted => 5
  }

  function FromCode(code: uint8): Option<FailureKind> {
    if code == 1 then Some(MissingInput)
    else if code == 2 then Some(UnsupportedInput)
    else if code == 3 then Some(MalformedInput)
    else if code == 4 then Some(TransientIo)
    else if code == 5 then Some(ResourceExhausted)
    else None
  }

  const NANOS: nat := 1_000_000_000
  const MAX_FAILURE_TTL: nat := 24 * 60 * 60 * NANOS
  const RECORD_PREFIX: seq<uint8> := [0x47, 0x53, 0x4e, 0x46, 1]

  /** `failure_expiration`: whole seconds, rounded up; times are nanoseconds. */
  function Expiration(lifetime: nat, now: nat): Result<uint64> {
    if lifetime == 0 || lifetime > MAX_FAILURE_TTL then Err(OutOfRange)
    else
      var expires := (now + lifetime + NANOS - 1) / NANOS;
      if expires >= U64_LIMIT then Err(OutOfRange) else Ok(expires)
  }

  function EncodeFailure(kind: FailureKind, expires: uint64): seq<uint8> {
    RECORD_PREFIX + [Code(kind)] + [0, 0] + ToBytes(Little, expires, 8)
  }

  /** A cached failure, or `None` for a record that is not one or not current. */
  function DecodeFailure(record: seq<uint8>, now: nat): Option<(FailureKind, uint64)> {
    if |record| != 16 || FromCode(record[5]).None? then None
    else if record[..5] != RECORD_PREFIX || record[6] != 0 || record[7] != 0 then None
    else
      FromBytesBound(Little, record[8..]);
      ExpWidths();
      var expires := FromBytes(Little, record[8..]);
      if expires * NANOS <= now || expires * NANOS - now >= MAX_FAILURE_TTL + NANOS then None
      else Some((FromCode(record[5]).value, expires))
  }

  lemma RoundedUp(total: nat)
    ensures
      var expires := (total + NANOS - 1) / NANOS;
      total <= expires * NANOS < total + NANOS
  {
  }

  /** A lifetime is accepted when it is positive, no longer than a day, and ends within the
      seconds that can be written. */
  lemma ExpirationIs(lifetime: nat, now: nat)
    ensures Expiration(lifetime, now).Ok? <==>
      0 < lifetime <= 86_400 * NANOS && exists seconds: nat :: seconds < U64_LIMIT && now + lifetime <= seconds * NANOS
    ensures Expiration(lifetime, now).Ok? ==> now + lifetime <= Expiration(lifetime, now).value * NANOS < now + lifetime + NANOS
  {
    RoundedUp(now + lifetime);
    var expires := (now + lifetime + NANOS - 1) / NANOS;
    if seconds: nat :| seconds < U64_LIMIT && now + lifetime <= seconds * NANOS {
      assert expires <= seconds;
    }
  }

  /** A record is honoured before it expires, with its kind, and never after that; nor while
      the clock is so far back that it would be honoured for longer than any lifetime. */
  lemma RecordHonoured(kind: FailureKind, expires: uint64, now: nat)
    ensures DecodeFailure(EncodeFailure(kind, expires), now)
         == if now < expires * NANOS < now + 86_401 * NANOS then Some((kind, expires)) else None
  {
    var record := EncodeFailure(kind, expires);
    ExpWidths();
    FromToBytes(Little, expires, 8);
    assert record[..5] == RECORD_PREFIX && record[5] == Code(kind) && record[6] == 0 && record[7] == 0;
    assert record[8..] == ToBytes(Little, expires, 8);
  }

  /** Only what recording writes is ever honoured. */
  lemma HonouredIsRecorded(record: seq<uint8>, now: nat)
    requires DecodeFailure(record, now).Some?
    ensures var (kind, expires) := DecodeFailure(record, now).value; record == EncodeFailure(kind, expires)
  {
    var (kind, expires) := DecodeFailure(record, now).value;
    ToFromBytes(Little, record[8..]);
    assert record == record[..5] + [record[5]] + [record[6], record[7]] + record[8..];
  }

  /** A recorded failure is honoured from the moment it is recorded until it
      expires, with its kind, and never after that. */
  lemma RecordedFailureHonoured(kind: FailureKind, lifetime: nat, now: nat, later: nat)
    requires Expiration(lifetime, now).Ok? && now <= later
    ensures
      var expires := Expiration(lifetime, now).value;
      && now + lifetime <= expires * NANOS < now + lifetime + NANOS
      && DecodeFailure(EncodeFailure(kind, expires), later)
         == if later < expires * NANOS then Some((kind, expires)) else None
  {
    ExpirationIs(lifetime, now);
    RecordHonoured(kind, Expiration(lifetime, now).value, later);
  }

  // ------------------------------------------------------------------------- state

  /** Which bytes `verify_file` accepts for a build. */
  type Validity = (BuildIdBytes, seq<uint8>) -> bool

  /** What follows the removal of an object. */
  datatype Next = Decide | Own | Link(staged: seq<uint8>) | Finish

  /** Where a process stands.  The states from `Locked` on hold the lock slot of
      their build ID. */
  datatype Process =
    | Idle
    | Inspecting(id: BuildIdBytes)
    | CheckingFailure(id: BuildIdBytes)
    | WantsLock(id: BuildIdBytes)
    | WantsPrune(id: BuildIdBytes, length: nat, lastUsed: nat)
    | WantsScrub(id: BuildIdBytes)
    | WantsScrubRecord(id: BuildIdBytes)
    | Locked(id: BuildIdBytes)
    | Removing(id: BuildIdBytes, next: Next)
    | Clearing(id: BuildIdBytes, next: Next)
    | Deciding(id: BuildIdBytes)
    | Owner(id: BuildIdBytes, staged: seq<uint8>)
    | Linking(id: BuildIdBytes, staged: seq<uint8>)
    | Clashed(id: BuildIdBytes, staged: seq<uint8>)
    | Pruning(id: BuildIdBytes, length: nat, lastUsed: nat)
    | Scrubbing(id: BuildIdBytes)
    | ScrubbingRecord(id: BuildIdBytes)
  {
    predicate Holding() {
      !(Idle? || Inspecting? || CheckingFailure? || WantsLock? || WantsPrune? || WantsScrub? || WantsScrubRecord?)
    }
  }

  datatype State = State(
    processes: map<nat, Process>,
    objects: map<BuildIdBytes, seq<uint8>>,
    failures: map<BuildIdBytes, seq<uint8>>,
    lastUsed: map<BuildIdBytes, nat>,
    now: nat)

  function ProcessOf(s: State, p: nat): Process {
    if p in s.processes then s.processes[p] else Idle
  }

  predicate HoldsSlot(s: State, p: nat, slot: nat) {
    ProcessOf(s, p).Holding() && LockSlot(ProcessOf(s, p).id) == slot
  }

  ghost predicate SlotFree(s: State, slot: nat) {
    forall p: nat :: !HoldsSlot(s, p, slot)
  }

  function Goto(s: State, p: nat, process: Process): State {
    s.(processes := s.processes[p := process])
  }

  predicate FailureCached(s: State, id: BuildIdBytes) {
    id in s.failures && DecodeFailure(s.failures[id], s.now).Some?
  }

  /** Whether the object is still the one a directory scan saw. */
  predicate Unchanged(s: State, id: BuildIdBytes, length: nat, lastUsed: nat) {
    id in s.objects && |s.objects[id]| == length && (if id in s.lastUsed then s.lastUsed[id] else 0) == lastUsed
  }

  const INITIAL := State(map[], map[], map[], map[], 0)

  // ------------------------------------------------------------------------- steps

  datatype Event =
    | BeginPopulation(p: nat, id: BuildIdBytes)
    | BeginPrune(p: nat, id: BuildIdBytes, length: nat, lastUsed: nat)
    | BeginScrub(p: nat, id: BuildIdBytes)
    | BeginScrubRecord(p: nat, id: BuildIdBytes)
    | Advance(p: nat)
    | Stage(p: nat, bytes: seq<uint8>)
    | Publish(p: nat)
    | RecordFailure(p: nat, kind: FailureKind, lifetime: nat)
    | Abandon(p: nat)
    | Touch(id: BuildIdBytes)
    | Tick(elapsed: nat)
    | Damage(id: BuildIdBytes, bytes: seq<uint8>)

  /** Taking the lock of a build ID without waiting, or giving up. */
  ghost function TryLock(s: State, held: Process): Process
    requires held.Holding()
  {
    if SlotFree(s, LockSlot(held.id)) then held else Idle
  }

  /** Where a process goes with its next atomic step. */
  ghost function NextProcess(valid: Validity, s: State, process: Process): Process {
    match process
    case Idle => Idle
    case Inspecting(id) => if id !in s.objects then CheckingFailure(id) else if valid(id, s.objects[id]) then Idle else WantsLock(id)
    case CheckingFailure(id) => if FailureCached(s, id) then Idle else WantsLock(id)
    case WantsLock(id) => TryLock(s, Locked(id))
    case WantsPrune(id, length, lastUsed) => TryLock(s, Pruning(id, length, lastUsed))
    case WantsScrub(id) => TryLock(s, Scrubbing(id))
    case WantsScrubRecord(id) => TryLock(s, ScrubbingRecord(id))
    case Locked(id) => if id !in s.objects then Deciding(id) else if valid(id, s.objects[id]) then Idle else Removing(id, Decide)
    case Removing(id, next) => Clearing(id, next)
    case Clearing(id, next) =>
      (match next case Decide => Deciding(id) case Own => Owner(id, []) case Link(staged) => Linking(id, staged) case Finish => Idle)
    case Deciding(id) => if FailureCached(s, id) then Idle else if id in s.failures then Clearing(id, Own) else Owner(id, [])
    case Owner(id, staged) => Owner(id, staged)
    case Linking(id, staged) => if id in s.objects then Clashed(id, staged) else Idle
    case Clashed(id, staged) =>
      if id !in s.objects then Linking(id, staged) else if valid(id, s.objects[id]) then Idle else Removing(id, Link(staged))
    case Pruning(id, length, lastUsed) => if Unchanged(s, id, length, lastUsed) then Removing(id, Finish) else Idle
    case Scrubbing(id) => if id in s.objects && !valid(id, s.objects[id]) then Removing(id, Finish) else Idle
    case ScrubbingRecord(id) => if id in s.failures && !FailureCached(s, id) then Clearing(id, Finish) else Idle
  }

  /** What that step does to the files. */
  function Effect(s: State, process: Process): State {
    match process
    case Removing(id, _) => s.(objects := s.objects - {id})
    case Clearing(id, _) => s.(failures := s.failures - {id})
    case Linking(id, staged) => if id in s.objects then s else s.(objects := s.objects[id := staged])
    case _ => s
  }

  /** The next atomic step of a process that is not waiting for its caller. */
  ghost function Advanced(valid: Validity, s: State, p: nat): State {
    Goto(Effect(s, ProcessOf(s, p)), p, NextProcess(valid, s, ProcessOf(s, p)))
  }

  /** The state after an event; an event out of place changes nothing. */
  ghost function Apply(valid: Validity, s: State, e: Event): State {
    match e
    case BeginPopulation(p, id) => if ProcessOf(s, p).Idle? then Goto(s, p, Inspecting(id)) else s
    case BeginPrune(p, id, length, lastUsed) => if ProcessOf(s, p).Idle? then Goto(s, p, WantsPrune(id, length, lastUsed)) else s
    case BeginScrub(p, id) => if ProcessOf(s, p).Idle? then Goto(s, p, WantsScrub(id)) else s
    case BeginScrubRecord(p, id) => if ProcessOf(s, p).Idle? then Goto(s, p, WantsScrubRecord(id)) else s
    case Advance(p) => Advanced(valid, s, p)
    case Stage(p, bytes) =>
      var process := ProcessOf(s, p);
      if process.Owner? then Goto(s, p, Owner(process.id, process.staged + bytes)) else s
    case Publish(p) =>
      var process := ProcessOf(s, p);
      if !process.Owner? then s
      else Goto(s, p, if valid(process.id, process.staged) then Linking(process.id, process.staged) else Idle)
    case RecordFailure(p, kind, lifetime) =>
      var process := ProcessOf(s, p);
      if !process.Owner? then s
      else
        var expires := Expiration(lifetime, s.now);
        Goto(if expires.Ok? then s.(failures := s.failures[process.id := EncodeFailure(kind, expires.value)]) else s, p, Idle)
    case Abandon(p) => Goto(s, p, Idle)
    case Touch(id) => s.(lastUsed := s.lastUsed[id := s.now])
    case Tick(elapsed) => s.(now := s.now + elapsed)
    case Damage(id, bytes) => if id in s.objects then s.(objects := s.objects[id := bytes]) else s
  }

  ghost function Run(valid: Validity, events: seq<Event>): State {
    if events == [] then INITIAL else Apply(valid, Run(valid, events[..|events| - 1]), events[|events| - 1])
  }

  // -------------------------------------------------------------------- invariants

  /** No two processes hold one lock slot. */
  ghost predicate Exclusive(s: State) {
    forall p: nat, q: nat :: ProcessOf(s, p).Holding() && ProcessOf(s, q).Holding() && p != q ==>
      LockSlot(ProcessOf(s, p).id) != LockSlot(ProcessOf(s, q).id)
  }

  /** No build has both an object and a failure record. */
  predicate Separate(s: State) {
    forall id :: id in s.objects ==> id !in s.failures
  }

  /** What a process knows about its build while it holds the slot. */
  ghost predicate Knows(valid: Validity, s: State, process: Process) {
    match process
    case Clearing(id, next) => id !in s.objects && (next.Link? ==> valid(id, next.staged))
    case Removing(id, next) => next.Link? ==> valid(id, next.staged)
    case Deciding(id) => id !in s.objects
    case Owner(id, _) => id !in s.objects && id !in s.failures
    case Linking(id, staged) => id !in s.objects && id !in s.failures && valid(id, staged)
    case Clashed(id, staged) => id !in s.failures && valid(id, staged)
    case _ => true
  }

  ghost predicate Safe(valid: Validity, s: State) {
    Exclusive(s) && Separate(s) && forall p: nat :: Knows(valid, s, ProcessOf(s, p))
  }

  /** The process an event is a step of. */
  function Actor(e: Event): Option<nat> {
    match e
    case Touch(_) => None
    case Tick(_) => None
    case Damage(_, _) => None
    case _ => Some(e.p)
  }

  /** What a step may do to the objects: a new one is verified for its build, none
      is overwritten, and only a holder of its slot links or removes one. */
  ghost predicate ObjectsSafe(valid: Validity, s: State, e: Event, after: State) {
    && (forall id :: id in after.objects && id !in s.objects ==>
          valid(id, after.objects[id]) && Actor(e).Some? && HoldsSlot(s, Actor(e).value, LockSlot(id)))
    && (forall id :: id in s.objects && id in after.objects && !e.Damage? ==> after.objects[id] == s.objects[id])
    && (forall id :: id in s.objects && id !in after.objects ==> Actor(e).Some? && HoldsSlot(s, Actor(e).value, LockSlot(id)))
  }

  /** Outside one build ID the two states hold the same files. */
  ghost predicate SameElsewhere(s: State, after: State, id: BuildIdBytes) {
    && (forall other :: other != id ==>
          (other in after.objects <==> other in s.objects) && (other in s.objects ==> after.objects[other] == s.objects[other]))
    && (forall other :: other != id ==> (other in after.failures <==> other in s.failures))
  }

  /** What a step of `p` about one build ID must respect to keep the invariants. */
  lemma StepKeeps(valid: Validity, s: State, after: State, p: nat, id: BuildIdBytes)
    requires Safe(valid, s) && SameElsewhere(s, after, id)
    requires forall q: nat :: q != p ==> ProcessOf(after, q) == ProcessOf(s, q)
    requires (after.objects == s.objects && after.failures == s.failures) || HoldsSlot(s, p, LockSlot(id))
    requires id in after.objects ==> id !in after.failures
    requires Knows(valid, after, ProcessOf(after, p))
    requires
      var process := ProcessOf(after, p);
      process.Holding() ==> HoldsSlot(s, p, LockSlot(process.id)) || SlotFree(s, LockSlot(process.id))
    ensures Safe(valid, after)
  {
    hide LockSlot, DecodeFailure;
    forall q: nat
      ensures Knows(valid, after, ProcessOf(after, q))
    {
      var process := ProcessOf(s, q);
      if q != p && process.Holding() && process.id == id && HoldsSlot(s, p, LockSlot(id)) {
        assert false;
      }
      assert Knows(valid, s, process);
    }
    forall q: nat, r: nat | ProcessOf(after, q).Holding() && ProcessOf(after, r).Holding() && q != r
      ensures LockSlot(ProcessOf(after, q).id) != LockSlot(ProcessOf(after, r).id)
    {
      if q == p {
        assert !HoldsSlot(s, r, LockSlot(ProcessOf(after, p).id)) || HoldsSlot(s, p, LockSlot(ProcessOf(after, p).id));
      } else if r == p {
        assert !HoldsSlot(s, q, LockSlot(ProcessOf(after, p).id)) || HoldsSlot(s, p, LockSlot(ProcessOf(after, p).id));
      }
    }
  }

  lemma AdvanceKeeps(valid: Validity, s: State, p: nat)
    requires Safe(valid, s)
    ensures Safe(valid, Advanced(valid, s, p)) && ObjectsSafe(valid, s, Advance(p), Advanced(valid, s, p))
  {
    hide *;
    SafeKnows(valid, s, p);
    AdvanceHolds(valid, s, p);
    AdvanceKnows(valid, s, p);
    AdvanceElsewhere(valid, s, p);
    AdvanceAlone(valid, s, p);
    StepKeeps(valid, s, Advanced(valid, s, p), p, Subject(ProcessOf(s, p)));
    AdvanceObjects(valid, s, p);
  }

  /** The build ID a process works on. */
  function Subject(process: Process): BuildIdBytes {
    if process.Idle? then [] else process.id
  }

  /** What the process knows next follows from what it knew. */
  lemma AdvanceKnows(valid: Validity, s: State, p: nat)
    requires Knows(valid, s, ProcessOf(s, p)) && Separate(s)
    ensures
      var after := Advanced(valid, s, p);
      && Knows(valid, after, ProcessOf(after, p))
      && (Subject(ProcessOf(s, p)) in after.objects ==> Subject(ProcessOf(s, p)) !in after.failures)
  {
    hide LockSlot, DecodeFailure, SlotFree;
    NextKeepsSubject(valid, s, ProcessOf(s, p));
  }

  /** A process sticks to its build until it is idle. */
  lemma NextKeepsSubject(valid: Validity, s: State, process: Process)
    ensures
      var next := NextProcess(valid, s, process);
      next.Idle? || Subject(next) == Subject(process)
  {
    hide LockSlot, FailureCached, SlotFree;
  }

  lemma AdvanceElsewhere(valid: Validity, s: State, p: nat)
    ensures SameElsewhere(s, Advanced(valid, s, p), Subject(ProcessOf(s, p)))
  {
    hide NextProcess;
  }

  lemma AdvanceAlone(valid: Validity, s: State, p: nat)
    ensures
      var after := Advanced(valid, s, p);
      && (forall q: nat :: q != p ==> ProcessOf(after, q) == ProcessOf(s, q))
      && ((after.objects == s.objects && after.failures == s.failures) || HoldsSlot(s, p, LockSlot(Subject(ProcessOf(s, p)))))
  {
    hide LockSlot, NextProcess;
  }

  lemma AdvanceObjects(valid: Validity, s: State, p: nat)
    requires Knows(valid, s, ProcessOf(s, p))
    ensures ObjectsSafe(valid, s, Advance(p), Advanced(valid, s, p))
  {
    hide LockSlot, NextProcess;
  }

  lemma SafeKnows(valid: Validity, s: State, p: nat)
    requires Safe(valid, s)
    ensures Knows(valid, s, ProcessOf(s, p)) && Separate(s)
  {
    hide LockSlot;
  }

  /** A process goes on holding what it held, or takes a free slot. */
  lemma AdvanceHolds(valid: Validity, s: State, p: nat)
    ensures
      var process := ProcessOf(Advanced(valid, s, p), p);
      process.Holding() ==> HoldsSlot(s, p, LockSlot(process.id)) || SlotFree(s, LockSlot(process.id))
  {
    hide LockSlot, FailureCached;
  }

  /** A request of the caller: starting, staging, publishing, recording a failure
      or giving up. */
  predicate IsRequest(e: Event) {
    !(e.Advance? || e.Touch? || e.Tick? || e.Damage?)
  }

  lemma RequestKnows(valid: Validity, s: State, e: Event)
    requires IsRequest(e) && Knows(valid, s, ProcessOf(s, e.p)) && Separate(s)
    ensures
      var after := Apply(valid, s, e);
      && Knows(valid, after, ProcessOf(after, e.p))
      && (Subject(ProcessOf(s, e.p)) in after.objects ==> Subject(ProcessOf(s, e.p)) !in after.failures)
      && after.objects == s.objects
  {
    hide LockSlot, EncodeFailure, Expiration, Advanced;
  }

  lemma RequestElsewhere(valid: Validity, s: State, e: Event)
    requires IsRequest(e)
    ensures
      var after := Apply(valid, s, e);
      && SameElsewhere(s, after, Subject(ProcessOf(s, e.p)))
      && (forall q: nat :: q != e.p ==> ProcessOf(after, q) == ProcessOf(s, q))
      && ((after.objects == s.objects && after.failures == s.failures) || HoldsSlot(s, e.p, LockSlot(Subject(ProcessOf(s, e.p)))))
      && (ProcessOf(after, e.p).Holding() ==> HoldsSlot(s, e.p, LockSlot(ProcessOf(after, e.p).id)))
  {
    hide LockSlot, EncodeFailure, Expiration, Advanced;
  }

  /** Every event, at any time and of any process, keeps the invariants. */
  lemma EventKeeps(valid: Validity, s: State, e: Event)
    requires Safe(valid, s)
    ensures Safe(valid, Apply(valid, s, e)) && ObjectsSafe(valid, s, e, Apply(valid, s, e))
  {
    hide LockSlot, DecodeFailure, EncodeFailure, Expiration, Safe, Exclusive, Advanced, Knows, SameElsewhere;
    if e.Advance? {
      AdvanceKeeps(valid, s, e.p);
    } else if IsRequest(e) {
      SafeKnows(valid, s, e.p);
      RequestKnows(valid, s, e);
      RequestElsewhere(valid, s, e);
      StepKeeps(valid, s, Apply(valid, s, e), e.p, Subject(ProcessOf(s, e.p)));
    } else {
      FilesKeep(valid, s, Apply(valid, s, e));
    }
  }

  /** Time, access times and damaged contents are outside the protocol. */
  lemma FilesKeep(valid: Validity, s: State, after: State)
    requires Safe(valid, s) && after.processes == s.processes
    requires forall id :: id in after.objects <==> id in s.objects
    requires after.failures == s.failures
    ensures Safe(valid, after)
  {
    hide LockSlot;
    forall p: nat
      ensures Knows(valid, after, ProcessOf(after, p))
    {
      assert Knows(valid, s, ProcessOf(s, p));
    }
    forall p: nat, q: nat
      ensures ProcessOf(after, p) == ProcessOf(s, p) && ProcessOf(after, q) == ProcessOf(s, q)
    {
    }
    assert Exclusive(after);
  }

  /** From an empty cache, in every interleaving: at most one process holds a lock
      slot, no build has both an object and a failure record, and each step links
      only verified bytes of the build, overwrites nothing, and removes an object
      only while holding its slot. */
  lemma {:induction false} EveryRunIsSafe(valid: Validity, events: seq<Event>)
    ensures Safe(valid, Run(valid, events))
    ensures events != [] ==>
      ObjectsSafe(valid, Run(valid, events[..|events| - 1]), events[|events| - 1], Run(valid, events))
    decreases |events|
  {
    hide Apply, ObjectsSafe, Safe;
    if events == [] {
      InitiallySafe(valid);
    } else {
      EveryRunIsSafe(valid, events[..|events| - 1]);
      EventKeeps(valid, Run(valid, events[..|events| - 1]), events[|events| - 1]);
    }
  }

  lemma InitiallySafe(valid: Validity)
    ensures Safe(valid, INITIAL)
  {
    hide LockSlot;
  }

  /** As long as nothing outside damages a file, every object is valid. */
  lemma {:induction false} UndamagedObjectsAreValid(valid: Validity, events: seq<Event>, id: BuildIdBytes)
    requires forall e :: e in events ==> !e.Damage?
    requires id in Run(valid, events).objects
    ensures valid(id, Run(valid, events).objects[id])
    decreases |events|
  {
    hide Apply, Safe, LockSlot;
    var before := events[..|events| - 1];
    EveryRunIsSafe(valid, events);
    if id in Run(valid, before).objects {
      UndamagedObjectsAreValid(valid, before, id);
    }
  }

  /** `verify_file`: the image loads, carries the build ID and verifies. */
  ghost predicate VerifiedFor(id: BuildIdBytes, bytes: seq<uint8>) {
    && Load(bytes).Ok?
    && BuildId(Load(bytes).value) == id
    && Verify(Load(bytes).value).Ok?
  }

  ghost function ImageValidity(): Validity {
    (id, bytes) => VerifiedFor(id, bytes)
  }

  /** With the reader's own verification, an undamaged cache only ever holds images
      of their builds on which every lookup is answered as specified. */
  lemma CachedImagesVerify(events: seq<Event>, id: BuildIdBytes)
    requires forall e :: e in events ==> !e.Damage?
    requires id in Run(ImageValidity(), events).objects
    ensures VerifiedFor(id, Run(ImageValidity(), events).objects[id])
  {
    hide VerifiedFor, Run;
    UndamagedObjectsAreValid(ImageValidity(), events, id);
  }

  // ----------------------------------------------------------------- running alone

  /** `p` taking `n` steps with nobody else in between. */
  ghost function Alone(valid: Validity, s: State, p: nat, n: nat): State
    decreases n
  {
    if n == 0 then s else Alone(valid, Advanced(valid, s, p), p, n - 1)
  }

  /** The state without the files of a build. */
  function Bare(s: State, id: BuildIdBytes): State {
    s.(objects := s.objects - {id}, failures := s.failures - {id})
  }

  /** Where `try_begin_population` leaves a process that is not interrupted. */
  ghost function Began(valid: Validity, s: State, p: nat, id: BuildIdBytes): State {
    if id in s.objects && valid(id, s.objects[id]) then Goto(s, p, Idle)
    else if id !in s.objects && FailureCached(s, id) then Goto(s, p, Idle)
    else if !SlotFree(s, LockSlot(id)) then Goto(s, p, Idle)
    else Goto(Bare(s, id), p, Owner(id, []))
  }

  lemma GotoTwice(s: State, p: nat, first: Process, second: Process)
    ensures Goto(Goto(s, p, first), p, second) == Goto(s, p, second)
  {
    assert s.processes[p := first][p := second] == s.processes[p := second];
  }

  /** A step that touches no file. */
  lemma MovesOn(valid: Validity, s: State, p: nat, from: Process, to: Process, n: nat)
    requires !from.Removing? && !from.Clearing? && !from.Linking? && n > 0
    requires NextProcess(valid, Goto(s, p, from), from) == to
    ensures Alone(valid, Goto(s, p, from), p, n) == Alone(valid, Goto(s, p, to), p, n - 1)
  {
    hide NextProcess;
    GotoTwice(s, p, from, to);
  }

  /** The two steps of a removal, and the one that links. */
  lemma Removes(valid: Validity, s: State, p: nat, id: BuildIdBytes, next: Next, to: Process, n: nat)
    requires n > 1 && to == NextProcess(valid, s, Clearing(id, next))
    ensures Alone(valid, Goto(s, p, Removing(id, next)), p, n) == Alone(valid, Goto(Bare(s, id), p, to), p, n - 2)
  {
    hide LockSlot, Alone;
    AloneStep(valid, Goto(s, p, Removing(id, next)), p, n);
    var gone := s.(objects := s.objects - {id});
    GotoTwice(gone, p, Removing(id, next), Clearing(id, next));
    Clears(valid, gone, p, id, next, to, n - 1);
  }

  lemma Clears(valid: Validity, s: State, p: nat, id: BuildIdBytes, next: Next, to: Process, n: nat)
    requires n > 0 && to == NextProcess(valid, s, Clearing(id, next))
    ensures Alone(valid, Goto(s, p, Clearing(id, next)), p, n) == Alone(valid, Goto(s.(failures := s.failures - {id}), p, to), p, n - 1)
  {
    hide LockSlot, Alone;
    AloneStep(valid, Goto(s, p, Clearing(id, next)), p, n);
    GotoTwice(s.(failures := s.failures - {id}), p, Clearing(id, next), to);
  }

  lemma Links(valid: Validity, s: State, p: nat, id: BuildIdBytes, staged: seq<uint8>, n: nat)
    requires n > 0 && id !in s.objects
    ensures Alone(valid, Goto(s, p, Linking(id, staged)), p, n)
      == Alone(valid, Goto(s.(objects := s.objects[id := staged]), p, Idle), p, n - 1)
  {
    hide LockSlot, Alone;
    AloneStep(valid, Goto(s, p, Linking(id, staged)), p, n);
    GotoTwice(s.(objects := s.objects[id := staged]), p, Linking(id, staged), Idle);
  }

  lemma AloneStep(valid: Validity, s: State, p: nat, n: nat)
    requires n > 0
    ensures Alone(valid, s, p, n) == Alone(valid, Advanced(valid, s, p), p, n - 1)
  {
  }

  lemma {:induction false} StaysPut(valid: Validity, s: State, p: nat, process: Process, n: nat)
    requires process.Idle? || process.Owner?
    ensures Alone(valid, Goto(s, p, process), p, n) == Goto(s, p, process)
    decreases n
  {
    if n > 0 {
      GotoTwice(s, p, process, process);
      StaysPut(valid, s, p, process, n - 1);
    }
  }

  /** A process that holds no slot does not keep one from being free. */
  lemma SlotStaysFree(s: State, p: nat, process: Process, slot: nat)
    requires !ProcessOf(s, p).Holding() && !process.Holding()
    ensures SlotFree(Goto(s, p, process), slot) == SlotFree(s, slot)
  {
    hide LockSlot;
    forall q: nat
      ensures HoldsSlot(Goto(s, p, process), q, slot) == HoldsSlot(s, q, slot)
    {
    }
  }

  /** Beginning alone ends, in at most six steps, where the files and locks say:
      with the slot and nothing on disk, or idle with nothing changed. */
  lemma BeginAlone(valid: Validity, s: State, p: nat, id: BuildIdBytes)
    requires Safe(valid, s) && ProcessOf(s, p).Idle?
    ensures Alone(valid, Apply(valid, s, BeginPopulation(p, id)), p, 6) == Began(valid, s, p, id)
  {
    hide LockSlot, DecodeFailure, SlotFree, Alone, Advanced;
    if id in s.objects && valid(id, s.objects[id]) {
      MovesOn(valid, s, p, Inspecting(id), Idle, 6);
      StaysPut(valid, s, p, Idle, 5);
    } else if id in s.objects {
      MovesOn(valid, s, p, Inspecting(id), WantsLock(id), 6);
      LockAlone(valid, s, p, id, 5);
    } else {
      MovesOn(valid, s, p, Inspecting(id), CheckingFailure(id), 6);
      if FailureCached(s, id) {
        MovesOn(valid, s, p, CheckingFailure(id), Idle, 5);
        StaysPut(valid, s, p, Idle, 4);
      } else {
        MovesOn(valid, s, p, CheckingFailure(id), WantsLock(id), 5);
        LockAlone(valid, s, p, id, 4);
      }
    }
  }

  lemma LockAlone(valid: Validity, s: State, p: nat, id: BuildIdBytes, n: nat)
    requires Safe(valid, s) && ProcessOf(s, p).Idle?
    requires if id in s.objects then n == 5 && !valid(id, s.objects[id]) else n == 4 && !FailureCached(s, id)
    ensures Alone(valid, Goto(s, p, WantsLock(id)), p, n)
      == if SlotFree(s, LockSlot(id)) then Goto(Bare(s, id), p, Owner(id, [])) else Goto(s, p, Idle)
  {
    hide LockSlot, DecodeFailure, SlotFree, Alone, Advanced, Bare;
    SlotStaysFree(s, p, WantsLock(id), LockSlot(id));
    if !SlotFree(s, LockSlot(id)) {
      MovesOn(valid, s, p, WantsLock(id), Idle, n);
      StaysPut(valid, s, p, Idle, n - 1);
    } else {
      MovesOn(valid, s, p, WantsLock(id), Locked(id), n);
      if id in s.objects {
        CorruptAlone(valid, s, p, id);
      } else {
        DecideAlone(valid, s, p, id);
      }
    }
  }

  lemma CorruptAlone(valid: Validity, s: State, p: nat, id: BuildIdBytes)
    requires id in s.objects && !valid(id, s.objects[id])
    ensures Alone(valid, Goto(s, p, Locked(id)), p, 4) == Goto(Bare(s, id), p, Owner(id, []))
  {
    hide LockSlot, DecodeFailure, SlotFree, Alone, Advanced;
    MovesOn(valid, s, p, Locked(id), Removing(id, Decide), 4);
    Removes(valid, s, p, id, Decide, Deciding(id), 3);
    MovesOn(valid, Bare(s, id), p, Deciding(id), Owner(id, []), 1);
    StaysPut(valid, Bare(s, id), p, Owner(id, []), 0);
  }

  lemma DecideAlone(valid: Validity, s: State, p: nat, id: BuildIdBytes)
    requires id !in s.objects && !FailureCached(s, id)
    ensures Alone(valid, Goto(s, p, Locked(id)), p, 3) == Goto(Bare(s, id), p, Owner(id, []))
  {
    hide LockSlot, DecodeFailure, SlotFree, Alone, Advanced;
    MovesOn(valid, s, p, Locked(id), Deciding(id), 3);
    assert s.objects - {id} == s.objects;
    if id in s.failures {
      MovesOn(valid, s, p, Deciding(id), Clearing(id, Own), 2);
      Clears(valid, s, p, id, Own, Owner(id, []), 1);
      StaysPut(valid, Bare(s, id), p, Owner(id, []), 0);
    } else {
      assert s.failures - {id} == s.failures;
      MovesOn(valid, s, p, Deciding(id), Owner(id, []), 2);
      StaysPut(valid, s, p, Owner(id, []), 1);
    }
  }

  /** An owner that is not interrupted publishes exactly what it staged, if that is
      valid for its build, and nothing otherwise; either way the slot is released. */
  lemma PublishAlone(valid: Validity, s: State, p: nat, id: BuildIdBytes, staged: seq<uint8>)
    requires Safe(valid, s) && ProcessOf(s, p) == Owner(id, staged)
    ensures Alone(valid, Apply(valid, s, Publish(p)), p, 1)
      == Goto(if valid(id, staged) then s.(objects := s.objects[id := staged]) else s, p, Idle)
  {
    hide LockSlot, DecodeFailure, SlotFree, Alone, Advanced;
    assert Knows(valid, s, ProcessOf(s, p));
    if valid(id, staged) {
      Links(valid, s, p, id, staged, 1);
      StaysPut(valid, s.(objects := s.objects[id := staged]), p, Idle, 0);
    } else {
      StaysPut(valid, s, p, Idle, 1);
    }
  }

  /** Pruning alone removes the object it was shown, with any failure record, if the
      object is unchanged and its slot is free, and otherwise touches nothing. */
  lemma PruneAlone(valid: Validity, s: State, p: nat, id: BuildIdBytes, length: nat, lastUsed: nat)
    requires Safe(valid, s) && ProcessOf(s, p).Idle?
    ensures Alone(valid, Apply(valid, s, BeginPrune(p, id, length, lastUsed)), p, 4)
      == Goto(if SlotFree(s, LockSlot(id)) && Unchanged(s, id, length, lastUsed) then Bare(s, id) else s, p, Idle)
  {
    hide LockSlot, DecodeFailure, SlotFree, Alone, Advanced;
    var wants, pruning := WantsPrune(id, length, lastUsed), Pruning(id, length, lastUsed);
    SlotStaysFree(s, p, wants, LockSlot(id));
    if !SlotFree(s, LockSlot(id)) {
      MovesOn(valid, s, p, wants, Idle, 4);
      StaysPut(valid, s, p, Idle, 3);
    } else {
      MovesOn(valid, s, p, wants, pruning, 4);
      if Unchanged(s, id, length, lastUsed) {
        MovesOn(valid, s, p, pruning, Removing(id, Finish), 3);
        Removes(valid, s, p, id, Finish, Idle, 2);
        StaysPut(valid, Bare(s, id), p, Idle, 0);
      } else {
        MovesOn(valid, s, p, pruning, Idle, 3);
        StaysPut(valid, s, p, Idle, 2);
      }
    }
  }

  /** Publishing that finds an object in place leaves a valid one there, and replaces any
      other by what was staged. */
  lemma ClashAlone(valid: Validity, s: State, p: nat, id: BuildIdBytes, staged: seq<uint8>)
    requires ProcessOf(s, p) == Clashed(id, staged)
    ensures Alone(valid, s, p, 4)
      == Goto(if id in s.objects && valid(id, s.objects[id]) then s
              else if id in s.objects then var bare := Bare(s, id); bare.(objects := bare.objects[id := staged])
              else s.(objects := s.objects[id := staged]), p, Idle)
  {
    hide LockSlot, DecodeFailure, SlotFree, Alone, Advanced;
    assert Goto(s, p, Clashed(id, staged)) == s;
    if id !in s.objects {
      MovesOn(valid, s, p, Clashed(id, staged), Linking(id, staged), 4);
      Links(valid, s, p, id, staged, 3);
      StaysPut(valid, s.(objects := s.objects[id := staged]), p, Idle, 2);
    } else if valid(id, s.objects[id]) {
      MovesOn(valid, s, p, Clashed(id, staged), Idle, 4);
      StaysPut(valid, s, p, Idle, 3);
    } else {
      MovesOn(valid, s, p, Clashed(id, staged), Removing(id, Link(staged)), 4);
      Removes(valid, s, p, id, Link(staged), Linking(id, staged), 3);
      Links(valid, Bare(s, id), p, id, staged, 1);
      StaysPut(valid, Bare(s, id).(objects := Bare(s, id).objects[id := staged]), p, Idle, 0);
    }
  }

  lemma TouchFirst(valid: Validity, s: State, p: nat, id: BuildIdBytes, length: nat, lastUsed: nat)
    requires ProcessOf(s, p).Idle?
    ensures Apply(valid, Apply(valid, s, BeginPrune(p, id, length, lastUsed)), Touch(id))
         == Apply(valid, Apply(valid, s, Touch(id)), BeginPrune(p, id, length, lastUsed))
    ensures var touched := Apply(valid, s, Touch(id));
      && touched.objects == s.objects && touched.failures == s.failures && touched.processes == s.processes
      && (lastUsed != s.now ==> !Unchanged(touched, id, length, lastUsed))
  {
  }

  /** An object used after it was listed is not pruned on the strength of that listing. */
  lemma TouchSpares(valid: Validity, s: State, p: nat, id: BuildIdBytes, length: nat, lastUsed: nat)
    requires Safe(valid, s) && ProcessOf(s, p).Idle? && lastUsed != s.now
    ensures
      var after := Alone(valid, Apply(valid, Apply(valid, s, BeginPrune(p, id, length, lastUsed)), Touch(id)), p, 4);
      after.objects == s.objects && after.failures == s.failures && ProcessOf(after, p).Idle?
  {
    hide Apply, Alone, Unchanged, Safe;
    TouchFirst(valid, s, p, id, length, lastUsed);
    EventKeeps(valid, s, Touch(id));
    PruneAlone(valid, Apply(valid, s, Touch(id)), p, id, length, lastUsed);
  }

  lemma AbandonFrees(valid: Validity, s: State, p: nat)
    requires Safe(valid, s) && ProcessOf(s, p).Holding()
    ensures var after := Apply(valid, s, Abandon(p));
      && after.objects == s.objects && after.failures == s.failures && after.now == s.now
      && SlotFree(after, LockSlot(ProcessOf(s, p).id)) && forall q: nat :: q != p ==> ProcessOf(after, q) == ProcessOf(s, q)
  {
    hide LockSlot, Knows, Separate;
    var after, slot := Apply(valid, s, Abandon(p)), LockSlot(ProcessOf(s, p).id);
    forall q: nat
      ensures !HoldsSlot(after, q, slot)
    {
      if q == p {
        assert ProcessOf(after, q) == Idle;
      } else {
        assert ProcessOf(after, q) == ProcessOf(s, q);
      }
    }
  }

  /** A build given up by one process is taken over by the next that asks for it. */
  lemma AbandonedIsTaken(valid: Validity, s: State, p: nat, q: nat)
    requires Safe(valid, s) && ProcessOf(s, p).Holding() && ProcessOf(s, q).Idle?
    requires ProcessOf(s, p).id !in s.objects && !FailureCached(s, ProcessOf(s, p).id)
    ensures
      var id := ProcessOf(s, p).id;
      var after := Alone(valid, Apply(valid, Apply(valid, s, Abandon(p)), BeginPopulation(q, id)), q, 6);
      ProcessOf(after, q) == Owner(id, []) && after.objects == s.objects && after.failures == s.failures - {id}
  {
    hide Apply, Alone, Safe, DecodeFailure, SlotFree, LockSlot;
    var id, after := ProcessOf(s, p).id, Apply(valid, s, Abandon(p));
    AbandonFrees(valid, s, p);
    EventKeeps(valid, s, Abandon(p));
    BeginAlone(valid, after, q, id);
    assert s.objects - {id} == s.objects;
  }

  /** Scrubbing alone removes the object, with any failure record, if it is not valid and its
      slot is free, and otherwise touches nothing. */
  lemma ScrubAlone(valid: Validity, s: State, p: nat, id: BuildIdBytes)
    requires Safe(valid, s) && ProcessOf(s, p).Idle?
    ensures Alone(valid, Apply(valid, s, BeginScrub(p, id)), p, 4)
      == Goto(if SlotFree(s, LockSlot(id)) && id in s.objects && !valid(id, s.objects[id]) then Bare(s, id) else s, p, Idle)
  {
    hide LockSlot, DecodeFailure, SlotFree, Alone, Advanced;
    SlotStaysFree(s, p, WantsScrub(id), LockSlot(id));
    if !SlotFree(s, LockSlot(id)) {
      MovesOn(valid, s, p, WantsScrub(id), Idle, 4);
      StaysPut(valid, s, p, Idle, 3);
    } else {
      MovesOn(valid, s, p, WantsScrub(id), Scrubbing(id), 4);
      if id in s.objects && !valid(id, s.objects[id]) {
        MovesOn(valid, s, p, Scrubbing(id), Removing(id, Finish), 3);
        Removes(valid, s, p, id, Finish, Idle, 2);
        StaysPut(valid, Bare(s, id), p, Idle, 0);
      } else {
        MovesOn(valid, s, p, Scrubbing(id), Idle, 3);
        StaysPut(valid, s, p, Idle, 2);
      }
    }
  }

  /** Scrubbing a failure record alone removes it if it is not current and its slot is free,
      and otherwise touches nothing. */
  lemma ScrubRecordAlone(valid: Validity, s: State, p: nat, id: BuildIdBytes)
    requires Safe(valid, s) && ProcessOf(s, p).Idle?
    ensures Alone(valid, Apply(valid, s, BeginScrubRecord(p, id)), p, 3)
      == Goto(if SlotFree(s, LockSlot(id)) && id in s.failures && DecodeFailure(s.failures[id], s.now).None?
              then s.(failures := s.failures - {id}) else s, p, Idle)
  {
    hide LockSlot, DecodeFailure, SlotFree, Alone, Advanced;
    SlotStaysFree(s, p, WantsScrubRecord(id), LockSlot(id));
    if !SlotFree(s, LockSlot(id)) {
      MovesOn(valid, s, p, WantsScrubRecord(id), Idle, 3);
      StaysPut(valid, s, p, Idle, 2);
    } else {
      MovesOn(valid, s, p, WantsScrubRecord(id), ScrubbingRecord(id), 3);
      if id in s.failures && DecodeFailure(s.failures[id], s.now).None? {
        MovesOn(valid, s, p, ScrubbingRecord(id), Clearing(id, Finish), 2);
        Clears(valid, s, p, id, Finish, Idle, 1);
        StaysPut(valid, s.(failures := s.failures - {id}), p, Idle, 0);
      } else {
        MovesOn(valid, s, p, ScrubbingRecord(id), Idle, 2);
        StaysPut(valid, s, p, Idle, 1);
      }
    }
  }

  /** An owner that records a failure leaves one record for its build, honoured with that
      kind until the lifetime is over, or writes nothing when the lifetime is refused; either
      way it lets go of the slot and no other file changes. */
  lemma RecordAlone(valid: Validity, s: State, p: nat, id: BuildIdBytes, staged: seq<uint8>, kind: FailureKind, lifetime: nat)
    requires ProcessOf(s, p) == Owner(id, staged)
    ensures
      var after := Apply(valid, s, RecordFailure(p, kind, lifetime));
      && ProcessOf(after, p) == Idle && (forall q: nat :: q != p ==> ProcessOf(after, q) == ProcessOf(s, q))
      && after.objects == s.objects && after.lastUsed == s.lastUsed && after.now == s.now
      && (Expiration(lifetime, s.now).Err? ==> after.failures == s.failures)
      && (Expiration(lifetime, s.now).Ok? ==>
            && id in after.failures && after.failures == s.failures[id := after.failures[id]]
            && var expires := Expiration(lifetime, s.now).value;
            && s.now + lifetime <= expires * NANOS < s.now + lifetime + NANOS
            && forall later: nat :: later >= s.now ==>
                 DecodeFailure(after.failures[id], later) == if later < expires * NANOS then Some((kind, expires)) else None)
  {
    hide LockSlot, DecodeFailure, EncodeFailure, Expiration;
    if Expiration(lifetime, s.now).Ok? {
      forall later: nat | later >= s.now
        ensures
          var expires := Expiration(lifetime, s.now).value;
          DecodeFailure(EncodeFailure(kind, expires), later) == if later < expires * NANOS then Some((kind, expires)) else None
      {
        RecordedFailureHonoured(kind, lifetime, s.now, later);
      }
      RecordedFailureHonoured(kind, lifetime, s.now, s.now);
    }
  }

  function Concatenated(chunks: seq<seq<uint8>>): seq<uint8> {
    if chunks == [] then [] else chunks[0] + Concatenated(chunks[1..])
  }

  /** `p` staging chunk after chunk. */
  ghost function Staged(valid: Validity, s: State, p: nat, chunks: seq<seq<uint8>>): State
    decreases |chunks|
  {
    if chunks == [] then s else Staged(valid, Apply(valid, s, Stage(p, chunks[0])), p, chunks[1..])
  }

  lemma {:induction false} StagesInOrder(valid: Validity, s: State, p: nat, id: BuildIdBytes, staged: seq<uint8>, chunks: seq<seq<uint8>>)
    ensures Staged(valid, Goto(s, p, Owner(id, staged)), p, chunks) == Goto(s, p, Owner(id, staged + Concatenated(chunks)))
    decreases |chunks|
  {
    hide LockSlot;
    if chunks == [] {
      assert staged + [] == staged;
    } else {
      GotoTwice(s, p, Owner(id, staged), Owner(id, staged + chunks[0]));
      StagesInOrder(valid, s, p, id, staged + chunks[0], chunks[1..]);
      assert staged + chunks[0] + Concatenated(chunks[1..]) == staged + (chunks[0] + Concatenated(chunks[1..]));
    }
  }

  /** A whole population without interruption: with the slot free, no valid object and no
      current failure, what is staged becomes the object if it is valid, and the build is left
      bare otherwise. */
  lemma PopulateAlone(valid: Validity, s: State, p: nat, id: BuildIdBytes, chunks: seq<seq<uint8>>)
    requires Safe(valid, s) && ProcessOf(s, p).Idle? && SlotFree(s, LockSlot(id))
    requires id in s.objects ==> !valid(id, s.objects[id])
    requires id !in s.objects ==> !FailureCached(s, id)
    ensures
      var begun := Alone(valid, Apply(valid, s, BeginPopulation(p, id)), p, 6);
      var done := Alone(valid, Apply(valid, Staged(valid, begun, p, chunks), Publish(p)), p, 1);
      var bare := Bare(s, id);
      done == Goto(if valid(id, Concatenated(chunks)) then bare.(objects := bare.objects[id := Concatenated(chunks)]) else bare, p, Idle)
  {
    hide LockSlot, DecodeFailure, SlotFree, Alone, Advanced, Staged;
    BeginAlone(valid, s, p, id);
    var bare, bytes := Bare(s, id), Concatenated(chunks);
    StagesInOrder(valid, bare, p, id, [], chunks);
    assert [] + bytes == bytes;
    var owning := Goto(bare, p, Owner(id, bytes));
    if valid(id, bytes) {
      GotoTwice(bare, p, Owner(id, bytes), Linking(id, bytes));
      Links(valid, bare, p, id, bytes, 1);
      StaysPut(valid, bare.(objects := bare.objects[id := bytes]), p, Idle, 0);
    } else {
      GotoTwice(bare, p, Owner(id, bytes), Idle);
      StaysPut(valid, bare, p, Idle, 1);
    }
  }
}
